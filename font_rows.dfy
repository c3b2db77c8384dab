// Row placement and masking of tools/font_extract.py: how a glyph's rows are
// centred or cropped into the output height, how a row wider than eight
// pixels is cut to one byte, and which reader a font file is given to.
module FontExtract {
  import opened Wrappers

  /** A glyph as the readers deliver it: its width, its declared height if any, its row values. */
  datatype GlyphData = GlyphData(width: int, height: Option<int>, bitmap: seq<nat>)

  /** The height used for placement: the declared one, or the number of rows. */
  function GlyphHeight(g: GlyphData): int
  {
    if g.height.Some? then g.height.value else |g.bitmap|
  }

  /** Python's right shift of a non-negative integer: k halvings, each rounding down. */
  function Shr(v: nat, k: nat): nat
  {
    if k == 0 then v else Shr(v / 2, k - 1)
  }

  /** One row cut to a byte as written: wider than 8 shifts right by width - 8, then keeps the low 8 bits. */
  function MaskRow(width: int, v: nat): (b: nat)
    ensures b < 256
  {
    if width > 8 then Shr(v, width - 8) % 256 else v % 256
  }

  /** The row's byte at output row r: the source row r - top_pad, or 0 above and below the glyph. */
  function TopPad(outHeight: nat, glyphHeight: int): int
  {
    (outHeight - glyphHeight) / 2
  }

  function PlacedRow(g: GlyphData, outHeight: nat, r: int): nat
  {
    var src := r - TopPad(outHeight, GlyphHeight(g));
    if 0 <= src < |g.bitmap| then MaskRow(g.width, g.bitmap[src]) else 0
  }

  /** Every row masked, in order: the rows that generate_json writes. */
  function MaskedRows(g: GlyphData): (rows: seq<nat>)
    ensures |rows| == |g.bitmap|
  {
    seq(|g.bitmap|, i requires 0 <= i < |g.bitmap| => MaskRow(g.width, g.bitmap[i]))
  }

  // ----------------------------------------------------------------
  // generate_c_code (tools/font_extract.py:199-227) and generate_json (235-252)

  /** The out_height row bytes of one glyph in the C table. */
  method GlyphRows(g: GlyphData, outHeight: nat) returns (rows: seq<nat>)
    ensures |rows| == outHeight
    ensures forall r :: 0 <= r < outHeight ==> rows[r] == PlacedRow(g, outHeight, r)
  {
    var topPad := (outHeight - GlyphHeight(g)) / 2;
    rows := [];
    for row := 0 to outHeight
      invariant |rows| == row
      invariant forall r :: 0 <= r < row ==> rows[r] == PlacedRow(g, outHeight, r)
    {
      var srcRow := row - topPad;
      if 0 <= srcRow < |g.bitmap| {
        var byteVal := g.bitmap[srcRow];
        if g.width > 8 {
          byteVal := Shr(byteVal, g.width - 8) % 256;
        } else {
          byteVal := byteVal % 256;
        }
        rows := rows + [byteVal];
      } else {
        rows := rows + [0];
      }
    }
  }

  /** The whole table: 96 entries for codes 32..127, a glyph's rows or out_height zeros where the font lacks it. */
  method FontTable(glyphs: map<int, GlyphData>, outHeight: nat) returns (table: seq<seq<nat>>)
    ensures |table| == 96
    ensures forall k :: 0 <= k < 96 ==> |table[k]| == outHeight
    ensures forall k, r :: 0 <= k < 96 && 0 <= r < outHeight ==>
      table[k][r] == if 32 + k in glyphs then PlacedRow(glyphs[32 + k], outHeight, r) else 0
  {
    table := [];
    for charCode := 32 to 128
      invariant |table| == charCode - 32
      invariant forall k :: 0 <= k < charCode - 32 ==> |table[k]| == outHeight
      invariant forall k, r :: 0 <= k < charCode - 32 && 0 <= r < outHeight ==>
        table[k][r] == if 32 + k in glyphs then PlacedRow(glyphs[32 + k], outHeight, r) else 0
    {
      var entry: seq<nat>;
      if charCode in glyphs {
        entry := GlyphRows(glyphs[charCode], outHeight);
      } else {
        entry := seq(outHeight, _ => 0);
      }
      table := table + [entry];
    }
  }

  /** A glyph no taller than the output sits in the middle: as many blank rows above as below, or one fewer. */
  lemma Centred(g: GlyphData, outHeight: nat)
    requires GlyphHeight(g) == |g.bitmap| <= outHeight
    ensures var top := TopPad(outHeight, |g.bitmap|);
      var bottom := outHeight - |g.bitmap| - top;
      && 0 <= top && (bottom == top || bottom == top + 1)
      && (forall r :: 0 <= r < top ==> PlacedRow(g, outHeight, r) == 0)
      && (forall i :: 0 <= i < |g.bitmap| ==> PlacedRow(g, outHeight, top + i) == MaskedRows(g)[i])
      && (forall r :: top + |g.bitmap| <= r < outHeight ==> PlacedRow(g, outHeight, r) == 0)
  {
  }

  /** A glyph taller than the output is cropped: the middle out_height rows, one more dropped at the top than at the bottom when the excess is odd. */
  lemma Cropped(g: GlyphData, outHeight: nat)
    requires GlyphHeight(g) == |g.bitmap| && outHeight < |g.bitmap|
    ensures var cut := -TopPad(outHeight, |g.bitmap|);
      var below := |g.bitmap| - outHeight - cut;
      && 0 < cut && (cut == below || cut == below + 1)
      && (forall r :: 0 <= r < outHeight ==> PlacedRow(g, outHeight, r) == MaskedRows(g)[cut + r])
  {
  }

  /** When the glyph exactly fills the output, the C table and the JSON hold the same bytes. */
  lemma TableMatchesJson(g: GlyphData)
    requires GlyphHeight(g) == |g.bitmap|
    ensures forall r :: 0 <= r < |g.bitmap| ==> PlacedRow(g, |g.bitmap|, r) == MaskedRows(g)[r]
  {
  }

  // ----------------------------------------------------------------
  // What the mask keeps of a BDF row. A BDF bitmap row is whole hex bytes,
  // the leftmost pixel in the most significant bit: a glyph of width w has
  // 8 * ceil(w / 8) bits per row, pixel x being bit number x from the left.

  /** The value of bits written most significant first. */
  function Value(bits: seq<bool>): nat
  {
    if bits == [] then 0 else 2 * Value(bits[..|bits| - 1]) + (if bits[|bits| - 1] then 1 else 0)
  }

  /** The number of stored bits per row of a BDF glyph of width w. */
  function StoredBits(width: nat): nat
  {
    8 * ((width + 7) / 8)
  }

  /** A shift right drops the last k bits. */
  lemma {:induction false} ShrDrops(bits: seq<bool>, k: nat)
    requires k <= |bits|
    ensures Shr(Value(bits), k) == Value(bits[..|bits| - k])
    decreases k
  {
    if k > 0 {
      var init := bits[..|bits| - 1];
      assert Value(bits) == 2 * Value(init) + (if bits[|bits| - 1] then 1 else 0);
      assert Value(bits) / 2 == Value(init);
      assert Shr(Value(bits), k) == Shr(Value(init), k - 1);
      ShrDrops(init, k - 1);
      assert init[..|init| - (k - 1)] == bits[..|bits| - k];
    } else {
      assert bits[..|bits|] == bits;
    }
  }

  function Pow2(k: nat): (p: nat)
    ensures p > 0
  {
    if k == 0 then 1 else 2 * Pow2(k - 1)
  }

  /** The value of the first bits, scaled past the last m, plus the value of the last m. */
  lemma {:induction false} SplitValue(bits: seq<bool>, m: nat)
    requires m <= |bits|
    ensures Value(bits) == Value(bits[..|bits| - m]) * Pow2(m) + Value(bits[|bits| - m..])
    decreases m
  {
    if m == 0 {
      assert bits[..|bits|] == bits;
    } else {
      var init := bits[..|bits| - 1];
      var tail := bits[|bits| - m..];
      SplitValue(init, m - 1);
      assert init[..|init| - (m - 1)] == bits[..|bits| - m];
      assert tail[..|tail| - 1] == init[|init| - (m - 1)..];
      var h := Value(bits[..|bits| - m]);
      var lo := Value(init[|init| - (m - 1)..]);
      var b := if bits[|bits| - 1] then 1 else 0;
      assert Value(init) == h * Pow2(m - 1) + lo;
      assert Value(tail) == 2 * lo + b;
      assert Value(bits) == 2 * Value(init) + b;
      DoublePow2(h, m);
    }
  }

  /** Doubling h * 2^(m-1) gives h * 2^m. */
  lemma DoublePow2(h: nat, m: nat)
    requires m > 0
    ensures 2 * (h * Pow2(m - 1)) == h * Pow2(m)
  {
  }

  /** m bits hold a value below 2^m. */
  lemma {:induction false} SmallValue(bits: seq<bool>)
    ensures Value(bits) < Pow2(|bits|)
    decreases |bits|
  {
    if bits != [] {
      SmallValue(bits[..|bits| - 1]);
    }
  }

  /** Keeping the value modulo 256 keeps the last eight bits. */
  lemma LowByte(bits: seq<bool>)
    requires 8 <= |bits|
    ensures Value(bits) % 256 == Value(bits[|bits| - 8..])
  {
    var low := bits[|bits| - 8..];
    SplitValue(bits, 8);
    SmallValue(low);
    assert Pow2(8) == 256;
    var h := Value(bits[..|bits| - 8]);
    var l := Value(low);
    assert Value(bits) == h * 256 + l && l < 256;
    ByteOfSum(h, l);
  }

  lemma ByteOfSum(h: nat, l: nat)
    requires l < 256
    ensures (h * 256 + l) % 256 == l
  {
  }

  /**
   * As written, the byte kept from a stored row of a glyph wider than 8 is
   * the eight bits that end width - 8 bits from the right, that is the
   * pixels from StoredBits(width) - width on.
   */
  lemma MaskWindow(width: nat, bits: seq<bool>)
    requires width > 8 && |bits| == StoredBits(width)
    ensures var from := StoredBits(width) - width;
      MaskRow(width, Value(bits)) == Value(bits[from..from + 8])
  {
    var from := StoredBits(width) - width;
    var kept := bits[..|bits| - (width - 8)];
    ShrDrops(bits, width - 8);
    LowByte(kept);
    assert kept[|kept| - 8..] == bits[from..from + 8];
  }

  /** The byte a stored row should give: its eight leftmost pixels. */
  function LeftmostByte(width: int, v: nat): (b: nat)
    ensures b < 256
  {
    if width > 8 then Shr(v, StoredBits(width) - 8) % 256 else v % 256
  }

  /** The corrected cut keeps pixels 0..7 of every stored row, whatever the width. */
  lemma LeftmostKeepsFirstPixels(width: nat, bits: seq<bool>)
    requires width > 0 && |bits| == StoredBits(width)
    ensures LeftmostByte(width, Value(bits)) == Value(bits[..8])
  {
    SmallValue(bits[..8]);
    assert Pow2(8) == 256;
    if width > 8 {
      ShrDrops(bits, |bits| - 8);
    } else {
      assert bits[..8] == bits;
    }
  }

  /** The two cuts agree when the width is a whole number of bytes. */
  lemma AlignedWidthsAgree(width: nat, v: nat)
    requires width % 8 == 0
    ensures MaskRow(width, v) == LeftmostByte(width, v)
  {
  }

  function Ones(n: nat): (s: seq<bool>)
    ensures |s| == n
  {
    seq(n, _ => true)
  }

  function Offs(n: nat): (s: seq<bool>)
    ensures |s| == n
  {
    seq(n, _ => false)
  }

  lemma {:induction false} OnesValue(n: nat)
    ensures Value(Ones(n)) == Pow2(n) - 1
  {
    if n > 0 {
      assert Ones(n)[..n - 1] == Ones(n - 1);
      OnesValue(n - 1);
    }
  }

  lemma {:induction false} OffsValue(n: nat)
    ensures Value(Offs(n)) == 0
  {
    if n > 0 {
      assert Offs(n)[..n - 1] == Offs(n - 1);
      OffsValue(n - 1);
    }
  }

  /**
   * A 10-pixel glyph row with every pixel lit is stored as 0xFFC0; the mask
   * as written turns it into 0xF0, its pixels 6 to 13, where the leftmost
   * byte is 0xFF.
   */
  lemma TenPixelRowLosesLeftPixels()
    ensures Value(Ones(10) + Offs(6)) == 0xFFC0
    ensures MaskRow(10, 0xFFC0) == 0xF0
    ensures LeftmostByte(10, 0xFFC0) == 0xFF
  {
    var row := Ones(10) + Offs(6);
    SplitValue(row, 6);
    assert row[..10] == Ones(10) && row[10..] == Offs(6);
    OnesValue(10);
    OffsValue(6);
    assert Pow2(10) == 1024 && Pow2(6) == 64;
  }

  // ----------------------------------------------------------------
  // extract_font_bitmaps (tools/font_extract.py:170-176): the reader is
  // chosen by the file name's suffix, compared in lower case.

  datatype Reader = BdfReader | OtbReader

  /** The text after the last '/' of a path: the whole path when it has
    * no '/', and empty when it ends in '/'. */
  function LastPart(path: seq<char>): (part: seq<char>)
    ensures '/' !in part && |part| <= |path|
    decreases |path|
  {
    if path == [] then []
    else if path[|path| - 1] == '/' then []
    else LastPart(path[..|path| - 1]) + [path[|path| - 1]]
  }

  /** The last part ends the path, right after a '/' unless it is the whole path. */
  lemma {:induction false} LastPartEnds(path: seq<char>)
    ensures var part := LastPart(path);
      part == path[|path| - |part|..] && (|part| < |path| ==> path[|path| - |part| - 1] == '/')
    decreases |path|
  {
    if path != [] && path[|path| - 1] != '/' {
      var init := path[..|path| - 1];
      LastPartEnds(init);
      var q := LastPart(init);
      assert path[|path| - |q| - 1..] == init[|init| - |q|..] + [path[|path| - 1]];
    }
  }

  /** Path(path).name for a POSIX path: pathlib drops empty and "."
    * components, so the name is the last component that is neither, and
    * empty when there is none ("." and "/" have no name). */
  function BaseName(path: seq<char>): (name: seq<char>)
    ensures '/' !in name && name != "."
    decreases |path|
  {
    var last := LastPart(path);
    if last != [] && last != "." then last
    else if |last| == |path| then []
    else BaseName(path[..|path| - |last| - 1])
  }

  /** The index of the last '.', if any. */
  function LastDot(name: seq<char>): (r: Option<nat>)
    ensures r.Some? ==> r.value < |name| && name[r.value] == '.' && '.' !in name[r.value + 1..]
    ensures r.None? ==> '.' !in name
  {
    if name == [] then None
    else if name[|name| - 1] == '.' then Some(|name| - 1)
    else
      var r := LastDot(name[..|name| - 1]);
      assert name == name[..|name| - 1] + [name[|name| - 1]];
      r
  }

  /** The suffix of a file name: from its last dot, when that dot is neither first nor last. */
  function Suffix(name: seq<char>): seq<char>
  {
    match LastDot(name)
    case Some(i) => if 0 < i < |name| - 1 then name[i..] else []
    case None => []
  }

  function LowerChar(c: char): char
  {
    if 'A' <= c <= 'Z' then (c as int + 32) as char else c
  }

  function Lower(s: seq<char>): (r: seq<char>)
    ensures |r| == |s|
  {
    seq(|s|, i requires 0 <= i < |s| => LowerChar(s[i]))
  }

  /** The reader for a file name, by its suffix in lower case. */
  function ReaderFor(name: seq<char>): Reader
  {
    if Lower(Suffix(name)) == ".bdf" then BdfReader else OtbReader
  }

  function ChooseReader(path: seq<char>): Reader
  {
    ReaderFor(BaseName(path))
  }

  /** A dot followed only by non-dots is the last dot. */
  lemma {:induction false} LastDotAt(name: seq<char>, i: nat)
    requires i < |name| && name[i] == '.' && '.' !in name[i + 1..]
    ensures LastDot(name) == Some(i)
    decreases |name|
  {
    if i < |name| - 1 {
      var init := name[..|name| - 1];
      assert name[|name| - 1] in name[i + 1..];
      assert init[i + 1..] <= name[i + 1..];
      LastDotAt(init, i);
    }
  }

  /** Lower-casing gives '.', 'b', 'd' or 'f' only from those characters or their capitals. */
  lemma LowerBdf(t: seq<char>)
    requires |t| == 4 && Lower(t) == ".bdf"
    ensures t[0] == '.' && '.' !in t[1..]
  {
    var l := Lower(t);
    assert l[0] == '.' && l[1] == 'b' && l[2] == 'd' && l[3] == 'f';
    assert LowerChar(t[0]) == '.' && LowerChar(t[1]) == 'b' && LowerChar(t[2]) == 'd' && LowerChar(t[3]) == 'f';
    assert t[1..] == [t[1], t[2], t[3]];
  }

  /** A file goes to the BDF reader exactly when its name is longer than four characters and ends in ".bdf" in any case. */
  lemma BdfExactly(path: seq<char>)
    ensures var name := BaseName(path);
      ChooseReader(path) == BdfReader <==> |name| > 4 && Lower(name[|name| - 4..]) == ".bdf"
  {
    NameBdfExactly(BaseName(path));
  }

  /** BdfExactly for a file name. */
  lemma NameBdfExactly(name: seq<char>)
    ensures ReaderFor(name) == BdfReader <==> |name| > 4 && Lower(name[|name| - 4..]) == ".bdf"
  {
    if |name| > 4 && Lower(name[|name| - 4..]) == ".bdf" {
      var i := |name| - 4;
      LowerBdf(name[i..]);
      assert name[i + 1..] == name[i..][1..];
      LastDotAt(name, i);
      assert Suffix(name) == name[i..];
    }
    if ReaderFor(name) == BdfReader {
      var i := LastDot(name).value;
      assert |Lower(Suffix(name))| == 4;
    }
  }

  /** A path without '/' is its own last part. */
  lemma {:induction false} NoSlashLastPart(path: seq<char>)
    requires '/' !in path
    ensures LastPart(path) == path
  {
    if path != [] {
      assert path[..|path| - 1] <= path;
      NoSlashLastPart(path[..|path| - 1]);
    }
  }

  /** A path without '/' is its own file name, except "." which has none. */
  lemma NoSlashBaseName(path: seq<char>)
    requires '/' !in path
    ensures BaseName(path) == if path == "." then [] else path
  {
    NoSlashLastPart(path);
  }

  /** The last part is what follows the last '/'. */
  lemma {:induction false} LastPartAfter(path: seq<char>, i: nat)
    requires i < |path| && path[i] == '/' && '/' !in path[i + 1..]
    ensures LastPart(path) == path[i + 1..]
    decreases |path|
  {
    if i < |path| - 1 {
      var init := path[..|path| - 1];
      assert path[|path| - 1] in path[i + 1..];
      assert init[i + 1..] <= path[i + 1..];
      LastPartAfter(init, i);
      assert path[i + 1..] == init[i + 1..] + [path[|path| - 1]];
    }
  }

  /** The file name is what follows the last '/', when that is neither
    * empty nor ".". */
  lemma BaseNameAfter(path: seq<char>, i: nat)
    requires i < |path| && path[i] == '/' && '/' !in path[i + 1..]
    requires path[i + 1..] != [] && path[i + 1..] != "."
    ensures BaseName(path) == path[i + 1..]
  {
    LastPartAfter(path, i);
  }

  /** A trailing '/' or "/." does not change the file name. */
  lemma TrailingSeparators(path: seq<char>)
    ensures BaseName(path + "/") == BaseName(path)
    ensures BaseName(path + "/.") == BaseName(path)
  {
    var p1, p2 := path + "/", path + "/.";
    assert p1[..|p1| - 1] == path;
    assert LastPart(p1) == [];
    assert p2[..|p2| - 1] == p1;
    assert LastPart(p2) == ".";
    assert p2[..|p2| - 2] == path;
  }

  /** The suffix is compared in lower case: an upper-case ".BDF" file is read as BDF. */
  lemma UpperCaseSuffix()
    ensures ChooseReader("f/a.BDF") == BdfReader
  {
    var path := "f/a.BDF";
    BaseNameAfter(path, 1);
    assert BaseName(path) == "a.BDF";
    var l := Lower("a.BDF"[1..]);
    assert l == [LowerChar('.'), LowerChar('B'), LowerChar('D'), LowerChar('F')];
    BdfExactly("f/a.BDF");
  }

  /** A trailing '/' or "/." is dropped before the suffix is read, so
    * "f/a.bdf/" and "f/a.bdf/." go to the BDF reader as "f/a.bdf" does. */
  lemma TrailingSeparatorBdf()
    ensures ChooseReader("f/a.bdf") == BdfReader
    ensures ChooseReader("f/a.bdf/") == BdfReader && ChooseReader("f/a.bdf/.") == BdfReader
  {
    var path := "f/a.bdf";
    BaseNameAfter(path, 1);
    assert BaseName(path) == "a.bdf";
    var l := Lower("a.bdf"[1..]);
    assert l == [LowerChar('.'), LowerChar('b'), LowerChar('d'), LowerChar('f')];
    BdfExactly(path);
    TrailingSeparators(path);
    assert path + "/" == "f/a.bdf/" && path + "/." == "f/a.bdf/.";
  }

  /** A name that is only ".bdf" has no suffix, so it goes to the OTB reader. */
  lemma HiddenNameHasNoSuffix()
    ensures ChooseReader(".bdf") == OtbReader
  {
    NoSlashBaseName(".bdf");
    BdfExactly(".bdf");
  }
}
