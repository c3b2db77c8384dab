// The five-pixel font of tools/extract_five_pixel_font.py: the run-length
// decoder that fills the 64x64 texture atlas, the 6x6 glyph slicer and the
// optional padding to 8 rows.
module FivePixelFont {
  import opened Wrappers

  const TEXTURE_WIDTH: nat := 64
  const TEXTURE_HEIGHT: nat := 64
  const TEXTURE_SIZE: nat := TEXTURE_WIDTH * TEXTURE_HEIGHT
  const GLYPH_WIDTH: nat := 6
  const GLYPH_HEIGHT: nat := 6
  const GLYPHS_PER_ROW: nat := TEXTURE_WIDTH / GLYPH_WIDTH
  const GLYPH_COUNT: nat := 96
  const ON: bv8 := 0xFF

  function Blank(n: nat): (s: seq<bv8>)
    ensures |s| == n && forall i :: 0 <= i < n ==> s[i] == 0
  {
    seq(n, _ => 0)
  }

  /** The eight pixels a non-zero byte encodes, its most significant bit first. */
  /** Bit i of a byte (1 << i) is set. */
  predicate HasBit(b: bv8, i: nat)
    requires i < 8
  {
    b & ((1 as bv8) << i) != 0
  }

  /** Pixel x of a glyph row byte: the bit 0x80 >> x. */
  predicate RowHas(row: bv8, x: nat)
    requires x < 8
  {
    row & ((0x80 as bv8) >> x) != 0
  }

  /** The texture pixel at column x, row y. */
  function At(t: seq<bv8>, x: nat, y: nat): bv8
    requires |t| == TEXTURE_SIZE && x < TEXTURE_WIDTH && y < TEXTURE_HEIGHT
  {
    t[y * TEXTURE_WIDTH + x]
  }

  function BitPixels(b: bv8): (px: seq<bv8>)
    ensures |px| == 8
  {
    seq(8, i requires 0 <= i < 8 => if HasBit(b, 7 - i) then ON else 0)
  }

  // ----------------------------------------------------------------
  // decompress_font (tools/extract_five_pixel_font.py:42-69)

  /**
   * The pixels the bytes from index k on encode: a 0 followed by n is a run
   * of 8n zero pixels, any other byte its own eight pixels; a 0 with no count
   * after it encodes nothing.
   */
  function Stream(data: seq<bv8>, k: nat): seq<bv8>
    decreases |data| - k
  {
    if k >= |data| then []
    else if data[k] == 0 then
      (if k + 1 < |data| then Blank(8 * data[k + 1] as nat) + Stream(data, k + 2) else [])
    else BitPixels(data[k]) + Stream(data, k + 1)
  }

  /** The atlas: the stream cut at 4096 pixels, zero after its end. */
  function Fit(s: seq<bv8>): (t: seq<bv8>)
    ensures |t| == TEXTURE_SIZE
  {
    if |s| >= TEXTURE_SIZE then s[..TEXTURE_SIZE] else s + Blank(TEXTURE_SIZE - |s|)
  }

  /**
   * after is before with the pixels px written from index p up to q: the
   * first q - p of them, the rest of the texture as it was.
   */
  predicate Wrote(before: seq<bv8>, after: seq<bv8>, p: nat, q: nat, px: seq<bv8>)
  {
    && |after| == |before| && p <= q <= |before| && q - p <= |px|
    && (forall j :: 0 <= j < p ==> after[j] == before[j])
    && (forall j :: p <= j < q ==> after[j] == px[j - p])
    && (forall j :: q <= j < |before| ==> after[j] == before[j])
  }

  /** How far a run of n pixels from p reaches: its end, or the end of the texture. */
  function Reach(p: nat, n: nat, size: nat): nat
  {
    if n <= size - p then p + n else size
  }

  method DecompressFont(data: seq<bv8>) returns (texture: array<bv8>)
    ensures fresh(texture) && texture[..] == Fit(Stream(data, 0))
  {
    texture := new bv8[TEXTURE_SIZE](_ => 0);
    var byteIndex := 0;
    var pixelIndex := 0;
    while byteIndex < |data| && pixelIndex < texture.Length
      invariant texture.Length == TEXTURE_SIZE
      invariant 0 <= byteIndex <= |data| && 0 <= pixelIndex <= TEXTURE_SIZE
      invariant Fit(texture[..pixelIndex] + Stream(data, byteIndex)) == Fit(Stream(data, 0))
      invariant texture[pixelIndex..] == Blank(TEXTURE_SIZE - pixelIndex)
      decreases |data| - byteIndex
    {
      byteIndex, pixelIndex := DecodeRun(texture, data, byteIndex, pixelIndex);
    }
    Filled(texture[..], pixelIndex, Stream(data, byteIndex));
  }

  /** One pass of the decoding loop: the byte at k and, after a 0, its count. */
  method DecodeRun(texture: array<bv8>, data: seq<bv8>, k: nat, p: nat) returns (k': nat, p': nat)
    requires texture.Length == TEXTURE_SIZE && k < |data| && p <= TEXTURE_SIZE
    requires texture[p..] == Blank(TEXTURE_SIZE - p)
    modifies texture
    ensures k < k' <= |data| && p' <= TEXTURE_SIZE
    ensures texture[p'..] == Blank(TEXTURE_SIZE - p')
    ensures Fit(texture[..p'] + Stream(data, k')) == Fit(old(texture[..p]) + Stream(data, k))
  {
    var b := data[k];
    k' := k + 1;
    ghost var before := texture[..];
    if b == 0 {
      if k' < |data| {
        var runLength := data[k'] as nat * 8;
        k' := k' + 1;
        assert Stream(data, k) == Blank(runLength) + Stream(data, k');
        p' := ZeroRun(texture, p, runLength);
        Advance(before, p, Blank(runLength), Stream(data, k'), texture[..], p');
      } else {
        assert Stream(data, k) == Stream(data, k') == [];
        p' := p;
      }
    } else {
      assert Stream(data, k) == BitPixels(b) + Stream(data, k');
      p' := ByteRun(texture, p, b);
      Advance(before, p, BitPixels(b), Stream(data, k'), texture[..], p');
    }
  }

  /** When the loop stops, the stream has ended or the texture is full: what is written is the atlas. */
  lemma Filled(t: seq<bv8>, p: nat, rest: seq<bv8>)
    requires |t| == TEXTURE_SIZE && p <= TEXTURE_SIZE && t[p..] == Blank(TEXTURE_SIZE - p)
    requires rest == [] || p == TEXTURE_SIZE
    ensures Fit(t[..p] + rest) == t
  {
    if rest == [] {
      assert t[..p] + rest == t[..p];
      assert t == t[..p] + t[p..];
    } else {
      assert t[..p] == t;
    }
  }

  /** One run written: the invariant of the decoding loop carries over. */
  lemma Advance(before: seq<bv8>, p: nat, px: seq<bv8>, rest: seq<bv8>, after: seq<bv8>, q: nat)
    requires |before| == TEXTURE_SIZE && p <= TEXTURE_SIZE
    requires before[p..] == Blank(TEXTURE_SIZE - p)
    requires q == Reach(p, |px|, TEXTURE_SIZE) && Wrote(before, after, p, q, px)
    ensures Fit(after[..q] + rest) == Fit(before[..p] + (px + rest))
    ensures after[q..] == Blank(TEXTURE_SIZE - q)
  {
    var m := q - p;
    assert after[..q] == before[..p] + px[..m];
    if m == |px| {
      assert px[..m] == px;
      assert after[..q] + rest == before[..p] + (px + rest);
    } else {
      assert q == TEXTURE_SIZE;
      assert (after[..q] + rest)[..TEXTURE_SIZE] == after[..q];
      assert (before[..p] + (px + rest))[..TEXTURE_SIZE] == before[..p] + px[..m];
    }
    assert after[q..] == before[q..];
  }

  /** The zero run: run_length steps, each writing one zero while the texture has room. */
  method ZeroRun(texture: array<bv8>, start: nat, runLength: nat) returns (next: nat)
    requires start <= texture.Length
    modifies texture
    ensures next == Reach(start, runLength, texture.Length)
    ensures Wrote(old(texture[..]), texture[..], start, next, Blank(runLength))
  {
    next := start;
    for k := 0 to runLength
      invariant next == Reach(start, k, texture.Length)
      invariant Wrote(old(texture[..]), texture[..], start, next, Blank(runLength))
    {
      if next < texture.Length {
        texture[next] := 0;
        next := next + 1;
      }
    }
  }

  /** The eight pixels of one byte, bit 7 first, while the texture has room. */
  method ByteRun(texture: array<bv8>, start: nat, b: bv8) returns (next: nat)
    requires start <= texture.Length
    modifies texture
    ensures next == Reach(start, 8, texture.Length)
    ensures Wrote(old(texture[..]), texture[..], start, next, BitPixels(b))
  {
    next := start;
    var i := 7;
    while i >= 0
      invariant -1 <= i <= 7
      invariant next == Reach(start, 7 - i, texture.Length)
      invariant Wrote(old(texture[..]), texture[..], start, next, BitPixels(b))
    {
      if next < texture.Length {
        texture[next] := if b & ((1 as bv8) << i) != 0 then ON else 0;
        next := next + 1;
      }
      i := i - 1;
    }
  }

  /** A trailing 0 never adds pixels: a lone 0 encodes nothing, and after a lone 0 it is a count of 0. */
  lemma {:induction false} TrailingZeroEmitsNothing(data: seq<bv8>, k: nat)
    ensures Stream(data + [0], k) == Stream(data, k)
    decreases |data| - k
  {
    var d := data + [0];
    if k < |data| {
      if data[k] == 0 {
        if k + 1 < |data| {
          assert d[k + 1] == data[k + 1];
          TrailingZeroEmitsNothing(data, k + 2);
        } else {
          assert d[k + 1] == 0 && Blank(0) == [];
          assert Stream(d, k + 2) == [];
        }
      } else {
        TrailingZeroEmitsNothing(data, k + 1);
      }
    }
  }

  // ----------------------------------------------------------------
  // An encoder that the decoder inverts: every group of eight pixels
  // becomes its byte, or a run of one zero group.

  /** A pixel the decoder can produce: off or fully on. */
  predicate IsPixel(v: bv8) { v == 0 || v == ON }

  /** Eight flags as one byte, the first in bit 7. */
  function Pack8(c0: bool, c1: bool, c2: bool, c3: bool, c4: bool, c5: bool, c6: bool, c7: bool): bv8
  {
    (if c0 then 0x80 else 0) | (if c1 then 0x40 else 0) | (if c2 then 0x20 else 0) | (if c3 then 0x10 else 0) |
    (if c4 then 0x08 else 0) | (if c5 then 0x04 else 0) | (if c6 then 0x02 else 0) | (if c7 then 0x01 else 0)
  }

  function PackBits(g: seq<bv8>): bv8
    requires |g| == 8
  {
    Pack8(g[0] != 0, g[1] != 0, g[2] != 0, g[3] != 0, g[4] != 0, g[5] != 0, g[6] != 0, g[7] != 0)
  }

  function Encode(px: seq<bv8>): seq<bv8>
    requires |px| % 8 == 0
  {
    if px == [] then []
    else if px[..8] == Blank(8) then [0, 1] + Encode(px[8..])
    else [PackBits(px[..8])] + Encode(px[8..])
  }

  /** Each flag can be read back from its bit. */
  lemma PackedBits(c0: bool, c1: bool, c2: bool, c3: bool, c4: bool, c5: bool, c6: bool, c7: bool)
    ensures var b := Pack8(c0, c1, c2, c3, c4, c5, c6, c7);
      && (HasBit(b, 7) <==> c0) && (HasBit(b, 6) <==> c1) && (HasBit(b, 5) <==> c2) && (HasBit(b, 4) <==> c3)
      && (HasBit(b, 3) <==> c4) && (HasBit(b, 2) <==> c5) && (HasBit(b, 1) <==> c6) && (HasBit(b, 0) <==> c7)
  {
  }

  lemma PackUnpack(g: seq<bv8>)
    requires |g| == 8 && forall i :: 0 <= i < 8 ==> IsPixel(g[i])
    ensures BitPixels(PackBits(g)) == g
    ensures g != Blank(8) ==> PackBits(g) != 0
  {
    var b := PackBits(g);
    forall i | 0 <= i < 8 ensures BitPixels(b)[i] == g[i] {
      PackedBit(g, i);
    }
    assert BitPixels(b) == g;
    if g != Blank(8) {
      var i :| 0 <= i < 8 && g[i] != 0;
      PackedBit(g, i);
    }
  }

  lemma PackedBit(g: seq<bv8>, i: nat)
    requires |g| == 8 && i < 8
    ensures HasBit(PackBits(g), 7 - i) <==> g[i] != 0
  {
    PackedBits(g[0] != 0, g[1] != 0, g[2] != 0, g[3] != 0, g[4] != 0, g[5] != 0, g[6] != 0, g[7] != 0);
    if i == 0 {} else if i == 1 {} else if i == 2 {} else if i == 3 {}
    else if i == 4 {} else if i == 5 {} else if i == 6 {} else {}
  }

  lemma StreamShift(prefix: seq<bv8>, data: seq<bv8>)
    ensures Stream(prefix + data, |prefix|) == Stream(data, 0)
  {
    StreamShiftFrom(prefix, data, 0);
  }

  lemma {:induction false} StreamShiftFrom(prefix: seq<bv8>, data: seq<bv8>, k: nat)
    ensures Stream(prefix + data, |prefix| + k) == Stream(data, k)
    decreases |data| - k
  {
    var d := prefix + data;
    if k < |data| {
      assert d[|prefix| + k] == data[k];
      if data[k] == 0 {
        if k + 1 < |data| {
          assert d[|prefix| + k + 1] == data[k + 1];
          StreamShiftFrom(prefix, data, k + 2);
        }
      } else {
        StreamShiftFrom(prefix, data, k + 1);
      }
    }
  }

  /** Decoding what Encode produces gives back the pixels. */
  lemma {:induction false} DecodeEncode(px: seq<bv8>)
    requires |px| % 8 == 0 && forall i :: 0 <= i < |px| ==> IsPixel(px[i])
    ensures Stream(Encode(px), 0) == px
    decreases |px|
  {
    if px != [] {
      var g := px[..8];
      DecodeEncode(px[8..]);
      PackUnpack(g);
      var head: seq<bv8> := if g == Blank(8) then [0, 1] else [PackBits(g)];
      StreamShift(head, Encode(px[8..]));
      assert Encode(px) == head + Encode(px[8..]);
      if g == Blank(8) {
        assert Stream(Encode(px), 0) == Blank(8) + Stream(Encode(px), 2);
      } else {
        assert Stream(Encode(px), 0) == BitPixels(PackBits(g)) + Stream(Encode(px), 1);
      }
      assert px == g + px[8..];
    }
  }

  // ----------------------------------------------------------------
  // extract_glyph (tools/extract_five_pixel_font.py:71-97)

  /** Where glyph k's 6x6 cell starts: cell row k / 10, cell column k % 10. */
  function CellX(k: nat): nat { (k % GLYPHS_PER_ROW) * GLYPH_WIDTH }
  function CellY(k: nat): nat { (k / GLYPHS_PER_ROW) * GLYPH_HEIGHT }

  /** The row byte built from the first w pixels of texture row py from column sx, pixel x at bit 0x80 >> x. */
  function RowBits(t: seq<bv8>, sx: nat, py: nat, w: nat): bv8
    requires |t| == TEXTURE_SIZE && w <= GLYPH_WIDTH
  {
    if w == 0 then 0
    else
      var x := w - 1;
      var lit := sx + x < TEXTURE_WIDTH && py < TEXTURE_HEIGHT && At(t, sx + x, py) != 0;
      RowBits(t, sx, py, x) | (if lit then (0x80 as bv8) >> x else 0)
  }

  /** The glyph of a character code: None outside 32..127, else its six row bytes. */
  function Glyph(t: seq<bv8>, charCode: int): Option<seq<bv8>>
    requires |t| == TEXTURE_SIZE
  {
    var k := charCode - 32;
    if k < 0 || k >= GLYPH_COUNT then None
    else Some(seq(GLYPH_HEIGHT, y requires 0 <= y < GLYPH_HEIGHT => RowBits(t, CellX(k), CellY(k) + y, GLYPH_WIDTH)))
  }

  method ExtractGlyph(texture: array<bv8>, charCode: int) returns (bitmap: Option<seq<bv8>>)
    requires texture.Length == TEXTURE_SIZE
    ensures bitmap == Glyph(texture[..], charCode)
  {
    var glyphIndex := charCode - 32;
    if glyphIndex < 0 || glyphIndex >= GLYPH_COUNT {
      return None;
    }
    var startX := (glyphIndex % GLYPHS_PER_ROW) * GLYPH_WIDTH;
    var startY := (glyphIndex / GLYPHS_PER_ROW) * GLYPH_HEIGHT;
    var rows: seq<bv8> := [];
    for y := 0 to GLYPH_HEIGHT
      invariant |rows| == y
      invariant forall j :: 0 <= j < y ==> rows[j] == RowBits(texture[..], startX, startY + j, GLYPH_WIDTH)
    {
      var byteVal := GlyphRow(texture, startX, startY + y);
      rows := rows + [byteVal];
    }
    assert startX == CellX(glyphIndex) && startY == CellY(glyphIndex);
    ghost var g := Glyph(texture[..], charCode).value;
    assert forall j :: 0 <= j < GLYPH_HEIGHT ==> rows[j] == g[j];
    assert rows == g;
    return Some(rows);
  }

  /** One row of a glyph: pixel x of the cell sets bit 0x80 >> x, pixels outside the atlas stay clear. */
  method GlyphRow(texture: array<bv8>, startX: nat, py: nat) returns (byteVal: bv8)
    requires texture.Length == TEXTURE_SIZE
    ensures byteVal == RowBits(texture[..], startX, py, GLYPH_WIDTH)
  {
    byteVal := 0;
    for x := 0 to GLYPH_WIDTH
      invariant byteVal == RowBits(texture[..], startX, py, x)
    {
      var px := startX + x;
      if py < TEXTURE_HEIGHT && px < TEXTURE_WIDTH {
        if texture[py * TEXTURE_WIDTH + px] != 0 {
          byteVal := byteVal | ((0x80 as bv8) >> x);
        }
      }
    }
  }

  /** Every cell of the 96 glyphs lies inside the 64x64 atlas. */
  lemma CellInAtlas(k: nat)
    requires k < GLYPH_COUNT
    ensures CellX(k) + GLYPH_WIDTH <= TEXTURE_WIDTH && CellY(k) + GLYPH_HEIGHT <= TEXTURE_HEIGHT
  {
  }

  /** Setting pixel w of a row sets that bit alone, and never bits 1 and 0 while w < 6. */
  lemma SetPixel(r: bv8, w: nat, x: nat)
    requires w < GLYPH_WIDTH && x < 8
    ensures RowHas(r | ((0x80 as bv8) >> w), x) <==> RowHas(r, x) || x == w
    ensures r & 3 == 0 ==> (r | ((0x80 as bv8) >> w)) & 3 == 0
  {
  }

  /** Bit 0x80 >> x of a row byte is set exactly when pixel x of that row is lit; bits 1 and 0 stay clear. */
  lemma {:induction false} RowBitsMeaning(t: seq<bv8>, sx: nat, py: nat, w: nat)
    requires |t| == TEXTURE_SIZE && w <= GLYPH_WIDTH
    requires sx + GLYPH_WIDTH <= TEXTURE_WIDTH && py < TEXTURE_HEIGHT
    ensures forall x :: 0 <= x < GLYPH_WIDTH ==>
      (RowHas(RowBits(t, sx, py, w), x) <==> x < w && At(t, sx + x, py) != 0)
    ensures RowBits(t, sx, py, w) & 3 == 0
  {
    if w > 0 {
      RowBitsMeaning(t, sx, py, w - 1);
      var r := RowBits(t, sx, py, w - 1);
      forall x | 0 <= x < GLYPH_WIDTH
        ensures RowHas(RowBits(t, sx, py, w), x) <==> x < w && At(t, sx + x, py) != 0
      {
        SetPixel(r, w - 1, x);
      }
      SetPixel(r, w - 1, 0);
    }
  }

  /** Each glyph has six rows; pixel (x, y) of its cell is lit exactly when bit 0x80 >> x of row y is set. */
  lemma GlyphMeaning(t: seq<bv8>, charCode: int)
    requires |t| == TEXTURE_SIZE && 32 <= charCode < 128
    ensures var g := Glyph(t, charCode);
      var k := charCode - 32;
      && g.Some? && |g.value| == GLYPH_HEIGHT
      && (forall y, x :: 0 <= y < GLYPH_HEIGHT && 0 <= x < GLYPH_WIDTH ==>
            (RowHas(g.value[y], x) <==> At(t, CellX(k) + x, CellY(k) + y) != 0))
      && (forall y :: 0 <= y < GLYPH_HEIGHT ==> g.value[y] & 3 == 0)
  {
    var k := charCode - 32;
    CellInAtlas(k);
    forall y | 0 <= y < GLYPH_HEIGHT
      ensures forall x :: 0 <= x < GLYPH_WIDTH ==>
        (RowHas(Glyph(t, charCode).value[y], x) <==> At(t, CellX(k) + x, CellY(k) + y) != 0)
      ensures Glyph(t, charCode).value[y] & 3 == 0
    {
      RowBitsMeaning(t, CellX(k), CellY(k) + y, GLYPH_WIDTH);
    }
  }

  // ----------------------------------------------------------------
  // The glyph table of generate_c_code (tools/extract_five_pixel_font.py:103-127)

  /** The rows written for one character: the glyph, with a zero row above and below when padding to 8. */
  function TableEntry(t: seq<bv8>, charCode: int, padTo8: bool): seq<bv8>
    requires |t| == TEXTURE_SIZE
  {
    match Glyph(t, charCode)
    case Some(g) => if padTo8 then [0] + g + [0] else g
    case None => Blank(if padTo8 then 8 else 6)
  }

  /** The 96 entries for codes 32..127, each exactly as high as the declared array. */
  lemma TableShape(t: seq<bv8>, charCode: int, padTo8: bool)
    requires |t| == TEXTURE_SIZE && 32 <= charCode < 128
    ensures var e := TableEntry(t, charCode, padTo8);
      && |e| == (if padTo8 then 8 else 6)
      && (padTo8 ==> e[0] == 0 && e[7] == 0 && e[1..7] == Glyph(t, charCode).value)
      && (!padTo8 ==> e == Glyph(t, charCode).value)
  {
    var g := Glyph(t, charCode).value;
    if padTo8 {
      assert ([0] + g + [0])[1..7] == g;
    }
  }
}
