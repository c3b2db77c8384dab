// tools/klv2c.py: the KLV16 leave file written out as a C byte array,
// sixteen bytes to a line.
module KlvToC {
  import opened AsmText
  import opened Numerals
  import opened Defs

  /** "0x%02X" of one byte. */
  function ByteText(b: Byte): (s: String)
    ensures |s| == 4
  {
    "0x" + FixedHex(b, 2)
  }

  /** ", ".join of the bytes' texts. */
  function Join(chunk: seq<Byte>): (s: String)
    ensures chunk != [] ==> |s| == 6 * |chunk| - 2
  {
    if chunk == [] then []
    else
      var n := |chunk|;
      Join(chunk[..n - 1]) + (if n > 1 then ", " else "") + ByteText(chunk[n - 1])
  }

  /** Lines of sixteen bytes, the last one possibly shorter. */
  function LineCount(data: seq<Byte>): nat
  {
    (|data| + 15) / 16
  }

  /** The bytes of line i: data[16i:16i+16], cut short at the end of the data. */
  function Chunk(data: seq<Byte>, i: nat): seq<Byte>
    requires 16 * i < |data|
  {
    data[16 * i..if 16 * i + 16 <= |data| then 16 * i + 16 else |data|]
  }

  /** Line i: four spaces, the joined bytes, a comma unless the line is the last, a newline. */
  function Line(data: seq<Byte>, i: nat): String
    requires 16 * i < |data|
  {
    "    " + Join(Chunk(data, i)) + (if 16 * i + 16 < |data| then "," else "") + "\n"
  }

  /** The first m lines. */
  function Lines(data: seq<Byte>, m: nat): String
    requires m <= LineCount(data)
  {
    if m == 0 then [] else Lines(data, m - 1) + Line(data, m - 1)
  }

  /** The array part of the file: all the lines. */
  function Body(data: seq<Byte>): String
  {
    Lines(data, LineCount(data))
  }

  function Header(name: String, data: seq<Byte>): String
  {
    "/* Auto-generated KLV16 leave values data */\n" +
    "/* Source: " + name + " */\n" +
    "/* Size: " + Decimal(|data|) + " bytes */\n\n" +
    "#include <stdint.h>\n\n" +
    "const uint8_t klv_data[] = {\n"
  }

  function Trailer(size: nat): String
  {
    "};\n\n" + "const unsigned int klv_data_size = " + Decimal(size) + ";\n"
  }

  /** The C file for a leave file whose base name is name. */
  function KlvSource(name: String, data: seq<Byte>): String
  {
    Header(name, data) + Body(data) + Trailer(|data|)
  }

  // convert_klv16 (tools/klv2c.py:17-43)
  method ConvertKlv16(name: String, data: seq<Byte>) returns (out: String)
    ensures out == KlvSource(name, data)
  {
    out := "/* Auto-generated KLV16 leave values data */\n";
    out := out + "/* Source: " + name + " */\n";
    out := out + "/* Size: " + Decimal(|data|) + " bytes */\n\n";
    out := out + "#include <stdint.h>\n\n";
    out := out + "const uint8_t klv_data[] = {\n";
    var body := WriteLines(data);
    out := out + body;
    out := out + "};\n\n";
    out := out + "const unsigned int klv_data_size = " + Decimal(|data|) + ";\n";
  }

  /** The loop over the data sixteen bytes at a time. */
  method WriteLines(data: seq<Byte>) returns (out: String)
    ensures out == Body(data)
  {
    out := [];
    var i := 0;
    ghost var m := 0;
    while i < |data|
      invariant i == 16 * m && m <= LineCount(data)
      invariant out == Lines(data, m)
      decreases |data| - i
    {
      LineCountBound(|data|, m);
      out := WriteLine(out, data, i, m);
      assert out == Lines(data, m + 1);
      i := i + 16;
      m := m + 1;
    }
    LineCountBound(|data|, m);
    assert m == LineCount(data);
  }

  /** Line m exists exactly when it starts before the end of the data. */
  lemma LineCountBound(n: nat, m: nat)
    ensures 16 * m < n <==> m < (n + 15) / 16
  {
  }

  /** One pass of the loop: the line starting at byte i appended to what was written. */
  method WriteLine(written: String, data: seq<Byte>, i: nat, ghost m: nat) returns (out: String)
    requires i == 16 * m && i < |data|
    ensures out == written + Line(data, m)
  {
    out := written + "    ";
    var chunk := data[i..if i + 16 <= |data| then i + 16 else |data|];
    assert chunk == Chunk(data, m);
    var hexBytes := Join(chunk);
    out := out + hexBytes;
    if i + 16 < |data| {
      out := out + ",";
    }
    out := out + "\n";
  }

  /** Byte t of a chunk is written six characters after byte t - 1. */
  lemma {:induction false} JoinAt(chunk: seq<Byte>, t: nat)
    requires t < |chunk|
    ensures 6 * t + 4 <= |Join(chunk)| && Join(chunk)[6 * t..6 * t + 4] == ByteText(chunk[t])
    decreases |chunk|
  {
    var n := |chunk|;
    var init := chunk[..n - 1];
    var sep: String := if n > 1 then ", " else "";
    assert Join(chunk) == Join(init) + sep + ByteText(chunk[n - 1]);
    if t < n - 1 {
      JoinAt(init, t);
      assert Join(chunk)[6 * t..6 * t + 4] == Join(init)[6 * t..6 * t + 4];
    } else {
      assert |Join(init) + sep| == 6 * t;
    }
  }

  /** Every line before the last holds sixteen bytes and a comma: 100 characters. */
  lemma FullLine(data: seq<Byte>, i: nat)
    requires 16 * i + 16 < |data|
    ensures |Line(data, i)| == 100
  {
  }

  lemma {:induction false} LinesLength(data: seq<Byte>, m: nat)
    requires 16 * m < |data|
    ensures m <= LineCount(data) && |Lines(data, m)| == 100 * m
  {
    if m > 0 {
      LinesLength(data, m - 1);
      FullLine(data, m - 1);
    }
  }

  /** The first m lines begin the first k. */
  lemma {:induction false} LinesPrefix(data: seq<Byte>, m: nat, k: nat)
    requires m <= k <= LineCount(data)
    ensures |Lines(data, m)| <= |Lines(data, k)| && Lines(data, k)[..|Lines(data, m)|] == Lines(data, m)
    decreases k
  {
    if m < k {
      LinesPrefix(data, m, k - 1);
    }
  }

  /** A slice of a piece found at offset s is the slice of the whole at that offset. */
  lemma Within(whole: String, piece: String, s: nat, k: nat, n: nat)
    requires s + |piece| <= |whole| && whole[s..s + |piece|] == piece && k + n <= |piece|
    ensures whole[s + k..s + k + n] == piece[k..k + n]
  {
    assert forall i :: 0 <= i < |piece| ==> whole[s + i] == piece[i];
  }

  /** Where byte k's "0x" starts: line k / 16, past the indent and six characters per byte before it. */
  function ByteStart(k: nat): nat
  {
    100 * (k / 16) + 4 + 6 * (k % 16)
  }

  /** Byte k is written in its line four characters in, six per byte before it. */
  lemma ByteInLine(data: seq<Byte>, k: nat)
    requires k < |data|
    ensures var l := Line(data, k / 16);
      4 + 6 * (k % 16) + 4 <= |l| && l[4 + 6 * (k % 16)..4 + 6 * (k % 16) + 4] == ByteText(data[k])
  {
    var t := k % 16;
    var chunk := Chunk(data, k / 16);
    assert chunk[t] == data[k];
    JoinAt(chunk, t);
    var l := Line(data, k / 16);
    Within(l, Join(chunk), 4, 6 * t, 4);
  }

  /** Line i starts 100 characters per line before it into the body. */
  lemma LineInBody(data: seq<Byte>, i: nat)
    requires 16 * i < |data|
    ensures var l := Line(data, i);
      100 * i + |l| <= |Body(data)| && Body(data)[100 * i..100 * i + |l|] == l
  {
    LinesLength(data, i);
    LinesPrefix(data, i + 1, LineCount(data));
    var prefix := Lines(data, i + 1);
    var l := Line(data, i);
    assert prefix == Lines(data, i) + l;
    Within(Body(data), prefix, 0, 100 * i, |l|);
  }

  /** Byte k is written at ByteStart(k) as "0x" and two hexadecimal digits that read back as the byte. */
  lemma ByteReadsBack(data: seq<Byte>, k: nat)
    requires k < |data|
    ensures var body := Body(data);
      var o := ByteStart(k);
      && o + 4 <= |body|
      && body[o..o + 2] == "0x"
      && All(Hex, body[o + 2..o + 4]) && HexValue(body[o + 2..o + 4]) == data[k]
  {
    var l := Line(data, k / 16);
    var bt := ByteText(data[k]);
    ByteInLine(data, k);
    LineInBody(data, k / 16);
    Within(Body(data), l, 100 * (k / 16), 4 + 6 * (k % 16), 4);
    Within(Body(data), bt, ByteStart(k), 0, 2);
    Within(Body(data), bt, ByteStart(k), 2, 2);
    FixedHexValue(data[k], 2);
  }

  /** Every line but the last ends in ",\n"; the last ends in "\n" after its final byte. */
  lemma LineEndings(data: seq<Byte>, i: nat)
    requires 16 * i < |data|
    ensures var l := Line(data, i);
      16 * i + 16 < |data| <==> l[|l| - 2..] == ",\n"
  {
    var l := Line(data, i);
    var c := Chunk(data, i);
    JoinAt(c, |c| - 1);
    var j := Join(c);
    var bt := ByteText(c[|c| - 1]);
    Within(j, bt, 6 * (|c| - 1), 3, 1);
    FixedHexValue(c[|c| - 1], 2);
    assert bt[3] == FixedHex(c[|c| - 1], 2)[1];
    assert In(Hex, bt[3]);
    if 16 * i + 16 >= |data| {
      assert l == "    " + j + "\n";
      assert l[|l| - 2] == j[|j| - 1] == bt[3];
    }
  }

  /** The array ends with klv_data_size set to the file size, in decimal. */
  lemma SizeReadsBack(name: String, data: seq<Byte>)
    ensures var out := KlvSource(name, data);
      var d := Decimal(|data|);
      && out[|out| - 2 - |d|..|out| - 2] == d
      && All(Digit, d) && DecValue(d) == |data|
  {
    var out := KlvSource(name, data);
    var t := Trailer(|data|);
    assert out[|out| - |t|..] == t;
    DecimalValue(|data|);
  }
}
