// tools/kwg2c.py: the KWG lexicon file written out as a C array of its
// 32-bit nodes, eight to a line.
module KwgToC {
  import opened AsmText
  import opened Numerals
  import opened Defs
  import Klv

  /** Whole nodes in the file; a trailing part of a node is not written. */
  function NodeCount(data: seq<Byte>): nat
  {
    |data| / 4
  }

  /** Node j: read little-endian from bytes 4j..4j+3. */
  function Node(data: seq<Byte>, j: nat): (v: nat)
    requires 4 * j + 4 <= |data|
    ensures v < Pow16(8)
  {
    Klv.ReadLe32(data, 4 * j)
  }

  /** The whole nodes of the file, in order. */
  function Nodes(data: seq<Byte>): (nodes: seq<nat>)
    ensures |nodes| == NodeCount(data)
  {
    seq(NodeCount(data), j requires 0 <= j < NodeCount(data) => Node(data, j))
  }

  /** Four spaces open every line of eight entries. */
  function Indent(j: nat): nat
  {
    if j % 8 == 0 then 4 else 0
  }

  /** The byte offset tests of the loop, in terms of the node number. */
  lemma LineBreaks(j: nat)
    ensures (4 * j) % 32 == 0 <==> j % 8 == 0
    ensures (4 * j + 4) % 32 == 0 <==> j % 8 == 7
  {
  }

  /** Entry j, holding value v: the indent, "0x%08X," of v, then a newline after every eighth entry and a space otherwise. */
  function Entry(v: nat, j: nat): (s: String)
    ensures |s| == Indent(j) + 12
  {
    (if j % 8 == 0 then "    " else "") + Value(v) + (if j % 8 == 7 then "\n" else " ")
  }

  /** "0x%08X," of v. */
  function Value(v: nat): (s: String)
    ensures |s| == 11
  {
    "0x" + FixedHex(v, 8) + ","
  }

  /** The entries of the first k nodes. */
  function Entries(nodes: seq<nat>, k: nat): String
    requires k <= |nodes|
  {
    if k == 0 then [] else Entries(nodes, k - 1) + Entry(nodes[k - 1], k - 1)
  }

  /** Where entry j starts: twelve characters per entry before it plus an indent per line begun. */
  function EntryStart(j: nat): nat
  {
    12 * j + 4 * ((j + 7) / 8)
  }

  function Header(name: String, data: seq<Byte>): String
  {
    "/* Auto-generated KWG lexicon data */\n" +
    "/* Source: " + name + " */\n" +
    "/* Nodes: " + Decimal(NodeCount(data)) + ", Size: " + Decimal(|data|) + " bytes */\n\n" +
    "#include <stdint.h>\n\n" +
    "const uint32_t kwg_data[] = {\n"
  }

  function Trailer(nodes: nat): String
  {
    "\n};\n\n" + "const unsigned int kwg_data_size = " + Decimal(nodes) + ";\n"
  }

  /** The C file for a lexicon whose base name is name. */
  function KwgSource(name: String, data: seq<Byte>): String
  {
    Header(name, data) + Body(data) + Trailer(NodeCount(data))
  }

  /** The array part of the file: every whole node's entry. */
  function Body(data: seq<Byte>): String
  {
    Entries(Nodes(data), NodeCount(data))
  }

  // convert_kwg (tools/kwg2c.py:13-49)
  method ConvertKwg(name: String, data: seq<Byte>) returns (out: String)
    ensures out == KwgSource(name, data)
  {
    var numNodes := |data| / 4;
    out := "/* Auto-generated KWG lexicon data */\n";
    out := out + "/* Source: " + name + " */\n";
    out := out + "/* Nodes: " + Decimal(numNodes) + ", Size: " + Decimal(|data|) + " bytes */\n\n";
    out := out + "#include <stdint.h>\n\n";
    out := out + "const uint32_t kwg_data[] = {\n";
    var body := WriteNodes(data);
    out := out + body;
    out := out + "\n};\n\n";
    out := out + "const unsigned int kwg_data_size = " + Decimal(numNodes) + ";\n";
  }

  /** The loop over the file four bytes at a time, stopping before a part node. */
  method WriteNodes(data: seq<Byte>) returns (out: String)
    ensures out == Body(data)
  {
    ghost var nodes := Nodes(data);
    out := [];
    var i := 0;
    ghost var j := 0;
    while i < |data|
      invariant i == 4 * j && i <= |data|
      invariant j <= |nodes| && out == Entries(nodes, j)
      decreases |data| - i
    {
      if i + 4 > |data| {
        break;
      }
      out := WriteNode(out, data, i, j);
      assert out == Entries(nodes, j + 1);
      i := i + 4;
      j := j + 1;
    }
    assert j == |nodes|;
  }

  /** One pass of the loop: node j's entry appended to what was written. */
  method WriteNode(written: String, data: seq<Byte>, i: nat, ghost j: nat) returns (out: String)
    requires i == 4 * j && i + 4 <= |data|
    ensures j < |Nodes(data)| && out == written + Entry(Nodes(data)[j], j)
  {
    var value := Klv.ReadLe32(data, i);
    LineBreaks(j);
    var piece := "";
    if i % 32 == 0 {
      piece := "    ";
    }
    piece := piece + Value(value);
    if (i + 4) % 32 == 0 {
      piece := piece + "\n";
    } else {
      piece := piece + " ";
    }
    assert piece == Entry(value, j);
    assert value == Nodes(data)[j];
    out := written + piece;
  }

  lemma StartStep(j: nat)
    ensures EntryStart(j + 1) == EntryStart(j) + Indent(j) + 12
  {
  }

  lemma {:induction false} EntriesLength(nodes: seq<nat>, k: nat)
    requires k <= |nodes|
    ensures |Entries(nodes, k)| == EntryStart(k)
  {
    if k > 0 {
      EntriesLength(nodes, k - 1);
      StartStep(k - 1);
    }
  }

  /** The entries of the first j nodes begin the entries of the first k. */
  lemma {:induction false} EntriesPrefix(nodes: seq<nat>, j: nat, k: nat)
    requires j <= k <= |nodes|
    ensures EntryStart(j) <= |Entries(nodes, k)| && Entries(nodes, k)[..EntryStart(j)] == Entries(nodes, j)
    decreases k
  {
    if j == k {
      EntriesLength(nodes, j);
    } else {
      EntriesPrefix(nodes, j, k - 1);
      var p := Entries(nodes, k - 1);
      assert Entries(nodes, k) == p + Entry(nodes[k - 1], k - 1);
      PrefixOfJoin(p, Entry(nodes[k - 1], k - 1), EntryStart(j));
    }
  }

  lemma PrefixOfJoin(a: String, b: String, n: nat)
    requires n <= |a|
    ensures n <= |a + b| && (a + b)[..n] == a[..n]
  {
  }

  /** Entry j sits between EntryStart(j) and EntryStart(j + 1) of all the entries. */
  lemma EntryAt(nodes: seq<nat>, es: String, j: nat)
    requires j < |nodes| && es == Entries(nodes, |nodes|)
    ensures var e := Entry(nodes[j], j);
      EntryStart(j) + |e| <= |es| && es[EntryStart(j)..EntryStart(j) + |e|] == e
  {
    EntriesPrefix(nodes, j + 1, |nodes|);
    EntriesLength(nodes, j);
    StartStep(j);
    var pre := Entries(nodes, j + 1);
    assert pre == Entries(nodes, j) + Entry(nodes[j], j);
    assert es[EntryStart(j)..EntryStart(j + 1)] == pre[EntryStart(j)..];
  }

  /** At offset o of text: "0x", eight hexadecimal digits reading v, and a comma. */
  predicate WrittenAt(text: String, o: nat, v: nat)
  {
    && o + 11 <= |text|
    && text[o..o + 2] == "0x" && text[o + 10] == ','
    && All(Hex, text[o + 2..o + 10]) && HexValue(text[o + 2..o + 10]) == v
  }

  /** The digits of an entry read back as its value. */
  lemma EntryDigits(v: nat, j: nat)
    requires v < Pow16(8)
    ensures WrittenAt(Entry(v, j), Indent(j), v)
  {
    var e := Entry(v, j);
    assert e[Indent(j)..Indent(j) + 11] == Value(v);
    assert e[Indent(j) + 2..Indent(j) + 10] == FixedHex(v, 8);
    FixedHexValue(v, 8);
  }

  /** An entry of value v placed at EntryStart(j) writes v after the entry's indent. */
  lemma EntryWritten(es: String, v: nat, j: nat)
    requires v < Pow16(8)
    requires EntryStart(j) + |Entry(v, j)| <= |es| && es[EntryStart(j)..EntryStart(j) + |Entry(v, j)|] == Entry(v, j)
    ensures WrittenAt(es, EntryStart(j) + Indent(j), v)
  {
    var e := Entry(v, j);
    EntryDigits(v, j);
    Within(es, e, EntryStart(j), Indent(j), EntryStart(j) + Indent(j), v);
  }

  /** A value written at offset k of a piece found at offset s is written at offset s + k of the whole. */
  lemma Within(whole: String, piece: String, s: nat, k: nat, o: nat, v: nat)
    requires s + |piece| <= |whole| && whole[s..s + |piece|] == piece
    requires WrittenAt(piece, k, v) && o == s + k
    ensures WrittenAt(whole, o, v)
  {
    assert forall i :: 0 <= i < |piece| ==> whole[s + i] == piece[i];
    assert whole[s + k + 2..s + k + 10] == piece[k + 2..k + 10];
    assert whole[s + k..s + k + 2] == piece[k..k + 2];
  }

  /**
   * Node j is written in the array as "0x", eight hexadecimal digits that
   * read back as the node, and a comma; the four bytes the digits stand
   * for, stored little-endian, are the node's bytes of the file.
   */
  lemma NodeReadsBack(data: seq<Byte>, j: nat)
    requires j < NodeCount(data)
    ensures WrittenAt(Body(data), EntryStart(j) + Indent(j), Node(data, j))
    ensures Klv.Le32(Node(data, j)) == data[4 * j..4 * j + 4]
  {
    var nodes := Nodes(data);
    EntryAt(nodes, Body(data), j);
    assert nodes[j] == Node(data, j);
    EntryWritten(Body(data), Node(data, j), j);
    Klv.ReadLe32Bytes(data, 4 * j);
  }

  /** The array ends with kwg_data_size set to the number of nodes, in decimal. */
  lemma SizeReadsBack(name: String, data: seq<Byte>)
    ensures var out := KwgSource(name, data);
      var d := Decimal(NodeCount(data));
      && out[|out| - 2 - |d|..|out| - 2] == d
      && All(Digit, d) && DecValue(d) == |data| / 4
  {
    var out := KwgSource(name, data);
    var d := Decimal(NodeCount(data));
    var pre := Header(name, data) + Body(data) + "\n};\n\n" + "const unsigned int kwg_data_size = ";
    assert out == pre + d + ";\n";
    MiddleSlice(pre, d, ";\n");
    DecimalValue(NodeCount(data));
  }

  lemma MiddleSlice(pre: String, d: String, post: String)
    ensures (pre + d + post)[|pre|..|pre| + |d|] == d
  {
  }

  /** Bytes past the last whole node change no node, so none of the array. */
  lemma TrailingBytesIgnored(data: seq<Byte>, extra: seq<Byte>)
    requires |data| % 4 == 0 && |extra| < 4
    ensures Nodes(data + extra) == Nodes(data)
  {
    var d := data + extra;
    forall j | 0 <= j < NodeCount(data) ensures Node(d, j) == Node(data, j) {
      assert d[4 * j] == data[4 * j] && d[4 * j + 1] == data[4 * j + 1];
      assert d[4 * j + 2] == data[4 * j + 2] && d[4 * j + 3] == data[4 * j + 3];
    }
  }
}
