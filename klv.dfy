// The KLV leave table of src/klv.c and inc/klv.h: a DAWG over sorted
// leaves whose word index selects a little-endian int16 leave value, in
// eighths of a point. The image is
//   kwg_size (LE uint32) | kwg_size nodes (LE uint32) | num_leaves (LE uint32) | leave values (LE int16).
module Klv {
  import opened Defs
  import opened Equity
  import opened BoardTables
  import opened KwgNode
  import opened Game

  /** KLV_UNFOUND_INDEX. */
  const UNFOUND_INDEX: int := 0xFFFF_FFFF
  /** The length of the static klv_kwg_buf. */
  const KWG_BUF_SIZE: int := 2500

  // ---------------------------------------------------------------------
  // Little-endian fields

  /** read_le32: four bytes, least significant first. */
  function ReadLe32(p: seq<Byte>, at: nat): (r: nat)
    requires at + 4 <= |p|
    ensures r < 0x1_0000_0000
  {
    p[at] as int + 0x100 * (p[at + 1] as int + 0x100 * (p[at + 2] as int + 0x100 * p[at + 3] as int))
  }

  /** The four bytes a uint32 is stored as, least significant first. */
  function Le32(x: nat): (b: seq<Byte>)
    requires x < 0x1_0000_0000
    ensures |b| == 4
  {
    [x % 0x100, x / 0x100 % 0x100, x / 0x100 / 0x100 % 0x100, x / 0x100 / 0x100 / 0x100]
  }

  /** A byte and a multiple of 256 split apart again by division. */
  lemma SplitByte(lo: nat, hi: nat)
    requires lo < 0x100
    ensures (lo + 0x100 * hi) % 0x100 == lo && (lo + 0x100 * hi) / 0x100 == hi
  {
  }

  /** A number splits into its low byte and the rest. */
  lemma JoinByte(x: nat)
    ensures x == x % 0x100 + 0x100 * (x / 0x100)
  {
  }

  /** Reading back a stored uint32 gives the value. */
  lemma Le32RoundTrip(x: nat)
    requires x < 0x1_0000_0000
    ensures ReadLe32(Le32(x), 0) == x
  {
    JoinByte(x);
    JoinByte(x / 0x100);
    JoinByte(x / 0x100 / 0x100);
  }

  /** Storing a value read from four bytes gives the same four bytes. */
  lemma ReadLe32Bytes(p: seq<Byte>, at: nat)
    requires at + 4 <= |p|
    ensures Le32(ReadLe32(p, at)) == p[at..at + 4]
  {
    var x := ReadLe32(p, at);
    var h1 := p[at + 1] as int + 0x100 * (p[at + 2] as int + 0x100 * p[at + 3] as int);
    var h2 := p[at + 2] as int + 0x100 * p[at + 3] as int;
    SplitByte(p[at], h1);
    SplitByte(p[at + 1], h2);
    SplitByte(p[at + 2], p[at + 3]);
  }

  /** read_le16 and the read in klv_get_indexed_leave: two bytes, least
    * significant first, cast to int16_t. */
  function ReadLe16(p: seq<Byte>, at: nat): (r: int)
    requires at + 2 <= |p|
    ensures IsInt16(r)
  {
    ToInt16(p[at] as int + 0x100 * p[at + 1] as int)
  }

  /** The two bytes an int16 is stored as, least significant first. */
  function Le16(v: int): (b: seq<Byte>)
    requires IsInt16(v)
    ensures |b| == 2
  {
    var u := if v < 0 then v + 0x1_0000 else v;
    [u % 0x100, u / 0x100]
  }

  /** Reading back a stored int16 gives the value. */
  lemma Le16RoundTrip(v: int)
    requires IsInt16(v)
    ensures ReadLe16(Le16(v), 0) == v
  {
  }

  /** Storing a value read from two bytes gives the same two bytes. */
  lemma ReadLe16Bytes(p: seq<Byte>, at: nat)
    requires at + 2 <= |p|
    ensures Le16(ReadLe16(p, at)) == p[at..at + 2]
  {
  }

  /** klv_get_indexed_leave: 0 for the unfound index, otherwise the int16
    * stored at byte offset 2 * index of the leave table. */
  function IndexedLeave(leaves: seq<Byte>, index: int): (v: int)
    requires LeaveInRange(leaves, index)
    ensures IsInt16(v)
    ensures index == UNFOUND_INDEX ==> v == 0
    ensures index != UNFOUND_INDEX ==> v == ReadLe16(leaves, 2 * index)
  {
    if index == UNFOUND_INDEX then 0 else ReadLe16(leaves, 2 * index)
  }

  /** The index is the sentinel or names a value inside the table: the read
    * has no bounds check, so a caller must never produce any other index. */
  predicate LeaveInRange(leaves: seq<Byte>, index: int)
  {
    index == UNFOUND_INDEX || (0 <= index && 2 * index + 2 <= |leaves|)
  }

  /** A value stored at slot i of a table is what the lookup of i returns. */
  lemma IndexedLeaveStored(leaves: seq<Byte>, i: nat, v: int)
    requires IsInt16(v) && i != UNFOUND_INDEX && 2 * i + 2 <= |leaves|
    requires leaves[2 * i..2 * i + 2] == Le16(v)
    ensures IndexedLeave(leaves, i) == v
  {
    Le16RoundTrip(v);
    assert leaves[2 * i] == Le16(v)[0] && leaves[2 * i + 1] == Le16(v)[1];
  }

  // ---------------------------------------------------------------------
  // The image layout read by klv_init

  /** The nodes' bytes, one stored uint32 after another. */
  function NodeBytes(nodes: seq<Node>): (b: seq<Byte>)
    ensures |b| == 4 * |nodes|
  {
    if nodes == [] then [] else Le32(nodes[0]) + NodeBytes(nodes[1..])
  }

  /** A KLV16 image holding these nodes, this leave count and these leave bytes. */
  function Image(nodes: seq<Node>, numLeaves: nat, leaveBytes: seq<Byte>): (b: seq<Byte>)
    requires |nodes| < 0x1_0000_0000 && numLeaves < 0x1_0000_0000
  {
    Le32(|nodes|) + NodeBytes(nodes) + Le32(numLeaves) + leaveBytes
  }

  /** Node i sits at byte offset 4 * i of the node bytes. */
  lemma {:induction false} NodeBytesAt(nodes: seq<Node>, i: nat)
    requires i < |nodes|
    ensures NodeBytes(nodes)[4 * i..4 * i + 4] == Le32(nodes[i])
  {
    var head := Le32(nodes[0]);
    var rest := NodeBytes(nodes[1..]);
    assert NodeBytes(nodes) == head + rest;
    if i == 0 {
      Within(head, rest, 0, 4);
    } else {
      NodeBytesAt(nodes[1..], i - 1);
      Beyond(head, rest, 4 * (i - 1), 4 * (i - 1) + 4);
    }
  }

  /** The header fields read back from an image are the ones it was built from. */
  lemma ImageFields(nodes: seq<Node>, numLeaves: nat, leaveBytes: seq<Byte>)
    requires |nodes| < 0x1_0000_0000 && numLeaves < 0x1_0000_0000
    ensures var b := Image(nodes, numLeaves, leaveBytes);
      && |b| == 8 + 4 * |nodes| + |leaveBytes|
      && ReadLe32(b, 0) == |nodes|
      && (forall i :: 0 <= i < |nodes| ==> ReadLe32(b, 4 + 4 * i) == nodes[i])
      && ReadLe32(b, 4 + 4 * |nodes|) == numLeaves
      && b[8 + 4 * |nodes|..] == leaveBytes
  {
    var n := |nodes|;
    var head, body, tail := Le32(n), NodeBytes(nodes), Le32(numLeaves) + leaveBytes;
    var b := Image(nodes, numLeaves, leaveBytes);
    assert b == head + (body + tail);
    assert b[0..4] == head by {
      Within(head, body + tail, 0, 4);
    }
    ReadBack(b, 0, n);
    forall i | 0 <= i < n
      ensures ReadLe32(b, 4 + 4 * i) == nodes[i]
    {
      ImageNode(nodes, numLeaves, leaveBytes, i);
    }
    Beyond(head, body + tail, 4 * n, 4 * n + 4);
    Beyond(body, tail, 0, 4);
    Within(Le32(numLeaves), leaveBytes, 0, 4);
    ReadBack(b, 4 + 4 * n, numLeaves);
    assert b[8 + 4 * n..] == leaveBytes;
  }

  /** Node i of an image reads back from byte offset 4 + 4 * i. */
  lemma ImageNode(nodes: seq<Node>, numLeaves: nat, leaveBytes: seq<Byte>, i: nat)
    requires |nodes| < 0x1_0000_0000 && numLeaves < 0x1_0000_0000 && i < |nodes|
    ensures 8 + 4 * i <= |Image(nodes, numLeaves, leaveBytes)|
    ensures ReadLe32(Image(nodes, numLeaves, leaveBytes), 4 + 4 * i) == nodes[i]
  {
    var head, body, tail := Le32(|nodes|), NodeBytes(nodes), Le32(numLeaves) + leaveBytes;
    var b := Image(nodes, numLeaves, leaveBytes);
    assert b == head + (body + tail);
    NodeBytesAt(nodes, i);
    Beyond(head, body + tail, 4 * i, 4 * i + 4);
    Within(body, tail, 4 * i, 4 * i + 4);
    ReadBack(b, 4 + 4 * i, nodes[i]);
  }

  /** A slice inside the first part of a concatenation. */
  lemma Within(x: seq<Byte>, y: seq<Byte>, lo: nat, hi: nat)
    requires lo <= hi <= |x|
    ensures (x + y)[lo..hi] == x[lo..hi]
  {
  }

  /** A slice inside the second part of a concatenation. */
  lemma Beyond(x: seq<Byte>, y: seq<Byte>, lo: nat, hi: nat)
    requires lo <= hi <= |y|
    ensures (x + y)[|x| + lo..|x| + hi] == y[lo..hi]
  {
  }

  /** Four stored bytes anywhere in a sequence read back as their value. */
  lemma ReadBack(b: seq<Byte>, at: nat, x: nat)
    requires x < 0x1_0000_0000 && at + 4 <= |b| && b[at..at + 4] == Le32(x)
    ensures ReadLe32(b, at) == x
  {
    Le32RoundTrip(x);
    assert b[at] == Le32(x)[0] && b[at + 1] == Le32(x)[1];
    assert b[at + 2] == Le32(x)[2] && b[at + 3] == Le32(x)[3];
  }

  // ---------------------------------------------------------------------
  // Word counts

  /** What one pass of compute_word_counts stores for node i: 1 if it
    * accepts, plus its child run's count when the arc is non-zero and in
    * range, plus the next sibling's count unless i ends its run. Counts of
    * higher nodes come from this pass (newer), the others from before it. */
  function CountAt(kwg: seq<Node>, i: nat, newer: seq<nat>, older: seq<nat>): nat
    requires i < |kwg| && |newer| == |kwg| && |older| == |kwg|
  {
    var child := ArcIndex(kwg[i]);
    (if Accepts(kwg[i]) then 1 else 0)
    + (if child != 0 && child < |kwg| then (if child > i then newer[child] else older[child]) else 0)
    + (if !IsEnd(kwg[i]) && i + 1 < |kwg| then newer[i + 1] else 0)
  }

  /** The counts solve the word-count equation at every node. */
  predicate Fixpoint(kwg: seq<Node>, wc: seq<nat>)
    requires |wc| == |kwg|
  {
    forall i {:trigger CountAt(kwg, i, wc, wc)} :: 0 <= i < |kwg| ==> wc[i] == CountAt(kwg, i, wc, wc)
  }

  /** A pass has reached node i: the nodes from i on hold their CountAt
    * values and the nodes below i still hold their counts from before. */
  predicate PassDone(kwg: seq<Node>, wc: seq<nat>, before: seq<nat>, i: nat)
    requires |wc| == |kwg| && |before| == |kwg| && i <= |kwg|
  {
    && (forall j :: 0 <= j < i ==> wc[j] == before[j])
    && (forall j {:trigger CountAt(kwg, j, wc, before)} :: i <= j < |kwg| ==> wc[j] == CountAt(kwg, j, wc, before))
  }

  /** Storing node i-1's CountAt value extends a pass by one node: the
    * values above it read only counts above them. */
  lemma PassStep(kwg: seq<Node>, wc: seq<nat>, before: seq<nat>, i: nat)
    requires |wc| == |kwg| && |before| == |kwg| && i < |kwg|
    requires PassDone(kwg, wc, before, i + 1)
    ensures CountAt(kwg, i, wc, wc) == CountAt(kwg, i, wc, before)
    ensures PassDone(kwg, wc[i := CountAt(kwg, i, wc, before)], before, i)
  {
    var wc' := wc[i := CountAt(kwg, i, wc, before)];
    forall j | i < j < |kwg|
      ensures wc'[j] == CountAt(kwg, j, wc', before)
    {
      assert CountAt(kwg, j, wc', before) == CountAt(kwg, j, wc, before);
    }
  }

  /** At a fixpoint a node's count covers the counts of the siblings after
    * it in its run, so walking along a run never lowers a word index. */
  lemma {:induction false} FixpointRunDecreasing(kwg: seq<Node>, wc: seq<nat>, i: nat, k: nat)
    requires |wc| == |kwg| && Fixpoint(kwg, wc) && ScansEnd(kwg)
    requires i <= k < |kwg| && forall j :: i <= j < k ==> !IsEnd(kwg[j])
    ensures wc[k] <= wc[i]
    decreases k - i
  {
    if i < k {
      FixpointRunDecreasing(kwg, wc, i + 1, k);
      assert wc[i] == CountAt(kwg, i, wc, wc);
    }
  }

  // ---------------------------------------------------------------------
  // Word indices

  /** The word index the DAWG walk gives for the letters from node n on,
    * starting at index idx: each letter is looked up in the current sibling
    * run, the index advances past the counts of the siblings before it, and
    * between letters the walk follows the arc and adds one. A node of 0 or a
    * missing letter gives KLV_UNFOUND_INDEX. The last node's accept flag is
    * not consulted. */
  function IndexFrom(kwg: seq<Node>, wc: seq<nat>, n: nat, idx: int, letters: seq<MachineLetter>): int
    requires ScansEnd(kwg) && ArcsFit(kwg) && |wc| == |kwg| && n < |kwg| && |letters| > 0
    decreases |letters|
  {
    if n == 0 then UNFOUND_INDEX
    else match Find(kwg, n, letters[0])
      case None => UNFOUND_INDEX
      case Some(k) =>
        var next := idx + wc[n] - wc[k];
        if |letters| == 1 then next
        else IndexFrom(kwg, wc, ArcIndex(kwg[k]), next + 1, letters[1..])
  }

  /** One step of the walk: what increment_to_letter returns for the first
    * letter decides the rest. */
  lemma IndexStep(kwg: seq<Node>, wc: seq<nat>, n: nat, idx: int, letters: seq<MachineLetter>, found: nat, next: int)
    requires ScansEnd(kwg) && ArcsFit(kwg) && |wc| == |kwg| && 0 < n < |kwg| && |letters| > 0
    requires Find(kwg, n, letters[0]).None? ==> found == 0
    requires Find(kwg, n, letters[0]).Some? ==>
      found == Find(kwg, n, letters[0]).value && next == idx + wc[n] - wc[found]
    ensures found == 0 ==> IndexFrom(kwg, wc, n, idx, letters) == UNFOUND_INDEX
    ensures found != 0 && |letters| == 1 ==> IndexFrom(kwg, wc, n, idx, letters) == next
    ensures found != 0 && |letters| > 1 ==> (found < |kwg| &&
      IndexFrom(kwg, wc, n, idx, letters) == IndexFrom(kwg, wc, ArcIndex(kwg[found]), next + 1, letters[1..]))
  {
  }

  /** klv_get_word_index: KLV_UNFOUND_INDEX for an empty rack, otherwise the
    * walk from the DAWG root over the rack's letters in ascending order. */
  function WordIndexOf(kwg: seq<Node>, wc: seq<nat>, counts: seq<nat>): int
    requires WellFormed(kwg) && |wc| == |kwg| && |counts| == ALPHABET_SIZE
  {
    if SumTo(counts, ALPHABET_SIZE) == 0 then UNFOUND_INDEX
    else IndexFrom(kwg, wc, DawgRoot(kwg), 0, Expand(counts, ALPHABET_SIZE))
  }

  /** klv_get_leave_value: 0 for an empty rack, otherwise the value at the
    * rack's word index (0 when that is unfound). */
  function LeaveValueOf(kwg: seq<Node>, wc: seq<nat>, leaves: seq<Byte>, counts: seq<nat>): int
    requires WellFormed(kwg) && |wc| == |kwg| && |counts| == ALPHABET_SIZE
    requires LeaveInRange(leaves, WordIndexOf(kwg, wc, counts))
  {
    if SumTo(counts, ALPHABET_SIZE) == 0 then 0
    else IndexedLeave(leaves, WordIndexOf(kwg, wc, counts))
  }

  /** The empty rack has no index and no value, and an unfound rack is worth 0. */
  lemma LeaveValueZero(kwg: seq<Node>, wc: seq<nat>, leaves: seq<Byte>, counts: seq<nat>)
    requires WellFormed(kwg) && |wc| == |kwg| && |counts| == ALPHABET_SIZE
    requires LeaveInRange(leaves, WordIndexOf(kwg, wc, counts))
    ensures RackTiles(counts) == multiset{} ==> WordIndexOf(kwg, wc, counts) == UNFOUND_INDEX
    ensures RackTiles(counts) == multiset{} || WordIndexOf(kwg, wc, counts) == UNFOUND_INDEX
      ==> LeaveValueOf(kwg, wc, leaves, counts) == 0
  {
    RackTilesMeaning(counts, 0);
  }

  /** The index and the value depend only on which tiles the rack holds. */
  lemma LeaveValueByTiles(kwg: seq<Node>, wc: seq<nat>, leaves: seq<Byte>, a: seq<nat>, b: seq<nat>)
    requires WellFormed(kwg) && |wc| == |kwg| && |a| == |b| == ALPHABET_SIZE
    requires RackTiles(a) == RackTiles(b)
    ensures WordIndexOf(kwg, wc, a) == WordIndexOf(kwg, wc, b)
    ensures LeaveInRange(leaves, WordIndexOf(kwg, wc, a)) ==>
      LeaveValueOf(kwg, wc, leaves, a) == LeaveValueOf(kwg, wc, leaves, b)
  {
    SameCounts(a, b);
  }

  /** c takes no letter more often than orig: a leave of that rack. */
  predicate Below(c: seq<nat>, orig: seq<nat>)
  {
    |c| == |orig| == ALPHABET_SIZE && forall l :: 0 <= l < ALPHABET_SIZE ==> c[l] <= orig[l]
  }

  /** Every leave of the rack orig has its value inside the table. */
  ghost predicate Covers(kwg: seq<Node>, wc: seq<nat>, leaves: seq<Byte>, orig: seq<nat>)
    requires WellFormed(kwg) && |wc| == |kwg|
  {
    forall c {:trigger Below(c, orig)} :: Below(c, orig) ==> LeaveInRange(leaves, WordIndexOf(kwg, wc, c))
  }

  /** A leave has no more tiles than the rack. */
  lemma {:induction false} SumToBelow(c: seq<nat>, orig: seq<nat>, n: nat)
    requires Below(c, orig) && n <= ALPHABET_SIZE
    ensures SumTo(c, n) <= SumTo(orig, n)
  {
    if n > 0 {
      SumToBelow(c, orig, n - 1);
    }
  }

  /** At a fixpoint of the counts a found word index is never negative. */
  lemma {:induction false} IndexFromNonNegative(kwg: seq<Node>, wc: seq<nat>, n: nat, idx: int, letters: seq<MachineLetter>)
    requires ScansEnd(kwg) && ArcsFit(kwg) && |wc| == |kwg| && n < |kwg| && |letters| > 0
    requires Fixpoint(kwg, wc) && idx >= 0
    ensures IndexFrom(kwg, wc, n, idx, letters) >= 0
    decreases |letters|
  {
    if n != 0 {
      match Find(kwg, n, letters[0])
      case None =>
      case Some(k) =>
        RunEndIsFirst(kwg, n);
        FixpointRunDecreasing(kwg, wc, n, k);
        if |letters| > 1 {
          IndexFromNonNegative(kwg, wc, ArcIndex(kwg[k]), idx + wc[n] - wc[k] + 1, letters[1..]);
        }
    }
  }

  // ---------------------------------------------------------------------
  // The loaded table

  /** struct KLV: the converted nodes (klv->kwg, in the static buffer), the
    * leave table left in the image, and the word counts buffer. */
  class Klv {
    var kwgSize: nat
    var numLeaves: nat
    var kwg: array<Node>
    var leaves: seq<Byte>
    var wordCounts: array<nat>

    ghost predicate Valid()
      reads this
    {
      kwgSize <= kwg.Length && kwgSize <= wordCounts.Length
    }

    /** The nodes klv->kwg points at. */
    ghost function Nodes(): seq<Node>
      requires Valid()
      reads this, kwg
    {
      kwg[..kwgSize]
    }

    /** The first kwg_size word counts. */
    ghost function Counts(): seq<nat>
      requires Valid()
      reads this, wordCounts
    {
      wordCounts[..kwgSize]
    }

    /** The nodes form a lexicon the walks can run over. */
    ghost predicate Ready()
      requires Valid()
      reads this, kwg
    {
      WellFormed(Nodes())
    }

    constructor (kwgBuf: array<Node>, wcBuf: array<nat>)
      ensures Valid() && kwgSize == 0 && kwg == kwgBuf && wordCounts == wcBuf
    {
      kwgSize := 0;
      numLeaves := 0;
      kwg := kwgBuf;
      leaves := [];
      wordCounts := wcBuf;
    }

    /** klv_init: the node count, the nodes, the leave count in that order,
      * the leave table left in place, then the word counts. The image must
      * hold what its header announces and fit the 2500-node buffer: the C
      * checks neither. compute_word_counts repeats its pass until nothing
      * changes; the model allows at most `fuel` passes after the first and
      * reports whether the counts settled. */
    method Init(data: seq<Byte>, kwgBuf: array<Node>, wcBuf: array<nat>, fuel: nat) returns (settled: bool)
      requires |data| >= 4 && kwgBuf.Length == KWG_BUF_SIZE
      requires ReadLe32(data, 0) <= KWG_BUF_SIZE && 8 + 4 * ReadLe32(data, 0) <= |data|
      requires ReadLe32(data, 0) <= wcBuf.Length
      modifies this, kwgBuf, wcBuf
      ensures Valid() && kwg == kwgBuf && wordCounts == wcBuf
      ensures kwgSize == ReadLe32(data, 0)
      ensures forall i :: 0 <= i < kwgSize ==> kwg[i] == ReadLe32(data, 4 + 4 * i)
      ensures numLeaves == ReadLe32(data, 4 + 4 * kwgSize)
      ensures leaves == data[8 + 4 * kwgSize..]
      ensures settled ==> Fixpoint(Nodes(), Counts())
    {
      var p := 0;
      kwgSize := ReadLe32(data, p);
      p := p + 4;
      var i := 0;
      while i < kwgSize
        invariant 0 <= i <= kwgSize && p == 4 + 4 * i && kwgSize == ReadLe32(data, 0)
        invariant forall j :: 0 <= j < i ==> kwgBuf[j] == ReadLe32(data, 4 + 4 * j)
      {
        kwgBuf[i] := ReadLe32(data, p);
        p := p + 4;
        i := i + 1;
      }
      kwg := kwgBuf;
      numLeaves := ReadLe32(data, p);
      p := p + 4;
      leaves := data[p..];
      wordCounts := wcBuf;
      settled := ComputeWordCounts(fuel);
    }

    /** compute_word_counts: zero the counts, then run passes until one
      * changes nothing; the counts then solve the word-count equation. */
    method ComputeWordCounts(fuel: nat) returns (settled: bool)
      requires Valid()
      modifies wordCounts
      ensures settled ==> Fixpoint(Nodes(), Counts())
    {
      ZeroCounts();
      var changed := Pass();
      var left := fuel;
      while changed && left > 0
        invariant !changed ==> Fixpoint(Nodes(), Counts())
      {
        changed := Pass();
        left := left - 1;
      }
      settled := !changed;
    }

    /** The memset that starts compute_word_counts: the first kwgSize
      * counts become 0 and the rest of the buffer is left alone. */
    method ZeroCounts()
      requires Valid()
      modifies wordCounts
      ensures forall j :: 0 <= j < kwgSize ==> wordCounts[j] == 0
      ensures forall j :: kwgSize <= j < wordCounts.Length ==> wordCounts[j] == old(wordCounts[j])
    {
      var i := 0;
      while i < kwgSize
        invariant 0 <= i <= kwgSize
        invariant forall j :: 0 <= j < i ==> wordCounts[j] == 0
        invariant forall j :: kwgSize <= j < wordCounts.Length ==> wordCounts[j] == old(wordCounts[j])
      {
        wordCounts[i] := 0;
        i := i + 1;
      }
    }

    /** One pass of compute_word_counts, from the last node down to node 0:
      * every count becomes CountAt over the counts as the pass leaves them
      * above it and as they were below it, and the pass reports whether any
      * count moved. A pass that moves nothing found a fixpoint. */
    method Pass() returns (changed: bool)
      requires Valid()
      modifies wordCounts
      ensures PassDone(Nodes(), Counts(), old(Counts()), 0)
      ensures changed <==> Counts() != old(Counts())
      ensures !changed ==> Fixpoint(Nodes(), Counts())
    {
      ghost var before := Counts();
      ghost var nodes := Nodes();
      changed := false;
      ghost var moved := 0;
      var i := kwgSize;
      while i > 0
        invariant 0 <= i <= kwgSize
        invariant PassDone(nodes, Counts(), before, i)
        invariant !changed ==> Counts() == before
        invariant changed ==> i <= moved < kwgSize && wordCounts[moved] != before[moved]
      {
        i := i - 1;
        ghost var W := Counts();
        var node := kwg[i];
        var count := 0;
        if Accepts(node) {
          count := 1;
        }
        var child := ArcIndex(node);
        if child != 0 && child < kwgSize {
          count := count + wordCounts[child];
        }
        if !IsEnd(node) && i + 1 < kwgSize {
          count := count + wordCounts[i + 1];
        }
        assert count == CountAt(nodes, i, W, before);
        PassStep(nodes, W, before, i);
        if wordCounts[i] != count {
          wordCounts[i] := count;
          changed, moved := true, i;
        }
        assert Counts() == W[i := count];
      }
      if changed {
        assert Counts()[moved] != before[moved];
      } else {
        assert Fixpoint(nodes, Counts());
      }
    }

    /** increment_to_letter: from node n (0 gives 0 and the unfound index),
      * the node of the letter in n's sibling run, with the word index moved
      * past the counts of the siblings before it; 0 and the unfound index
      * when the run ends without the letter. */
    method IncrementToLetter(n: nat, idx: int, ml: MachineLetter) returns (found: nat, next: int)
      requires Valid() && Ready() && n < kwgSize
      ensures n == 0 ==> found == 0 && next == UNFOUND_INDEX
      ensures n != 0 && Find(Nodes(), n, ml).None? ==> found == 0 && next == UNFOUND_INDEX
      ensures n != 0 && Find(Nodes(), n, ml).Some? ==>
        found == Find(Nodes(), n, ml).value && next == idx + wordCounts[n] - wordCounts[found]
    {
      if n == 0 {
        return 0, UNFOUND_INDEX;
      }
      ghost var nodes := Nodes();
      var k := n;
      var acc := idx;
      while true
        invariant n <= k < kwgSize
        invariant Find(nodes, n, ml) == Find(nodes, k, ml)
        invariant acc == idx + wordCounts[n] - wordCounts[k]
        decreases kwgSize - k
      {
        var node := kwg[k];
        if Tile(node) == ml {
          return k, acc;
        }
        if IsEnd(node) {
          return 0, UNFOUND_INDEX;
        }
        acc := acc + wordCounts[k] - wordCounts[k + 1];
        k := k + 1;
      }
    }

    /** follow_arc: the child run of node n and the index one further on;
      * node 0 gives 0 and the unfound index. */
    function FollowArc(n: nat, idx: int): (r: (nat, int))
      requires Valid() && Ready() && n < kwgSize
      reads this, kwg
      ensures r.0 < kwgSize
      ensures n == 0 ==> r == (0, UNFOUND_INDEX)
      ensures n != 0 ==> r.0 == ArcIndex(Nodes()[n]) && r.1 == idx + 1
    {
      if n == 0 then (0, UNFOUND_INDEX) else (ArcIndex(kwg[n]), idx + 1)
    }

    /** klv_get_word_index: the rack's letters in ascending order, walked
      * from the DAWG root (node 0's arc). */
    method GetWordIndex(rack: Rack) returns (index: int)
      requires Valid() && Ready() && rack.Valid() && rack.Consistent()
      ensures index == WordIndexOf(Nodes(), Counts(), rack.counts[..])
    {
      ghost var cs: seq<nat> := rack.counts[..];
      ghost var E := Expand(cs, ALPHABET_SIZE);
      ghost var nodes := Nodes();
      ghost var wc := Counts();
      ghost var target := WordIndexOf(nodes, wc, cs);
      if rack.total == 0 {
        return UNFOUND_INDEX;
      }
      var node: nat := ArcIndex(kwg[0]);
      var idx := 0;
      var ml: nat := 0;
      var mlCount := 0;
      while ml < ALPHABET_SIZE && rack.counts[ml] == 0
        invariant 0 <= ml <= ALPHABET_SIZE && SumTo(cs, ml) == 0
      {
        ml := ml + 1;
      }
      assert ml < ALPHABET_SIZE;
      mlCount := rack.counts[ml];
      var remaining := rack.total;
      ghost var pos := 0;
      while node != 0
        invariant node < kwgSize && pos < |E| && pos + remaining == |E|
        invariant ml < ALPHABET_SIZE && 0 < mlCount <= cs[ml] && pos == SumTo(cs, ml) + cs[ml] - mlCount
        invariant target == IndexFrom(nodes, wc, node, idx, E[pos..])
        decreases remaining
      {
        assert E[pos] == ml by {
          ExpandAt(cs, ALPHABET_SIZE, ml, cs[ml] - mlCount);
        }
        var found, next := Visit(node, idx, ml, E, pos, target);
        if found == 0 {
          return UNFOUND_INDEX;
        }
        idx := next;
        ml, mlCount := UseLetter(rack, ml, mlCount, remaining, pos, E);
        remaining := remaining - 1;
        pos := pos + 1;
        if remaining == 0 {
          return idx;
        }
        node, idx := FollowArc(found, idx).0, FollowArc(found, idx).1;
      }
      return UNFOUND_INDEX;
    }

    /** One letter of the walk: increment_to_letter from node for the
      * letter at position pos of the spelled-out rack, and what the rest of
      * the walk then comes to. */
    method Visit(node: nat, idx: int, ml: MachineLetter, ghost E: seq<MachineLetter>, ghost pos: nat,
                 ghost target: int) returns (found: nat, next: int)
      requires Valid() && Ready() && 0 < node < kwgSize && pos < |E| && E[pos] == ml
      requires target == IndexFrom(Nodes(), Counts(), node, idx, E[pos..])
      ensures found == 0 ==> target == UNFOUND_INDEX
      ensures found != 0 && pos + 1 == |E| ==> target == next
      ensures found != 0 && pos + 1 < |E| ==> found < kwgSize
      ensures found != 0 && pos + 1 < |E| ==>
                target == IndexFrom(Nodes(), Counts(), ArcIndex(kwg[found]), next + 1, E[pos + 1..])
    {
      found, next := IncrementToLetter(node, idx, ml);
      IndexStep(Nodes(), Counts(), node, idx, E[pos..], found, next);
      assert E[pos..][1..] == E[pos + 1..];
    }

    /** One tile of letter ml is used: its count drops, and at zero the
      * next letter on the rack takes over. While tiles remain after this
      * one, the letter is a real one with a tile left. */
    static method UseLetter(rack: Rack, ml: nat, mlCount: nat, remaining: nat, ghost pos: nat,
                            ghost E: seq<MachineLetter>) returns (ml': nat, mlCount': nat)
      requires rack.Valid() && E == Expand(rack.counts[..], ALPHABET_SIZE)
      requires ml < ALPHABET_SIZE && 0 < mlCount <= rack.counts[ml]
      requires pos == SumTo(rack.counts[..], ml) + rack.counts[ml] - mlCount && pos + remaining == |E|
      ensures remaining > 1 ==> ml' < ALPHABET_SIZE && 0 < mlCount' <= rack.counts[ml']
      ensures remaining > 1 ==> pos + 1 == SumTo(rack.counts[..], ml') + rack.counts[ml'] - mlCount'
    {
      ml', mlCount' := ml, mlCount - 1;
      if mlCount' == 0 {
        ml', mlCount' := NextLetter(rack, ml, pos + 1);
      }
    }

    /** The inner loop of klv_get_word_index: once the letter ml is used up,
      * the next letter with a tile on the rack, or ALPHABET_SIZE when none is
      * left; pos tiles of the spelled-out rack are behind. */
    static method NextLetter(rack: Rack, ml: nat, ghost pos: nat) returns (next: nat, count: nat)
      requires rack.Valid() && ml < ALPHABET_SIZE && pos == SumTo(rack.counts[..], ml + 1)
      ensures ml < next <= ALPHABET_SIZE
      ensures next < ALPHABET_SIZE ==> 0 < count == rack.counts[next] && pos == SumTo(rack.counts[..], next)
      ensures next == ALPHABET_SIZE ==> pos == SumTo(rack.counts[..], ALPHABET_SIZE)
    {
      ghost var cs: seq<nat> := rack.counts[..];
      next, count := ml, 0;
      while count == 0
        invariant ml <= next < ALPHABET_SIZE && count == (if next == ml then 0 else cs[next])
        invariant pos == SumTo(cs, next + 1) - count
        decreases ALPHABET_SIZE - next
      {
        next := next + 1;
        if next >= ALPHABET_SIZE {
          break;
        }
        count := rack.counts[next];
      }
    }

    /** klv_get_leave_value: 0 for an empty rack, otherwise the indexed
      * leave of the rack's word index. */
    method GetLeaveValue(rack: Rack) returns (v: int)
      requires Valid() && Ready() && rack.Valid() && rack.Consistent()
      requires LeaveInRange(leaves, WordIndexOf(Nodes(), Counts(), rack.counts[..]))
      ensures v == LeaveValueOf(Nodes(), Counts(), leaves, rack.counts[..])
    {
      if rack.total == 0 {
        return 0;
      }
      var index := GetWordIndex(rack);
      v := IndexedLeave(leaves, index);
    }
  }
}
