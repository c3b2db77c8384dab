// KWG lexicon nodes and the sibling scans over them (inc/kwg.h).
// A KWG is an array of 32-bit nodes; each sibling run ends in a node with
// the IS_END flag, and a node's arc index points at its children's run.
module KwgNode {
  import opened Defs
  import opened Wrappers

  /** An unsigned 32-bit node word. */
  type Node = x: int | 0 <= x < 0x1_0000_0000

  const ACCEPTS_FLAG: int := 0x0080_0000
  const IS_END_FLAG: int := 0x0040_0000
  const ARC_INDEX_MASK: int := 0x003F_FFFF

  /** Bits 31-24 (node >> 24). */
  function Tile(n: Node): MachineLetter { n / 0x100_0000 }

  /** Bit 23. */
  predicate Accepts(n: Node) { (n / ACCEPTS_FLAG) % 2 == 1 }

  /** Bit 22. */
  predicate IsEnd(n: Node) { (n / IS_END_FLAG) % 2 == 1 }

  /** Bits 21-0 (node & ARC_INDEX_MASK). */
  function ArcIndex(n: Node): (a: nat)
    ensures a <= ARC_INDEX_MASK
  {
    n % (ARC_INDEX_MASK + 1)
  }

  /** The four fields are disjoint and together make up the whole word. */
  lemma NodeFields(n: Node)
    ensures n == Tile(n) * 0x100_0000 + (if Accepts(n) then ACCEPTS_FLAG else 0)
      + (if IsEnd(n) then IS_END_FLAG else 0) + ArcIndex(n)
  {
  }

  /** Every sibling scan stops inside the array: the last node ends a run. */
  predicate ScansEnd(kwg: seq<Node>) { |kwg| > 0 && IsEnd(kwg[|kwg| - 1]) }

  /** Every tile indexes the 32-entry bit table. */
  predicate TilesFit(kwg: seq<Node>)
  {
    forall i :: 0 <= i < |kwg| ==> Tile(kwg[i]) < 32
  }

  /** Every arc stays in bounds. */
  predicate ArcsFit(kwg: seq<Node>)
  {
    forall i :: 0 <= i < |kwg| ==> ArcIndex(kwg[i]) < |kwg|
  }

  /** Scans end, arcs stay in bounds, tiles fit the bit table, and both roots exist. */
  predicate WellFormed(kwg: seq<Node>)
  {
    |kwg| >= 2 && ScansEnd(kwg) && TilesFit(kwg) && ArcsFit(kwg)
  }

  function DawgRoot(kwg: seq<Node>): (r: nat)
    requires WellFormed(kwg)
    ensures r < |kwg| && r == ArcIndex(kwg[0])
  {
    ArcIndex(kwg[0])
  }

  function GaddagRoot(kwg: seq<Node>): (r: nat)
    requires WellFormed(kwg)
    ensures r < |kwg| && r == ArcIndex(kwg[1])
  {
    ArcIndex(kwg[1])
  }

  /** The last node of the sibling run that contains node i. */
  function RunEnd(kwg: seq<Node>, i: nat): (e: nat)
    requires ScansEnd(kwg) && i < |kwg|
    ensures i <= e < |kwg| && IsEnd(kwg[e])
    decreases |kwg| - i
  {
    if IsEnd(kwg[i]) then i else RunEnd(kwg, i + 1)
  }

  /** RunEnd is the first IS_END node at or after i: a scan from i meets no
    * other end before it. */
  lemma {:induction false} RunEndIsFirst(kwg: seq<Node>, i: nat)
    requires ScansEnd(kwg) && i < |kwg|
    ensures forall k :: i <= k < RunEnd(kwg, i) ==> !IsEnd(kwg[k])
    decreases |kwg| - i
  {
    if !IsEnd(kwg[i]) {
      RunEndIsFirst(kwg, i + 1);
    }
  }

  /** The first node at or after i, within its run, whose tile is the letter. */
  function Find(kwg: seq<Node>, i: nat, letter: MachineLetter): (r: Option<nat>)
    requires ScansEnd(kwg) && i < |kwg|
    ensures r.Some? ==> i <= r.value <= RunEnd(kwg, i) && Tile(kwg[r.value]) == letter
    decreases |kwg| - i
  {
    if Tile(kwg[i]) == letter then Some(i)
    else if IsEnd(kwg[i]) then None
    else Find(kwg, i + 1, letter)
  }

  /** Find returns the first match of the run, and None exactly when no node
    * of the run carries the letter. */
  lemma {:induction false} FindMeaning(kwg: seq<Node>, i: nat, letter: MachineLetter)
    requires ScansEnd(kwg) && i < |kwg|
    ensures Find(kwg, i, letter).Some? ==>
      forall k :: i <= k < Find(kwg, i, letter).value ==> Tile(kwg[k]) != letter
    ensures Find(kwg, i, letter).None? <==>
      forall k :: i <= k <= RunEnd(kwg, i) ==> Tile(kwg[k]) != letter
    decreases |kwg| - i
  {
    if Tile(kwg[i]) != letter && !IsEnd(kwg[i]) {
      FindMeaning(kwg, i + 1, letter);
      assert RunEnd(kwg, i) == RunEnd(kwg, i + 1);
    }
  }

  /** What kwg_follow_arc returns: the letter's child run, 0 when absent. */
  function ArcFor(kwg: seq<Node>, i: nat, letter: MachineLetter): (a: nat)
    requires ScansEnd(kwg) && i < |kwg|
    ensures ArcsFit(kwg) ==> a < |kwg|
    ensures a != 0 ==> Find(kwg, i, letter).Some?
  {
    match Find(kwg, i, letter)
    case Some(j) => ArcIndex(kwg[j])
    case None => 0
  }

  /** What kwg_letter_accepts returns. */
  predicate AcceptsFor(kwg: seq<Node>, i: nat, letter: MachineLetter)
    requires ScansEnd(kwg) && i < |kwg|
  {
    match Find(kwg, i, letter)
    case Some(j) => Accepts(kwg[j])
    case None => false
  }

  method FollowArc(kwg: seq<Node>, nodeIndex: nat, letter: MachineLetter) returns (arc: nat)
    requires ScansEnd(kwg) && nodeIndex < |kwg|
    ensures arc == ArcFor(kwg, nodeIndex, letter)
  {
    var i := nodeIndex;
    while true
      invariant nodeIndex <= i < |kwg|
      invariant Find(kwg, nodeIndex, letter) == Find(kwg, i, letter)
      decreases |kwg| - i
    {
      var node := kwg[i];
      if Tile(node) == letter {
        return ArcIndex(node);
      }
      if IsEnd(node) {
        return 0;
      }
      i := i + 1;
    }
  }

  method LetterAccepts(kwg: seq<Node>, nodeIndex: nat, letter: MachineLetter) returns (accepts: bool)
    requires ScansEnd(kwg) && nodeIndex < |kwg|
    ensures accepts == AcceptsFor(kwg, nodeIndex, letter)
  {
    var i := nodeIndex;
    while true
      invariant nodeIndex <= i < |kwg|
      invariant Find(kwg, nodeIndex, letter) == Find(kwg, i, letter)
      decreases |kwg| - i
    {
      var node := kwg[i];
      if Tile(node) == letter {
        return Accepts(node);
      }
      if IsEnd(node) {
        return false;
      }
      i := i + 1;
    }
  }

  /** The sibling scan that kwg.c writes out inline: the first node at or
    * after from, within its run, whose tile is the letter. */
  method ScanRun(kwg: seq<Node>, from: nat, letter: MachineLetter) returns (found: bool, k: nat)
    requires ScansEnd(kwg) && from < |kwg|
    ensures found == Find(kwg, from, letter).Some?
    ensures found ==> k == Find(kwg, from, letter).value
  {
    k := from;
    while true
      invariant from <= k < |kwg|
      invariant Find(kwg, from, letter) == Find(kwg, k, letter)
      decreases |kwg| - k
    {
      if Tile(kwg[k]) == letter {
        return true, k;
      }
      if IsEnd(kwg[k]) {
        return false, k;
      }
      k := k + 1;
    }
  }

  /** The bit of a node's tile, or nothing for the separator tile 0. */
  function TileBit(n: Node): CrossSet
  {
    if Tile(n) != 0 then {Tile(n)} else {}
  }

  /** The bit a node contributes to the letter set. */
  function AcceptBit(n: Node): CrossSet
  {
    if Accepts(n) then TileBit(n) else {}
  }

  /** The extension set of the run from node i on. */
  function ExtSetFrom(kwg: seq<Node>, i: nat): CrossSet
    requires ScansEnd(kwg) && i < |kwg|
    decreases |kwg| - i
  {
    if IsEnd(kwg[i]) then TileBit(kwg[i])
    else TileBit(kwg[i]) + ExtSetFrom(kwg, i + 1)
  }

  /** The letter set of the run from node i on. */
  function LetterSetFrom(kwg: seq<Node>, i: nat): CrossSet
    requires ScansEnd(kwg) && i < |kwg|
    decreases |kwg| - i
  {
    if IsEnd(kwg[i]) then AcceptBit(kwg[i])
    else AcceptBit(kwg[i]) + LetterSetFrom(kwg, i + 1)
  }

  /** The extension set holds exactly the non-separator tiles of the run. */
  lemma {:induction false} ExtSetMeaning(kwg: seq<Node>, i: nat, l: MachineLetter)
    requires ScansEnd(kwg) && i < |kwg|
    ensures l in ExtSetFrom(kwg, i) <==>
      l != 0 && exists k :: i <= k <= RunEnd(kwg, i) && Tile(kwg[k]) == l
    decreases |kwg| - i
  {
    if !IsEnd(kwg[i]) {
      ExtSetMeaning(kwg, i + 1, l);
    }
  }

  /** The letter set holds exactly the accepting non-separator tiles of the run. */
  lemma {:induction false} LetterSetMeaning(kwg: seq<Node>, i: nat, l: MachineLetter)
    requires ScansEnd(kwg) && i < |kwg|
    ensures l in LetterSetFrom(kwg, i) <==>
      l != 0 && exists k :: i <= k <= RunEnd(kwg, i) && Tile(kwg[k]) == l && Accepts(kwg[k])
    decreases |kwg| - i
  {
    if !IsEnd(kwg[i]) {
      LetterSetMeaning(kwg, i + 1, l);
    }
  }

  /** The letter set is within the extension set, and neither holds the separator. */
  lemma {:induction false} LetterSetWithinExtSet(kwg: seq<Node>, i: nat)
    requires ScansEnd(kwg) && TilesFit(kwg) && i < |kwg|
    ensures LetterSetFrom(kwg, i) <= ExtSetFrom(kwg, i)
    ensures 0 !in ExtSetFrom(kwg, i) && IsBitmap(ExtSetFrom(kwg, i))
    decreases |kwg| - i
  {
    if !IsEnd(kwg[i]) {
      LetterSetWithinExtSet(kwg, i + 1);
    }
  }

  method GetLetterSets(kwg: seq<Node>, nodeIndex: nat) returns (letterSet: CrossSet, extSet: CrossSet)
    requires ScansEnd(kwg) && TilesFit(kwg) && nodeIndex < |kwg|
    ensures letterSet == LetterSetFrom(kwg, nodeIndex)
    ensures extSet == ExtSetFrom(kwg, nodeIndex)
  {
    letterSet, extSet := {}, {};
    var i := nodeIndex;
    while true
      invariant nodeIndex <= i < |kwg|
      invariant LetterSetFrom(kwg, nodeIndex) == letterSet + LetterSetFrom(kwg, i)
      invariant ExtSetFrom(kwg, nodeIndex) == extSet + ExtSetFrom(kwg, i)
      decreases |kwg| - i
    {
      var node := kwg[i];
      var tile := Tile(node);
      if tile != 0 {
        var bit := {tile};
        extSet := extSet + bit;
        if Accepts(node) {
          letterSet := letterSet + bit;
        }
      }
      if IsEnd(node) {
        break;
      }
      i := i + 1;
    }
  }
}
