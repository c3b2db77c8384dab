// Word lookup, cross sets and extension sets over the KWG (src/kwg.c).
// Board letters may carry the blank bit; the lexicon is always walked with
// the unblanked letter.
module Kwg {
  import opened Defs
  import opened Wrappers
  import opened KwgNode
  import opened BoardTables

  /** The letters as the lexicon spells them: the blank bit dropped. */
  function Unblank(w: seq<MachineLetter>): (u: seq<MachineLetter>)
    ensures |u| == |w| && forall i :: 0 <= i < |w| ==> u[i] == Unblanked(w[i])
  {
    seq(|w|, i requires 0 <= i < |w| => Unblanked(w[i]))
  }

  function Reverse(w: seq<MachineLetter>): (r: seq<MachineLetter>)
    ensures |r| == |w| && forall i :: 0 <= i < |w| ==> r[i] == w[|w| - 1 - i]
  {
    seq(|w|, i requires 0 <= i < |w| => w[|w| - 1 - i])
  }

  /** Follow one arc per letter from a node, as repeated kwg_follow_arc calls
    * do; None as soon as an arc is missing or leads to node 0. */
  function Walk(kwg: seq<Node>, node: nat, w: seq<MachineLetter>): (r: Option<nat>)
    requires ScansEnd(kwg) && ArcsFit(kwg) && node < |kwg|
    ensures r.Some? ==> r.value < |kwg|
    ensures r.Some? && w != [] ==> r.value != 0
    decreases |w|
  {
    if w == [] then Some(node)
    else
      var a := ArcFor(kwg, node, w[0]);
      if a == 0 then None else Walk(kwg, a, w[1..])
  }

  /** The letters spell, from node, a path whose last node accepts: every
    * letter but the last is followed through a non-zero arc, and the last
    * letter's node has the accepts flag. */
  predicate WordFrom(kwg: seq<Node>, node: nat, w: seq<MachineLetter>)
    requires ScansEnd(kwg) && ArcsFit(kwg) && node < |kwg|
    decreases |w|
  {
    |w| > 0 &&
    if |w| == 1 then AcceptsFor(kwg, node, w[0])
    else
      var a := ArcFor(kwg, node, w[0]);
      a != 0 && WordFrom(kwg, a, w[1..])
  }

  /** Walking a concatenation walks the first part, then the second from where it ended. */
  lemma {:induction false} WalkAppend(kwg: seq<Node>, node: nat, a: seq<MachineLetter>, b: seq<MachineLetter>)
    requires ScansEnd(kwg) && ArcsFit(kwg) && node < |kwg|
    ensures Walk(kwg, node, a + b) ==
      match Walk(kwg, node, a)
      case None => None
      case Some(m) => Walk(kwg, m, b)
    decreases |a|
  {
    if a == [] {
      assert a + b == b;
    } else {
      assert (a + b)[0] == a[0] && (a + b)[1..] == a[1..] + b;
      var arc := ArcFor(kwg, node, a[0]);
      if arc != 0 {
        WalkAppend(kwg, arc, a[1..], b);
      }
    }
  }

  /** A word that starts with p: walk p, then spell the rest from where the walk ended. */
  lemma {:induction false} WordAfterWalk(kwg: seq<Node>, node: nat, p: seq<MachineLetter>, rest: seq<MachineLetter>)
    requires ScansEnd(kwg) && ArcsFit(kwg) && node < |kwg| && rest != []
    ensures WordFrom(kwg, node, p + rest) ==
      match Walk(kwg, node, p)
      case None => false
      case Some(m) => WordFrom(kwg, m, rest)
    decreases |p|
  {
    if p == [] {
      assert p + rest == rest;
    } else {
      assert (p + rest)[0] == p[0] && (p + rest)[1..] == p[1..] + rest;
      var arc := ArcFor(kwg, node, p[0]);
      if arc != 0 {
        WordAfterWalk(kwg, arc, p[1..], rest);
      }
    }
  }

  /** A word of the lexicon: at least two letters, spelt from the DAWG root. */
  predicate IsValidWord(kwg: seq<Node>, letters: seq<MachineLetter>)
    requires WellFormed(kwg)
  {
    |letters| >= 2 && WordFrom(kwg, DawgRoot(kwg), Unblank(letters))
  }

  /** kwg_is_valid_word: the nested scan of the DAWG, one sibling run per letter. */
  method IsValidWordScan(kwg: seq<Node>, letters: seq<MachineLetter>) returns (valid: bool)
    requires WellFormed(kwg)
    ensures valid == IsValidWord(kwg, letters)
  {
    var count := |letters|;
    if count < 2 {
      return false;
    }
    ghost var u := Unblank(letters);
    var nodeIndex: nat := DawgRoot(kwg);
    var i := 0;
    while i < count
      invariant 0 <= i <= count - 1
      invariant nodeIndex < |kwg|
      invariant WordFrom(kwg, DawgRoot(kwg), u) == WordFrom(kwg, nodeIndex, u[i..])
    {
      var letter := Unblanked(letters[i]);
      assert u[i..][0] == letter && u[i..][1..] == u[i + 1..];
      var found, j := ScanRun(kwg, nodeIndex, letter);
      if !found {
        return false;
      }
      if i == count - 1 {
        return Accepts(kwg[j]);
      }
      nodeIndex := ArcIndex(kwg[j]);
      if nodeIndex == 0 {
        return false;
      }
      i := i + 1;
    }
    return false;
  }

  /** The tiles of a prefix or suffix already on the board may be blanked;
    * every unblanked one indexes TILE_SCORES. */
  predicate Scorable(tiles: seq<MachineLetter>)
  {
    forall i :: 0 <= i < |tiles| ==> IsBlanked(tiles[i]) || IsLetter(tiles[i])
  }

  /** The face value of the tiles, blanks counting 0. */
  function ScoreSum(tiles: seq<MachineLetter>): nat
    requires Scorable(tiles)
  {
    if tiles == [] then 0 else ScoreSum(tiles[..|tiles| - 1]) + TileValue(tiles[|tiles| - 1])
  }

  /** Whether the node at k puts its tile in the cross set: its tile is a
    * letter, and either there is no suffix and it accepts, or the (unblanked)
    * suffix is a word spelt below its arc. */
  predicate Contributes(kwg: seq<Node>, k: nat, suffix: seq<MachineLetter>)
    requires WellFormed(kwg) && k < |kwg|
  {
    Tile(kwg[k]) != 0 &&
    if suffix == [] then Accepts(kwg[k])
    else ArcIndex(kwg[k]) != 0 && WordFrom(kwg, ArcIndex(kwg[k]), suffix)
  }

  /** The letters the run from node i on contributes. */
  function CrossSetFrom(kwg: seq<Node>, i: nat, suffix: seq<MachineLetter>): CrossSet
    requires WellFormed(kwg) && i < |kwg|
    decreases |kwg| - i
  {
    (if Contributes(kwg, i, suffix) then {Tile(kwg[i])} else {})
    + (if IsEnd(kwg[i]) then {} else CrossSetFrom(kwg, i + 1, suffix))
  }

  /** The cross set compute_cross_set returns for the tiles before and after a square. */
  function CrossSetOf(kwg: seq<Node>, prefix: seq<MachineLetter>, suffix: seq<MachineLetter>): CrossSet
    requires WellFormed(kwg)
  {
    if prefix == [] && suffix == [] then TRIVIAL_CROSS_SET
    else
      match Walk(kwg, DawgRoot(kwg), Unblank(prefix))
      case None => {}
      case Some(n) => CrossSetFrom(kwg, n, Unblank(suffix))
  }

  /** The cross score compute_cross_set writes through its int8_t pointer:
    * -1 with no cross word, otherwise the face values wrapped to 8 bits. */
  function CrossScoreOf(prefix: seq<MachineLetter>, suffix: seq<MachineLetter>): int
    requires Scorable(prefix) && Scorable(suffix)
  {
    if prefix == [] && suffix == [] then -1
    else ToInt8(ScoreSum(prefix) + ScoreSum(suffix))
  }

  /** The suffix check inside compute_cross_set's scan: walk the suffix letters
    * from start, then test the accepts flag of the last one. */
  method SuffixAccepts(kwg: seq<Node>, start: nat, suffix: seq<MachineLetter>) returns (ok: bool)
    requires WellFormed(kwg) && 0 < start < |kwg| && suffix != []
    ensures ok == WordFrom(kwg, start, Unblank(suffix))
  {
    ghost var u := Unblank(suffix);
    var sufNode: nat := start;
    var valid := true;
    ok := false;
    var j := 0;
    while j < |suffix| && valid
      invariant 0 <= j <= |suffix|
      invariant valid ==> j < |suffix| && sufNode < |kwg| && !ok
      invariant valid ==> WordFrom(kwg, start, u) == WordFrom(kwg, sufNode, u[j..])
      invariant !valid ==> ok == WordFrom(kwg, start, u)
      decreases |suffix| - j, valid
    {
      var sufLetter := Unblanked(suffix[j]);
      assert u[j..][0] == sufLetter && u[j..][1..] == u[j + 1..];
      var found, k := ScanRun(kwg, sufNode, sufLetter);
      if found {
        if j == |suffix| - 1 {
          if Accepts(kwg[k]) {
            ok := true;
          }
        } else {
          sufNode := ArcIndex(kwg[k]);
          if sufNode == 0 {
            valid := false;
          }
        }
      }
      if !found {
        valid := false;
      }
      if j == |suffix| - 1 {
        valid := false;
      }
      j := j + 1;
    }
  }

  /** The score loops of compute_cross_set: add the face value of each tile
    * to an int8_t accumulator. */
  method AccumulateScore(acc: int, tiles: seq<MachineLetter>) returns (r: int)
    requires Scorable(tiles)
    ensures r == ToInt8(acc + ScoreSum(tiles))
  {
    r := ToInt8(acc);
    ToInt8Add(acc, 0);
    var i := 0;
    while i < |tiles|
      invariant 0 <= i <= |tiles|
      invariant r == ToInt8(acc + ScoreSum(tiles[..i]))
    {
      assert tiles[..i + 1][..i] == tiles[..i];
      assert ScoreSum(tiles[..i + 1]) == ScoreSum(tiles[..i]) + TileValue(tiles[i]);
      if !IsBlanked(tiles[i]) {
        ToInt8Add(acc + ScoreSum(tiles[..i]), TILE_SCORES[tiles[i]]);
        r := ToInt8(r + TILE_SCORES[tiles[i]]);
      }
      i := i + 1;
    }
    assert tiles[..i] == tiles;
  }

  /** The arc-following loops of compute_cross_set and compute_extension_sets:
    * one kwg_follow_arc per (unblanked) letter, stopping at the first 0. */
  method FollowArcs(kwg: seq<Node>, start: nat, letters: seq<MachineLetter>) returns (nodeIndex: nat, valid: bool)
    requires WellFormed(kwg) && start < |kwg|
    ensures valid == Walk(kwg, start, Unblank(letters)).Some?
    ensures valid ==> nodeIndex == Walk(kwg, start, Unblank(letters)).value
  {
    ghost var p := Unblank(letters);
    nodeIndex := start;
    valid := true;
    var i := 0;
    while i < |letters| && valid
      invariant 0 <= i <= |letters|
      invariant nodeIndex < |kwg|
      invariant valid ==> Walk(kwg, start, p) == Walk(kwg, nodeIndex, p[i..])
      invariant !valid ==> Walk(kwg, start, p) == None
    {
      assert p[i..][0] == Unblanked(letters[i]) && p[i..][1..] == p[i + 1..];
      nodeIndex := FollowArc(kwg, nodeIndex, Unblanked(letters[i]));
      if nodeIndex == 0 {
        valid := false;
      }
      i := i + 1;
    }
    if valid {
      assert p[i..] == [];
    }
  }

  /** compute_cross_set: the letters that complete a word with the tiles above
    * (prefix) and below (suffix) a square, and the face value of those tiles. */
  method ComputeCrossSet(kwg: seq<Node>, prefix: seq<MachineLetter>, suffix: seq<MachineLetter>)
    returns (result: CrossSet, crossScore: int)
    requires WellFormed(kwg) && Scorable(prefix) && Scorable(suffix)
    ensures result == CrossSetOf(kwg, prefix, suffix)
    ensures crossScore == CrossScoreOf(prefix, suffix)
  {
    result := {};
    crossScore := 0;
    if |prefix| == 0 && |suffix| == 0 {
      crossScore := -1;
      return TRIVIAL_CROSS_SET, crossScore;
    }

    crossScore := AccumulateScore(crossScore, prefix);
    crossScore := AccumulateScore(crossScore, suffix);
    ToInt8Add(ScoreSum(prefix), ScoreSum(suffix));

    var nodeIndex, valid := FollowArcs(kwg, DawgRoot(kwg), prefix);
    if !valid {
      return {}, crossScore;
    }
    result := ScanCrossRun(kwg, nodeIndex, suffix);
  }

  /** The last loop of compute_cross_set: every letter of the sibling run at
    * nodeIndex whose node contributes. */
  method ScanCrossRun(kwg: seq<Node>, nodeIndex: nat, suffix: seq<MachineLetter>) returns (result: CrossSet)
    requires WellFormed(kwg) && nodeIndex < |kwg|
    ensures result == CrossSetFrom(kwg, nodeIndex, Unblank(suffix))
  {
    ghost var s := Unblank(suffix);
    result := {};
    var i := nodeIndex;
    while true
      invariant nodeIndex <= i < |kwg|
      invariant CrossSetFrom(kwg, nodeIndex, s) == result + CrossSetFrom(kwg, i, s)
      decreases |kwg| - i
    {
      ghost var before := result;
      var node := kwg[i];
      var letter := Tile(node);
      if letter != 0 {
        var next := ArcIndex(node);
        if |suffix| == 0 {
          if Accepts(node) {
            result := result + {letter};
          }
        } else if next != 0 {
          var ok := SuffixAccepts(kwg, next, suffix);
          if ok {
            result := result + {letter};
          }
        }
      }
      ghost var here: CrossSet := if Contributes(kwg, i, s) then {letter} else {};
      assert result == before + here;
      if IsEnd(node) {
        assert CrossSetFrom(kwg, i, s) == here;
        break;
      }
      assert CrossSetFrom(kwg, i, s) == here + CrossSetFrom(kwg, i + 1, s);
      assert CrossSetFrom(kwg, nodeIndex, s) == result + CrossSetFrom(kwg, i + 1, s);
      i := i + 1;
    }
  }

  /** A letter is in the run's cross set exactly when some node of the run carries it and contributes. */
  lemma {:induction false} CrossSetFromMeaning(kwg: seq<Node>, i: nat, suffix: seq<MachineLetter>, l: MachineLetter)
    requires WellFormed(kwg) && i < |kwg|
    ensures l in CrossSetFrom(kwg, i, suffix) <==>
      exists k :: i <= k <= RunEnd(kwg, i) && Tile(kwg[k]) == l && Contributes(kwg, k, suffix)
    decreases |kwg| - i
  {
    var here := Tile(kwg[i]) == l && Contributes(kwg, i, suffix);
    var e := RunEnd(kwg, i);
    if IsEnd(kwg[i]) {
      assert e == i;
      assert l in CrossSetFrom(kwg, i, suffix) <==> here;
      if here {
        assert i <= i <= e && Tile(kwg[i]) == l && Contributes(kwg, i, suffix);
      }
    } else {
      CrossSetFromMeaning(kwg, i + 1, suffix, l);
      assert e == RunEnd(kwg, i + 1);
      assert l in CrossSetFrom(kwg, i, suffix) <==> here || l in CrossSetFrom(kwg, i + 1, suffix);
      if here {
        assert i <= i <= e && Tile(kwg[i]) == l && Contributes(kwg, i, suffix);
      }
    }
  }

  /** Cross sets are 32-bit bitmaps that never hold the separator bit 0. */
  lemma {:induction false} CrossSetFromBits(kwg: seq<Node>, i: nat, suffix: seq<MachineLetter>)
    requires WellFormed(kwg) && i < |kwg|
    ensures 0 !in CrossSetFrom(kwg, i, suffix) && IsBitmap(CrossSetFrom(kwg, i, suffix))
    decreases |kwg| - i
  {
    if !IsEnd(kwg[i]) {
      CrossSetFromBits(kwg, i + 1, suffix);
    }
  }

  lemma CrossSetBits(kwg: seq<Node>, prefix: seq<MachineLetter>, suffix: seq<MachineLetter>)
    requires WellFormed(kwg)
    ensures 0 !in CrossSetOf(kwg, prefix, suffix) && IsBitmap(CrossSetOf(kwg, prefix, suffix))
  {
    if prefix == [] && suffix == [] {
      TrivialCrossSetBits(0);
    } else if Walk(kwg, DawgRoot(kwg), Unblank(prefix)).Some? {
      CrossSetFromBits(kwg, Walk(kwg, DawgRoot(kwg), Unblank(prefix)).value, Unblank(suffix));
    }
  }

  /** Whether the first node for l in the run at n contributes. */
  predicate FirstContributes(kwg: seq<Node>, n: nat, l: MachineLetter, suffix: seq<MachineLetter>)
    requires WellFormed(kwg) && n < |kwg|
  {
    match Find(kwg, n, l)
    case None => false
    case Some(k) => Contributes(kwg, k, suffix)
  }

  /** prefix + [l] + suffix is a word exactly when the prefix walks to some
    * node n and the first node for l in n's run contributes. */
  lemma ValidWordSplit(kwg: seq<Node>, prefix: seq<MachineLetter>, l: MachineLetter, suffix: seq<MachineLetter>)
    requires WellFormed(kwg) && 0 < l < BLANK_MASK && (prefix != [] || suffix != [])
    ensures IsValidWord(kwg, prefix + [l] + suffix) <==>
      match Walk(kwg, DawgRoot(kwg), Unblank(prefix))
      case None => false
      case Some(n) => FirstContributes(kwg, n, l, Unblank(suffix))
  {
    var p, s := Unblank(prefix), Unblank(suffix);
    assert Unblank(prefix + [l] + suffix) == p + ([l] + s);
    WordAfterWalk(kwg, DawgRoot(kwg), p, [l] + s);
    match Walk(kwg, DawgRoot(kwg), p)
    case None =>
    case Some(n) =>
      assert ([l] + s)[0] == l && ([l] + s)[1..] == s;
  }

  /** Every letter that completes a word across the square is in the cross set. */
  lemma CrossSetComplete(kwg: seq<Node>, prefix: seq<MachineLetter>, l: MachineLetter, suffix: seq<MachineLetter>)
    requires WellFormed(kwg) && 0 < l < BLANK_MASK && (prefix != [] || suffix != [])
    requires IsValidWord(kwg, prefix + [l] + suffix)
    ensures l in CrossSetOf(kwg, prefix, suffix)
  {
    ValidWordSplit(kwg, prefix, l, suffix);
    var n := Walk(kwg, DawgRoot(kwg), Unblank(prefix)).value;
    CrossSetFromMeaning(kwg, n, Unblank(suffix), l);
  }

  /** No sibling run holds two nodes with the same tile, as in every KWG the
    * lexicon builder writes. */
  predicate DistinctRuns(kwg: seq<Node>)
  {
    forall i, j :: 0 <= i < j < |kwg| && Tile(kwg[i]) == Tile(kwg[j]) ==>
      exists e :: i <= e < j && IsEnd(kwg[e])
  }

  /** In a lexicon with distinct sibling tiles, every letter of the cross set
    * completes a word across the square: with CrossSetComplete, the cross set
    * is exactly the set of letters l for which prefix + l + suffix is a word. */
  lemma CrossSetSound(kwg: seq<Node>, prefix: seq<MachineLetter>, l: MachineLetter, suffix: seq<MachineLetter>)
    requires WellFormed(kwg) && DistinctRuns(kwg) && (prefix != [] || suffix != [])
    requires l in CrossSetOf(kwg, prefix, suffix)
    ensures 0 < l < 32 && IsValidWord(kwg, prefix + [l] + suffix)
  {
    CrossSetBits(kwg, prefix, suffix);
    ValidWordSplit(kwg, prefix, l, suffix);
    var n := Walk(kwg, DawgRoot(kwg), Unblank(prefix)).value;
    CrossSetFromMeaning(kwg, n, Unblank(suffix), l);
    var k :| n <= k <= RunEnd(kwg, n) && Tile(kwg[k]) == l && Contributes(kwg, k, Unblank(suffix));
    OnlyMatch(kwg, n, l, k);
  }

  /** In a run with distinct tiles, the node carrying a letter is the one Find returns. */
  lemma OnlyMatch(kwg: seq<Node>, n: nat, l: MachineLetter, k: nat)
    requires ScansEnd(kwg) && DistinctRuns(kwg) && n <= k < |kwg|
    requires k <= RunEnd(kwg, n) && Tile(kwg[k]) == l
    ensures Find(kwg, n, l) == Some(k)
  {
    FindMeaning(kwg, n, l);
    RunEndIsFirst(kwg, n);
  }

  /** rightx for a square: the tiles of the DAWG run reached by the tiles to
    * its left (TRIVIAL when there are none, empty when they are no prefix). */
  function RightExtOf(kwg: seq<Node>, left: seq<MachineLetter>): CrossSet
    requires WellFormed(kwg)
  {
    if left == [] then TRIVIAL_CROSS_SET
    else
      match Walk(kwg, DawgRoot(kwg), Unblank(left))
      case None => {}
      case Some(n) => ExtSetFrom(kwg, n)
  }

  /** leftx for a square: the tiles below the separator arc of the GADDAG run
    * reached by the tiles to its right, reversed. */
  function LeftExtOf(kwg: seq<Node>, right: seq<MachineLetter>): CrossSet
    requires WellFormed(kwg)
  {
    if right == [] then TRIVIAL_CROSS_SET
    else
      match Walk(kwg, GaddagRoot(kwg), Reverse(Unblank(right)))
      case None => {}
      case Some(n) =>
        var sep := ArcFor(kwg, n, SEPARATOR);
        if sep == 0 then {} else ExtSetFrom(kwg, sep)
  }

  /** compute_extension_sets; the GADDAG walk takes the tiles to the right in
    * reverse order. */
  method ComputeExtensionSets(kwg: seq<Node>, left: seq<MachineLetter>, right: seq<MachineLetter>)
    returns (leftx: CrossSet, rightx: CrossSet)
    requires WellFormed(kwg)
    ensures leftx == LeftExtOf(kwg, right)
    ensures rightx == RightExtOf(kwg, left)
  {
    leftx := TRIVIAL_CROSS_SET;
    rightx := TRIVIAL_CROSS_SET;

    if |left| > 0 {
      var nodeIndex, valid := FollowArcs(kwg, DawgRoot(kwg), left);
      if valid && nodeIndex != 0 {
        var letterSet, extSet := GetLetterSets(kwg, nodeIndex);
        rightx := extSet;
      } else {
        rightx := {};
      }
    }

    if |right| > 0 {
      assert Unblank(Reverse(right)) == Reverse(Unblank(right));
      var nodeIndex, valid := FollowArcs(kwg, GaddagRoot(kwg), Reverse(right));
      if valid && nodeIndex != 0 {
        var sepIndex := FollowArc(kwg, nodeIndex, SEPARATOR);
        if sepIndex != 0 {
          var letterSet, extSet := GetLetterSets(kwg, sepIndex);
          leftx := extSet;
        } else {
          leftx := {};
        }
      } else {
        leftx := {};
      }
    }
  }

  /** A back hook of the tiles to the left is a letter some node of the
    * reached run carries: one the DAWG has an arc for after them. */
  lemma RightExtMeaning(kwg: seq<Node>, left: seq<MachineLetter>, l: MachineLetter)
    requires WellFormed(kwg) && left != []
    ensures l in RightExtOf(kwg, left) <==>
      l != 0 && Walk(kwg, DawgRoot(kwg), Unblank(left)).Some? &&
      Find(kwg, Walk(kwg, DawgRoot(kwg), Unblank(left)).value, l).Some?
  {
    match Walk(kwg, DawgRoot(kwg), Unblank(left))
    case None =>
    case Some(n) =>
      ExtSetMeaning(kwg, n, l);
      FindMeaning(kwg, n, l);
  }

  /** A front hook of the tiles to the right is a letter the GADDAG has an arc
    * for after the reversed tiles and the separator. */
  lemma LeftExtMeaning(kwg: seq<Node>, right: seq<MachineLetter>, l: MachineLetter)
    requires WellFormed(kwg) && right != []
    ensures l in LeftExtOf(kwg, right) <==>
      l != 0 && Walk(kwg, GaddagRoot(kwg), Reverse(Unblank(right)) + [SEPARATOR]).Some? &&
      Find(kwg, Walk(kwg, GaddagRoot(kwg), Reverse(Unblank(right)) + [SEPARATOR]).value, l).Some?
  {
    var r := Reverse(Unblank(right));
    WalkAppend(kwg, GaddagRoot(kwg), r, [SEPARATOR]);
    match Walk(kwg, GaddagRoot(kwg), r)
    case None =>
    case Some(n) =>
      assert [SEPARATOR][1..] == [];
      var sep := ArcFor(kwg, n, SEPARATOR);
      if sep != 0 {
        ExtSetMeaning(kwg, sep, l);
        FindMeaning(kwg, sep, l);
      }
  }

  /** With nothing below the square, the cross set is the letter set of the run
    * the tiles above reach, so every such letter is also a back hook of them. */
  lemma CrossSetWithinRightExt(kwg: seq<Node>, prefix: seq<MachineLetter>)
    requires WellFormed(kwg) && prefix != []
    ensures CrossSetOf(kwg, prefix, []) <= RightExtOf(kwg, prefix)
  {
    match Walk(kwg, DawgRoot(kwg), Unblank(prefix))
    case None =>
    case Some(n) =>
      assert Unblank([]) == [];
      CrossSetIsLetterSet(kwg, n);
      LetterSetWithinExtSet(kwg, n);
  }

  /** Without a suffix a node contributes exactly when its letter tile accepts. */
  lemma {:induction false} CrossSetIsLetterSet(kwg: seq<Node>, i: nat)
    requires WellFormed(kwg) && i < |kwg|
    ensures CrossSetFrom(kwg, i, []) == LetterSetFrom(kwg, i)
    decreases |kwg| - i
  {
    if !IsEnd(kwg[i]) {
      CrossSetIsLetterSet(kwg, i + 1);
    }
  }
}
