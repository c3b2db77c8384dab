// Choosing among moves in src/movegen.c: the tie-breaking order of
// is_better_move, the final swap of sort_moves_by_score and the exchange
// enumeration of generate_exchange_moves.
module MovegenBest {
  import opened Defs
  import opened Equity
  import opened BoardTables
  import opened Wrappers
  import opened LeaveMaps
  import Game

  // ---------------------------------------------------------------------
  // The tie-breaking order

  /** Strict lexicographic order on integer sequences: the first difference
    * decides, and a proper prefix comes first. */
  predicate LexLess(a: seq<int>, b: seq<int>)
    decreases |a|
  {
    |b| > 0 && (|a| == 0 || a[0] < b[0] || (a[0] == b[0] && LexLess(a[1..], b[1..])))
  }

  lemma {:induction false} LexIrreflexive(a: seq<int>)
    ensures !LexLess(a, a)
    decreases |a|
  {
    if |a| > 0 {
      LexIrreflexive(a[1..]);
    }
  }

  lemma {:induction false} LexTransitive(a: seq<int>, b: seq<int>, c: seq<int>)
    requires LexLess(a, b) && LexLess(b, c)
    ensures LexLess(a, c)
    decreases |a|
  {
    if |a| > 0 && a[0] == b[0] && b[0] == c[0] {
      LexTransitive(a[1..], b[1..], c[1..]);
    }
  }

  lemma {:induction false} LexTotal(a: seq<int>, b: seq<int>)
    requires a != b
    ensures LexLess(a, b) || LexLess(b, a)
    decreases |a|
  {
    if |a| > 0 && |b| > 0 && a[0] == b[0] {
      assert a == [a[0]] + a[1..] && b == [b[0]] + b[1..];
      LexTotal(a[1..], b[1..]);
    }
  }

  lemma LexCons(x: int, a: seq<int>, y: int, b: seq<int>)
    ensures LexLess([x] + a, [y] + b) <==> x < y || (x == y && LexLess(a, b))
  {
    assert ([x] + a)[1..] == a && ([y] + b)[1..] == b;
  }

  /** A move's fields as the fields of a recorded best move: the direction is
    * 0 or 1 and the tile count fits the tiles held. */
  predicate WellFormedMove(m: Move)
  {
    0 <= m.tilesLength <= |m.tiles| && (m.dir == DIR_H || m.dir == DIR_V)
  }

  function TilesOf(m: Move): seq<MachineLetter>
    requires WellFormedMove(m)
  {
    m.tiles[..m.tilesLength]
  }

  /** The sort key of Magpie's tie-breaking rules: higher equity, then higher
    * score, then lower row, lower column, horizontal before vertical, fewer
    * tiles played, a shorter line and lexicographically lower tiles. */
  function Key(m: Move): seq<int>
    requires WellFormedMove(m)
  {
    [-m.equity] + ([-m.score] + ([m.rowStart] + ([m.colStart] + ([m.dir] +
      ([m.tilesPlayed] + ([m.tilesLength] + TilesOf(m)))))))
  }

  /** Move a is preferred to move b. */
  predicate Better(a: Move, b: Move)
    requires WellFormedMove(a) && WellFormedMove(b)
  {
    LexLess(Key(a), Key(b))
  }

  /** The key order field by field, as is_better_move tests it. */
  lemma BetterByField(a: Move, b: Move)
    requires WellFormedMove(a) && WellFormedMove(b)
    ensures Better(a, b) <==>
      if a.equity != b.equity then a.equity > b.equity
      else if a.score != b.score then a.score > b.score
      else if a.rowStart != b.rowStart then a.rowStart < b.rowStart
      else if a.colStart != b.colStart then a.colStart < b.colStart
      else if a.dir != b.dir then a.dir < b.dir
      else if a.tilesPlayed != b.tilesPlayed then a.tilesPlayed < b.tilesPlayed
      else if a.tilesLength != b.tilesLength then a.tilesLength < b.tilesLength
      else LexLess(TilesOf(a), TilesOf(b))
  {
    var ta, tb := TilesOf(a), TilesOf(b);
    LexCons(a.tilesLength, ta, b.tilesLength, tb);
    var k6a, k6b := [a.tilesLength] + ta, [b.tilesLength] + tb;
    LexCons(a.tilesPlayed, k6a, b.tilesPlayed, k6b);
    var k5a, k5b := [a.tilesPlayed] + k6a, [b.tilesPlayed] + k6b;
    LexCons(a.dir, k5a, b.dir, k5b);
    var k4a, k4b := [a.dir] + k5a, [b.dir] + k5b;
    LexCons(a.colStart, k4a, b.colStart, k4b);
    var k3a, k3b := [a.colStart] + k4a, [b.colStart] + k4b;
    LexCons(a.rowStart, k3a, b.rowStart, k3b);
    var k2a, k2b := [a.rowStart] + k3a, [b.rowStart] + k3b;
    LexCons(-a.score, k2a, -b.score, k2b);
    var k1a, k1b := [-a.score] + k2a, [-b.score] + k2b;
    LexCons(-a.equity, k1a, -b.equity, k1b);
  }

  /** The tie-breaking is a strict order: no move beats itself (an identical
    * move is not preferred), and the preference is transitive. */
  lemma BetterIsStrictOrder(a: Move, b: Move, c: Move)
    requires WellFormedMove(a) && WellFormedMove(b) && WellFormedMove(c)
    ensures !Better(a, a)
    ensures Better(a, b) ==> !Better(b, a)
    ensures Better(a, b) && Better(b, c) ==> Better(a, c)
  {
    LexIrreflexive(Key(a));
    if Better(a, b) {
      if Better(b, a) {
        LexTransitive(Key(a), Key(b), Key(a));
      }
      if Better(b, c) {
        LexTransitive(Key(a), Key(b), Key(c));
      }
    }
  }

  /** The order is total: of two moves that differ in any compared field one
    * is preferred. */
  lemma BetterIsTotal(a: Move, b: Move)
    requires WellFormedMove(a) && WellFormedMove(b) && Key(a) != Key(b)
    ensures Better(a, b) || Better(b, a)
  {
    LexTotal(Key(a), Key(b));
  }

  /** The best move as is_better_move sees it: the stored move carrying the
    * stored best equity. */
  function AsBest(best: Move, bestEquity: int): Move
  {
    best.(equity := bestEquity)
  }

  /**
   * is_better_move: with no best yet (the INITIAL sentinel) any move wins;
   * otherwise the new move wins exactly when it comes first in the
   * tie-breaking order.
   */
  method IsBetterMove(cand: Move, bestEquity: int, best: Move) returns (better: bool)
    requires WellFormedMove(cand)
    requires bestEquity != INITIAL ==> WellFormedMove(best)
    ensures bestEquity == INITIAL ==> better
    ensures bestEquity != INITIAL ==> (better <==> Better(cand, AsBest(best, bestEquity)))
  {
    if bestEquity == INITIAL {
      return true;
    }
    ghost var b := AsBest(best, bestEquity);
    BetterByField(cand, b);
    if cand.equity != bestEquity {
      return cand.equity > bestEquity;
    }
    if cand.score != best.score {
      return cand.score > best.score;
    }
    if cand.rowStart != best.rowStart {
      return cand.rowStart < best.rowStart;
    }
    if cand.colStart != best.colStart {
      return cand.colStart < best.colStart;
    }
    if cand.dir != best.dir {
      // is_better_move returns best->dir: 1 when the best is vertical
      return best.dir != 0;
    }
    if cand.tilesPlayed != best.tilesPlayed {
      return cand.tilesPlayed < best.tilesPlayed;
    }
    if cand.tilesLength != best.tilesLength {
      return cand.tilesLength < best.tilesLength;
    }
    ghost var ta, tb := TilesOf(cand), TilesOf(b);
    var i := 0;
    while i < cand.tilesLength
      invariant 0 <= i <= cand.tilesLength
      invariant LexLess(ta, tb) == LexLess(ta[i..], tb[i..])
    {
      assert ta[i..] == [ta[i]] + ta[i + 1..] && tb[i..] == [tb[i]] + tb[i + 1..];
      LexCons(ta[i], ta[i + 1..], tb[i], tb[i + 1..]);
      if cand.tiles[i] != best.tiles[i] {
        return cand.tiles[i] < best.tiles[i];
      }
      i := i + 1;
    }
    return false;
  }

  // ---------------------------------------------------------------------
  // The final swap

  /** s with entries i and j exchanged. */
  function Swapped<T>(s: seq<T>, i: int, j: int): (r: seq<T>)
    requires 0 <= i < |s| && 0 <= j < |s|
    ensures |r| == |s|
  {
    s[i := s[j]][j := s[i]]
  }

  /** b is the first position of a highest score among the first count moves. */
  ghost predicate FirstMaxScore(s: seq<Move>, count: int, b: int)
    requires 0 <= count <= |s|
  {
    0 <= b < count &&
    (forall i :: 0 <= i < count ==> s[i].score <= s[b].score) &&
    (forall i :: 0 <= i < b ==> s[i].score < s[b].score)
  }

  /** The scan of sort_moves_by_score: the first move with the highest score. */
  method FindBestScore(moves: array<Move>, count: int) returns (bestIdx: int)
    requires 1 <= count <= moves.Length
    ensures FirstMaxScore(moves[..], count, bestIdx)
  {
    bestIdx := 0;
    var bestScore := moves[0].score;
    var i := 1;
    while i < count
      invariant 1 <= i <= count && 0 <= bestIdx < i && bestScore == moves[bestIdx].score
      invariant forall k :: 0 <= k < i ==> moves[k].score <= bestScore
      invariant forall k :: 0 <= k < bestIdx ==> moves[k].score < bestScore
    {
      if moves[i].score > bestScore {
        bestScore := moves[i].score;
        bestIdx := i;
      }
      i := i + 1;
    }
  }

  /**
   * sort_moves_by_score: with more than one move, the first move of highest
   * score trades places with slot 0; nothing else moves.
   */
  method SortMovesByScore(moves: array<Move>, count: int)
    requires 0 <= count <= moves.Length
    modifies moves
    ensures count <= 1 ==> moves[..] == old(moves[..])
    ensures count > 1 ==> exists b :: (FirstMaxScore(old(moves[..]), count, b) &&
      moves[..] == Swapped(old(moves[..]), 0, b))
  {
    if count <= 1 {
      return;
    }
    var bestIdx := FindBestScore(moves, count);
    if bestIdx != 0 {
      moves[0], moves[bestIdx] := moves[bestIdx], moves[0];
    }
  }

  /** After the swap slot 0 holds a highest score, the moves are the same
    * moves, and every slot but 0 and b is untouched. */
  lemma SwapBestFirst(s: seq<Move>, count: int, b: int)
    requires 1 < count <= |s| && FirstMaxScore(s, count, b)
    ensures forall i :: 0 <= i < count ==> Swapped(s, 0, b)[i].score <= Swapped(s, 0, b)[0].score
    ensures multiset(Swapped(s, 0, b)) == multiset(s)
    ensures forall i :: 0 <= i < |s| && i != 0 && i != b ==> Swapped(s, 0, b)[i] == s[i]
  {
    var r := Swapped(s, 0, b);
    assert r[0] == s[b];
    forall i | 0 <= i < count
      ensures r[i].score <= r[0].score
    {
      if i == b {
        assert r[i] == s[0];
      } else if i != 0 {
        assert r[i] == s[i];
      }
    }
    SwappedSame(s, b);
  }

  /** Swapping slot 0 with slot b keeps the same moves. */
  lemma SwappedSame<T>(s: seq<T>, b: int)
    requires 0 <= b < |s|
    ensures multiset(Swapped(s, 0, b)) == multiset(s)
  {
    if b != 0 {
      assert s[0 := s[b]][b] == s[b];
    }
  }

  // ---------------------------------------------------------------------
  // Exchanges

  /** Of the copies 0..k-1 of letter l, the number the mask marks: the copies
    * of l occupy bit positions SumTo(counts, l) onwards. */
  function PickedCount(counts: seq<nat>, mask: nat, l: nat, k: nat): (n: nat)
    requires l < |counts|
    ensures n <= k
  {
    if k == 0 then 0
    else PickedCount(counts, mask, l, k - 1) + (if HasBit(mask, SumTo(counts, l) + k - 1) then 1 else 0)
  }

  /** The counts the rack keeps after exchanging the tiles the mask marks. */
  function ExchangeLeave(counts: seq<nat>, mask: nat): (leave: seq<nat>)
    requires |counts| == ALPHABET_SIZE
    ensures |leave| == ALPHABET_SIZE
  {
    seq(ALPHABET_SIZE, l requires 0 <= l < ALPHABET_SIZE => counts[l] - PickedCount(counts, mask, l, counts[l]))
  }

  /** The exchanged tiles of the letters below n, in ascending letter order. */
  function ExchangedTo(counts: seq<nat>, mask: nat, n: nat): (tiles: seq<MachineLetter>)
    requires n <= |counts| == ALPHABET_SIZE
  {
    if n == 0 then []
    else ExchangedTo(counts, mask, n - 1) + Game.Repeat(n - 1, PickedCount(counts, mask, n - 1, counts[n - 1]))
  }

  function Exchanged(counts: seq<nat>, mask: nat): seq<MachineLetter>
    requires |counts| == ALPHABET_SIZE
  {
    ExchangedTo(counts, mask, ALPHABET_SIZE)
  }

  lemma {:induction false} ExchangedToCount(counts: seq<nat>, mask: nat, n: nat, l: MachineLetter)
    requires n <= |counts| == ALPHABET_SIZE
    ensures multiset(ExchangedTo(counts, mask, n))[l] ==
      if l < n then PickedCount(counts, mask, l, counts[l]) else 0
  {
    if n > 0 {
      ExchangedToCount(counts, mask, n - 1, l);
      Game.RepeatCount(n - 1, PickedCount(counts, mask, n - 1, counts[n - 1]), l);
    }
  }

  /** The exchanged tiles and the leave together make up the rack, letter by
    * letter. */
  lemma ExchangeSplitsRack(counts: seq<nat>, mask: nat)
    requires |counts| == ALPHABET_SIZE
    ensures forall l :: 0 <= l < ALPHABET_SIZE ==>
      ExchangeLeave(counts, mask)[l] + multiset(Exchanged(counts, mask))[l] == counts[l]
  {
    forall l | 0 <= l < ALPHABET_SIZE
      ensures ExchangeLeave(counts, mask)[l] + multiset(Exchanged(counts, mask))[l] == counts[l]
    {
      ExchangedToCount(counts, mask, ALPHABET_SIZE, l);
    }
  }

  /** The leave value of the exchange the mask describes. */
  function MaskValue(leaveOf: seq<nat> -> int, counts: seq<nat>, mask: nat): int
    requires |counts| == ALPHABET_SIZE
  {
    leaveOf(ExchangeLeave(counts, mask))
  }

  /** The fields generate_exchange_moves writes when it records an exchange;
    * the equity field and the tiles past the exchanged ones keep their values. */
  ghost predicate RecordsExchange(best: Move, before: Move, tiles: seq<MachineLetter>)
  {
    best.moveType == Exchange && best.rowStart == 0 && best.colStart == 0 &&
    best.dir == 0 && best.tilesPlayed == |tiles| && best.tilesLength == |tiles| &&
    best.score == 0 && best.equity == before.equity &&
    |best.tiles| == |before.tiles| && |tiles| <= |best.tiles| && best.tiles[..|tiles|] == tiles
  }

  /** After the masks below `upto`: the stored equity is the highest leave
    * value seen (or INITIAL when none beat it), recorded with the first mask
    * that reached it. */
  ghost predicate ExchangeSoFar(leaveOf: seq<nat> -> int, counts: seq<nat>, upto: nat,
                                before: Move, best: Move, equity: int)
    requires |counts| == ALPHABET_SIZE
  {
    INITIAL <= equity &&
    (forall m :: 1 <= m < upto ==> MaskValue(leaveOf, counts, m) <= equity) &&
    (equity == INITIAL ==> best == before) &&
    (equity > INITIAL ==> exists m :: (1 <= m < upto && MaskValue(leaveOf, counts, m) == equity &&
      (forall m' :: 1 <= m' < m ==> MaskValue(leaveOf, counts, m') < equity) &&
      RecordsExchange(best, before, Exchanged(counts, m))))
  }

  /** Letters from l on have no copies once the counts below l make up the total. */
  lemma {:induction false} NothingAfter(counts: seq<nat>, l: nat, x: nat)
    requires l <= x < |counts| && SumTo(counts, l) == SumTo(counts, |counts|)
    ensures counts[x] == 0
  {
    Game.SumToBounds(counts, |counts|, x);
    Game.SumToBounds(counts, x, l);
  }

  /**
   * The inner loops of generate_exchange_moves for one mask: walking the
   * rack's tiles letter by letter, bit position by bit position, the tiles
   * whose bit is set leave the rack and join the exchange.
   */
  method SplitByMask(counts: seq<nat>, total: nat, mask: nat) returns (leave: seq<nat>, tiles: seq<MachineLetter>)
    requires |counts| == ALPHABET_SIZE && total == SumTo(counts, ALPHABET_SIZE)
    ensures leave == ExchangeLeave(counts, mask) && tiles == Exchanged(counts, mask)
  {
    leave := counts;
    tiles := [];
    var bitPos := 0;
    var ml := 0;
    while ml < ALPHABET_SIZE && bitPos < total
      invariant 0 <= ml <= ALPHABET_SIZE && bitPos == SumTo(counts, ml)
      invariant |leave| == ALPHABET_SIZE && tiles == ExchangedTo(counts, mask, ml)
      invariant forall l :: 0 <= l < ml ==> leave[l] == ExchangeLeave(counts, mask)[l]
      invariant forall l :: ml <= l < ALPHABET_SIZE ==> leave[l] == counts[l]
    {
      var c := 0;
      while c < counts[ml]
        invariant 0 <= c <= counts[ml] && bitPos == SumTo(counts, ml) + c
        invariant |leave| == ALPHABET_SIZE
        invariant tiles == ExchangedTo(counts, mask, ml) + Game.Repeat(ml, PickedCount(counts, mask, ml, c))
        invariant forall l :: 0 <= l < ml ==> leave[l] == ExchangeLeave(counts, mask)[l]
        invariant leave[ml] == counts[ml] - PickedCount(counts, mask, ml, c)
        invariant forall l :: ml < l < ALPHABET_SIZE ==> leave[l] == counts[l]
      {
        if HasBit(mask, bitPos) {
          leave := leave[ml := leave[ml] - 1];
          tiles := tiles + [ml];
        }
        bitPos := bitPos + 1;
        c := c + 1;
      }
      ml := ml + 1;
    }
    Game.SumToBounds(counts, ALPHABET_SIZE, ml);
    forall l | ml <= l < ALPHABET_SIZE
      ensures counts[l] == 0
    {
      NothingAfter(counts, ml, l);
    }
    ExchangedRest(counts, mask, ml, ALPHABET_SIZE);
    assert leave == ExchangeLeave(counts, mask);
  }

  /** Letters with no copies add no exchanged tiles. */
  lemma {:induction false} ExchangedRest(counts: seq<nat>, mask: nat, from: nat, n: nat)
    requires from <= n <= |counts| == ALPHABET_SIZE
    requires forall l :: from <= l < ALPHABET_SIZE ==> counts[l] == 0
    ensures ExchangedTo(counts, mask, n) == ExchangedTo(counts, mask, from)
  {
    if n > from {
      ExchangedRest(counts, mask, from, n - 1);
    }
  }

  /**
   * generate_exchange_moves: nothing happens with fewer than 7 tiles in the
   * bag, no bag, or no leave table. Otherwise every non-empty subset of the
   * rack is tried, as the masks 1..2^total-1, and the exchange with the
   * highest leave value strictly above INITIAL is recorded: the first mask
   * to reach it wins ties. The leave table is the function leaveOf from a
   * rack's counts to its leave value.
   */
  method GenerateExchangeMoves(bagCount: Option<nat>, leaveOf: Option<seq<nat> -> int>,
                               counts: seq<nat>, total: nat, before: Move, equityBefore: int)
    returns (best: Move, equity: int)
    requires |counts| == ALPHABET_SIZE && total == SumTo(counts, ALPHABET_SIZE) && total <= RACK_SIZE
    requires |before.tiles| >= RACK_SIZE
    ensures bagCount.None? || bagCount.value < RACK_SIZE || leaveOf.None? ==>
      best == before && equity == equityBefore
    ensures bagCount.Some? && bagCount.value >= RACK_SIZE && leaveOf.Some? ==>
      ExchangeSoFar(leaveOf.value, counts, Pow2(total), before, best, equity)
  {
    best, equity := before, equityBefore;
    if bagCount.None? || bagCount.value < RACK_SIZE {
      return;
    }
    if leaveOf.None? {
      return;
    }
    var f := leaveOf.value;
    equity := INITIAL;
    var maxMask := Pow2(total) - 1;
    var mask := 1;
    while mask <= maxMask
      invariant 1 <= mask <= maxMask + 1
      invariant |best.tiles| == |before.tiles| && ExchangeSoFar(f, counts, mask, before, best, equity)
    {
      best, equity := TryMask(f, counts, total, mask, before, best, equity);
      mask := mask + 1;
    }
  }

  /** One pass of the mask loop: mask's exchange is recorded when its leave beats the best so far. */
  method TryMask(f: seq<nat> -> int, counts: seq<nat>, total: nat, mask: nat, before: Move, best: Move, equity: int)
    returns (best': Move, equity': int)
    requires |counts| == ALPHABET_SIZE && total == SumTo(counts, ALPHABET_SIZE) && total <= RACK_SIZE
    requires |before.tiles| >= RACK_SIZE && |best.tiles| == |before.tiles|
    requires 1 <= mask && ExchangeSoFar(f, counts, mask, before, best, equity)
    ensures |best'.tiles| == |before.tiles| && ExchangeSoFar(f, counts, mask + 1, before, best', equity')
  {
    var leave, tiles := SplitByMask(counts, total, mask);
    var value := f(leave);
    ExchangedSize(counts, mask);
    if value > equity {
      equity' := value;
      best' := best.(moveType := Exchange, rowStart := 0, colStart := 0, dir := 0,
                     tilesPlayed := |tiles|, tilesLength := |tiles|, score := 0,
                     tiles := tiles + best.tiles[|tiles|..]);
      assert RecordsExchange(best', before, Exchanged(counts, mask));
      ExchangeImproves(f, counts, mask, before, best, equity, best');
    } else {
      best', equity' := best, equity;
      ExchangeKeeps(f, counts, mask, before, best, equity);
    }
  }

  /** A mask whose value does not beat the best leaves the best as it is. */
  lemma ExchangeKeeps(f: seq<nat> -> int, counts: seq<nat>, mask: nat, before: Move, best: Move, equity: int)
    requires |counts| == ALPHABET_SIZE && ExchangeSoFar(f, counts, mask, before, best, equity)
    requires MaskValue(f, counts, mask) <= equity
    ensures ExchangeSoFar(f, counts, mask + 1, before, best, equity)
  {
    if equity > INITIAL {
      var m :| 1 <= m < mask && MaskValue(f, counts, m) == equity &&
        (forall m' :: 1 <= m' < m ==> MaskValue(f, counts, m') < equity) &&
        RecordsExchange(best, before, Exchanged(counts, m));
      assert 1 <= m < mask + 1;
    }
  }

  /** A mask whose value beats the best becomes the best, recorded with that mask. */
  lemma ExchangeImproves(f: seq<nat> -> int, counts: seq<nat>, mask: nat, before: Move, best: Move, equity: int, best': Move)
    requires |counts| == ALPHABET_SIZE && 1 <= mask && ExchangeSoFar(f, counts, mask, before, best, equity)
    requires MaskValue(f, counts, mask) > equity
    requires RecordsExchange(best', before, Exchanged(counts, mask))
    ensures ExchangeSoFar(f, counts, mask + 1, before, best', MaskValue(f, counts, mask))
  {
  }

  /** No more tiles are exchanged than the rack holds. */
  lemma ExchangedSize(counts: seq<nat>, mask: nat)
    requires |counts| == ALPHABET_SIZE
    ensures |Exchanged(counts, mask)| <= SumTo(counts, ALPHABET_SIZE)
  {
    ExchangedToSize(counts, mask, ALPHABET_SIZE);
  }

  lemma {:induction false} ExchangedToSize(counts: seq<nat>, mask: nat, n: nat)
    requires n <= |counts| == ALPHABET_SIZE
    ensures |ExchangedTo(counts, mask, n)| <= SumTo(counts, n)
  {
    if n > 0 {
      ExchangedToSize(counts, mask, n - 1);
    }
  }
}
