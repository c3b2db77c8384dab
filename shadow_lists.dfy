// The sorted lists behind the shadow search's upper bound (src/movegen.c):
// the rack's tile scores in descending order, the multipliers of the
// squares any tile may take, and the effective letter multipliers derived
// from them. The lists are fixed arrays of RACK_SIZE entries in the
// generator state, updated in place.
module ShadowLists {
  import opened Defs
  import opened BoardTables
  import opened Wrappers
  import opened Game
  import opened Scoring
  import opened MovegenScores

  // ---------------------------------------------------------------------
  // Lists kept in descending order of a key

  /** Each entry is at least every later one. */
  predicate Descending(s: seq<int>)
  {
    forall i, j :: 0 <= i < j < |s| ==> s[i] >= s[j]
  }

  /**
   * Where the insertion loop stops when it walks left from n past the
   * entries below k.
   */
  function InsertPos(s: seq<int>, n: nat, k: int): (p: nat)
    requires n <= |s|
    ensures p <= n
  {
    if n == 0 || s[n - 1] >= k then n else InsertPos(s, n - 1, k)
  }

  /** Everything from the stopping point to n is below k; the entry before it is not. */
  lemma {:induction false} InsertPosFacts(s: seq<int>, n: nat, k: int)
    requires n <= |s|
    ensures var p := InsertPos(s, n, k);
      (p == 0 || s[p - 1] >= k) && forall i :: p <= i < n ==> s[i] < k
  {
    if n > 0 && s[n - 1] < k {
      InsertPosFacts(s, n - 1, k);
    }
  }

  /** x put in at p, the entries p..n-1 moved up one place; the rest kept. */
  function Inserted<T>(s: seq<T>, n: nat, x: T, p: nat): seq<T>
    requires p <= n < |s|
  {
    s[..p] + [x] + s[p..n] + s[n + 1..]
  }

  lemma InsertedAt<T>(s: seq<T>, n: nat, x: T, p: nat)
    requires p <= n < |s|
    ensures var r := Inserted(s, n, x, p);
      |r| == |s| && r[p] == x &&
      (forall k :: 0 <= k < p ==> r[k] == s[k]) &&
      (forall k :: p < k <= n ==> r[k] == s[k - 1]) &&
      (forall k :: n < k < |s| ==> r[k] == s[k])
  {
  }

  /** A list that agrees with the insertion everywhere is the insertion. */
  lemma IsInserted<T>(s: seq<T>, r: seq<T>, n: nat, x: T, p: nat)
    requires p <= n < |s| == |r| && r[p] == x
    requires forall k :: 0 <= k < p ==> r[k] == s[k]
    requires forall k :: p < k <= n ==> r[k] == s[k - 1]
    requires forall k :: n < k < |s| ==> r[k] == s[k]
    ensures r == Inserted(s, n, x, p)
  {
    InsertedAt(s, n, x, p);
  }

  /** The insertion keeps the old n entries and adds x; the slots after them are untouched. */
  lemma InsertedPerm<T>(s: seq<T>, n: nat, x: T, p: nat)
    requires p <= n < |s|
    ensures multiset(Inserted(s, n, x, p)[..n + 1]) == multiset(s[..n]) + multiset{x}
    ensures Inserted(s, n, x, p)[n + 1..] == s[n + 1..]
  {
    assert Inserted(s, n, x, p)[..n + 1] == s[..p] + [x] + s[p..n];
    assert s[..n] == s[..p] + s[p..n];
  }

  /** Inserting at the stopping point keeps a descending list descending. */
  lemma InsertedSorted(s: seq<int>, n: nat, x: int, p: nat)
    requires p <= n < |s| && Descending(s[..n])
    requires p == 0 || s[p - 1] >= x
    requires forall k :: p <= k < n ==> s[k] < x
    ensures Descending(Inserted(s, n, x, p)[..n + 1])
  {
    var r := Inserted(s, n, x, p);
    InsertedAt(s, n, x, p);
    var t := r[..n + 1];
    forall i, j | 0 <= i < j < |t|
      ensures t[i] >= t[j]
    {
      var i' := if i <= p then i else i - 1;
      var j' := if j <= p then j else j - 1;
      if i < p && j == p {
        assert s[..n][i] >= s[..n][p - 1];
      } else if i != p && j != p {
        assert s[..n][i'] >= s[..n][j'];
      }
    }
  }

  /**
   * Inserting into a descending list of n entries gives a descending list of
   * n + 1 entries: the old ones and x; the slots after them are untouched.
   */
  lemma InsertSorted(s: seq<int>, n: nat, x: int)
    requires n < |s| && Descending(s[..n])
    ensures var r := Inserted(s, n, x, InsertPos(s, n, x));
      |r| == |s| && Descending(r[..n + 1]) &&
      multiset(r[..n + 1]) == multiset(s[..n]) + multiset{x} &&
      r[n + 1..] == s[n + 1..]
  {
    var p := InsertPos(s, n, x);
    InsertPosFacts(s, n, x);
    InsertedSorted(s, n, x, p);
    InsertedPerm(s, n, x, p);
  }

  // ---------------------------------------------------------------------
  // The rack's tile scores

  /** The scores in eighths of a run of letters. */
  function TileScoresOf(ts: seq<MachineLetter>): (r: seq<int>)
    requires forall k :: 0 <= k < |ts| ==> IsLetter(ts[k])
    ensures |r| == |ts| && forall k :: 0 <= k < |ts| ==> r[k] == Score8(ts[k])
  {
    if ts == [] then [] else TileScoresOf(ts[..|ts| - 1]) + [Score8(ts[|ts| - 1])]
  }

  function Min(a: int, b: int): int { if a <= b then a else b }

  /** The rack's letters in ascending order, at most RACK_SIZE of them. */
  function FirstTiles(counts: seq<nat>): (r: seq<MachineLetter>)
    requires |counts| == ALPHABET_SIZE
    ensures |r| == Min(SumTo(counts, ALPHABET_SIZE), RACK_SIZE)
    ensures forall k :: 0 <= k < |r| ==> IsLetter(r[k])
  {
    var t := Expand(counts, ALPHABET_SIZE);
    ExpandSorted(counts, ALPHABET_SIZE);
    t[..Min(|t|, RACK_SIZE)]
  }

  /** A rack of at most RACK_SIZE tiles gives up all of them. */
  lemma FirstTilesAll(counts: seq<nat>)
    requires |counts| == ALPHABET_SIZE && SumTo(counts, ALPHABET_SIZE) <= RACK_SIZE
    ensures multiset(FirstTiles(counts)) == RackTiles(counts)
  {
    var t := Expand(counts, ALPHABET_SIZE);
    assert t[..|t|] == t;
  }

  // ---------------------------------------------------------------------
  // Removing a score

  /** The rightmost index below limit holding x. */
  function LastIndex(s: seq<int>, x: int, limit: nat): (r: Option<nat>)
    requires limit <= |s|
    ensures r.Some? ==> r.value < limit && s[r.value] == x
    ensures r.Some? ==> forall k :: r.value < k < limit ==> s[k] != x
    ensures r.None? ==> forall k :: 0 <= k < limit ==> s[k] != x
  {
    if limit == 0 then None
    else if s[limit - 1] == x then Some(limit - 1)
    else LastIndex(s, x, limit - 1)
  }

  /**
   * The list after the removal loop, searching the slots below limit: the
   * rightmost match goes, the entries after it up to slot count move down
   * one place and slot count becomes 0; with no match nothing changes.
   */
  function Removed(s: seq<int>, count: nat, x: int, limit: nat): seq<int>
    requires count < |s| && limit <= count + 1
  {
    match LastIndex(s, x, limit)
    case None => s
    case Some(f) => Dropped(s, count, f)
  }

  /** The removal as the generator calls it: with count already decremented. */
  function RemoveAsWritten(s: seq<int>, count: nat, x: int): seq<int>
    requires count < |s|
  {
    Removed(s, count, x, count)
  }

  /** The removal searching all count + 1 entries the list holds at the call. */
  function RemoveScore(s: seq<int>, count: nat, x: int): seq<int>
    requires count < |s|
  {
    Removed(s, count, x, count + 1)
  }

  /**
   * What taking one tile's score out of a list of count + 1 scores should
   * give: the other count scores in front, slot count cleared, the rest kept.
   */
  ghost predicate RemovesOne(s: seq<int>, r: seq<int>, count: nat, x: int)
    requires count < |s|
  {
    |r| == |s| &&
    multiset(r[..count]) == multiset(s[..count + 1]) - multiset{x} &&
    r[count] == 0 && r[count + 1..] == s[count + 1..]
  }

  /** The list with slot i dropped, the later ones moved down and slot count cleared. */
  function Dropped(s: seq<int>, count: nat, i: nat): seq<int>
    requires i <= count < |s|
  {
    s[..i] + s[i + 1..count + 1] + [0] + s[count + 1..]
  }

  lemma DroppedAt(s: seq<int>, count: nat, i: nat)
    requires i <= count < |s|
    ensures var r := Dropped(s, count, i);
      |r| == |s| && r[count] == 0 &&
      (forall k :: 0 <= k < i ==> r[k] == s[k]) &&
      (forall k :: i <= k < count ==> r[k] == s[k + 1]) &&
      r[count + 1..] == s[count + 1..]
  {
  }

  lemma DroppedPerm(s: seq<int>, count: nat, i: nat)
    requires i <= count < |s|
    ensures multiset(Dropped(s, count, i)[..count]) == multiset(s[..count + 1]) - multiset{s[i]}
  {
    assert Dropped(s, count, i)[..count] == s[..i] + s[i + 1..count + 1];
    assert s[..count + 1] == s[..i] + [s[i]] + s[i + 1..count + 1];
  }

  lemma DroppedSorted(s: seq<int>, count: nat, i: nat)
    requires i <= count < |s| && Descending(s[..count + 1])
    ensures Descending(Dropped(s, count, i)[..count])
  {
    var r := Dropped(s, count, i);
    DroppedAt(s, count, i);
    var t := r[..count];
    forall a, b | 0 <= a < b < |t|
      ensures t[a] >= t[b]
    {
      var a' := if a < i then a else a + 1;
      var b' := if b < i then b else b + 1;
      assert s[..count + 1][a'] >= s[..count + 1][b'];
    }
  }

  /** Searching all count + 1 entries removes one copy and keeps the order. */
  lemma RemoveScoreRemovesOne(s: seq<int>, count: nat, x: int)
    requires count < |s| && x in s[..count + 1] && Descending(s[..count + 1])
    ensures RemovesOne(s, RemoveScore(s, count, x), count, x)
    ensures Descending(RemoveScore(s, count, x)[..count])
  {
    var i := LastIndex(s, x, count + 1).value;
    assert RemoveScore(s, count, x) == Dropped(s, count, i);
    DroppedAt(s, count, i);
    DroppedPerm(s, count, i);
    DroppedSorted(s, count, i);
  }

  /**
   * The generator calls the removal after decrementing the rack total, so
   * the list holds count + 1 scores but only the first count are searched.
   * With Q (80) and A (8) on the rack and the A taken, the 8 in slot 1 is
   * never found: slot 1 keeps 8 instead of becoming 0.
   */
  lemma RemoveMissesLastSlot()
    ensures var s := [80, 8, 0, 0, 0, 0, 0];
      Descending(s[..2]) && 8 in s[..2] &&
      RemoveAsWritten(s, 1, 8) == s &&
      !RemovesOne(s, RemoveAsWritten(s, 1, 8), 1, 8) &&
      RemovesOne(s, RemoveScore(s, 1, 8), 1, 8)
  {
    var s := [80, 8, 0, 0, 0, 0, 0];
    assert s[..2] == [80, 8];
    assert LastIndex(s, 8, 0) == None;
    assert LastIndex(s, 8, 1) == None;
    assert LastIndex(s, 8, 2) == Some(1);
    assert RemoveScore(s, 1, 8) == [80, 0, 0, 0, 0, 0, 0];
    assert RemoveScore(s, 1, 8)[..1] == [80];
  }

  // ---------------------------------------------------------------------
  // Multipliers of the squares any tile may take

  /** UnrestrictedMultiplier: a cross-word multiplier and its column. */
  datatype UnrestrictedMultiplier = UnrestrictedMultiplier(multiplier: int, column: int)

  function Multipliers(us: seq<UnrestrictedMultiplier>): (r: seq<int>)
    ensures |r| == |us| && forall k :: 0 <= k < |us| ==> r[k] == us[k].multiplier
  {
    seq(|us|, k requires 0 <= k < |us| => us[k].multiplier)
  }

  lemma MultipliersInserted(s: seq<UnrestrictedMultiplier>, n: nat, u: UnrestrictedMultiplier, p: nat)
    requires p <= n < |s|
    ensures Multipliers(s[..n]) == Multipliers(s)[..n]
    ensures Multipliers(Inserted(s, n, u, p)[..n + 1]) == Inserted(Multipliers(s), n, u.multiplier, p)[..n + 1]
  {
    var a := Inserted(s, n, u, p)[..n + 1];
    var b := Inserted(Multipliers(s), n, u.multiplier, p)[..n + 1];
    assert forall k :: 0 <= k < p ==> a[k] == s[k] && b[k] == Multipliers(s)[k];
    assert a[p] == u && b[p] == u.multiplier;
    assert forall k :: p < k <= n ==> a[k] == s[k - 1] && b[k] == Multipliers(s)[k - 1];
  }

  /** The effective letter multiplier of a square under word multiplier wm. */
  function EffOf(u: UnrestrictedMultiplier, wm: int, bonuses: seq<Bonus>): int
    requires 0 <= u.column < |bonuses|
  {
    MultSmall(wm, LetterMult(bonuses[u.column])) + u.multiplier
  }

  predicate OnRow(us: seq<UnrestrictedMultiplier>, width: int)
  {
    forall k :: 0 <= k < |us| ==> 0 <= us[k].column < width
  }

  function EffsOf(us: seq<UnrestrictedMultiplier>, wm: int, bonuses: seq<Bonus>): (r: seq<int>)
    requires OnRow(us, |bonuses|)
    ensures |r| == |us|
  {
    if us == [] then [] else EffsOf(us[..|us| - 1], wm, bonuses) + [EffOf(us[|us| - 1], wm, bonuses)]
  }

  lemma {:induction false} EffsOfAppend(a: seq<UnrestrictedMultiplier>, b: seq<UnrestrictedMultiplier>, wm: int, bonuses: seq<Bonus>)
    requires OnRow(a, |bonuses|) && OnRow(b, |bonuses|)
    ensures OnRow(a + b, |bonuses|)
    ensures EffsOf(a + b, wm, bonuses) == EffsOf(a, wm, bonuses) + EffsOf(b, wm, bonuses)
    decreases |b|
  {
    if b == [] {
      assert a + b == a;
    } else {
      var b' := b[..|b| - 1];
      assert (a + b)[..|a + b| - 1] == a + b';
      EffsOfAppend(a, b', wm, bonuses);
    }
  }

  /** Putting one more square into the list adds its effective multiplier. */
  lemma EffsOfInserted(s: seq<UnrestrictedMultiplier>, n: nat, u: UnrestrictedMultiplier, p: nat,
                       wm: int, bonuses: seq<Bonus>)
    requires p <= n < |s| && OnRow(s[..n], |bonuses|) && 0 <= u.column < |bonuses|
    ensures OnRow(Inserted(s, n, u, p)[..n + 1], |bonuses|)
    ensures multiset(EffsOf(Inserted(s, n, u, p)[..n + 1], wm, bonuses)) ==
            multiset(EffsOf(s[..n], wm, bonuses)) + multiset{EffOf(u, wm, bonuses)}
  {
    var t := Inserted(s, n, u, p)[..n + 1];
    var a := s[..p];
    var b := s[p..n];
    assert t == a + [u] + b;
    assert s[..n] == a + b;
    EffsOfSplit(a, u, b, wm, bonuses);
  }

  lemma EffsOfSplit(a: seq<UnrestrictedMultiplier>, u: UnrestrictedMultiplier, b: seq<UnrestrictedMultiplier>,
                    wm: int, bonuses: seq<Bonus>)
    requires OnRow(a + b, |bonuses|) && 0 <= u.column < |bonuses|
    ensures OnRow(a + [u] + b, |bonuses|)
    ensures multiset(EffsOf(a + [u] + b, wm, bonuses)) ==
            multiset(EffsOf(a + b, wm, bonuses)) + multiset{EffOf(u, wm, bonuses)}
  {
    OnRowSplit(a, b, |bonuses|);
    var ea := EffsOf(a, wm, bonuses);
    var eb := EffsOf(b, wm, bonuses);
    var e := EffOf(u, wm, bonuses);
    EffsOfAppend(a, [u], wm, bonuses);
    assert EffsOf([u], wm, bonuses) == [e];
    EffsOfAppend(a + [u], b, wm, bonuses);
    EffsOfAppend(a, b, wm, bonuses);
    assert EffsOf(a + [u] + b, wm, bonuses) == ea + [e] + eb;
    assert EffsOf(a + b, wm, bonuses) == ea + eb;
  }

  lemma OnRowSplit(a: seq<UnrestrictedMultiplier>, b: seq<UnrestrictedMultiplier>, width: int)
    requires OnRow(a + b, width)
    ensures OnRow(a, width) && OnRow(b, width)
  {
    assert forall k :: 0 <= k < |a| ==> a[k] == (a + b)[k];
    assert forall k :: 0 <= k < |b| ==> b[k] == (a + b)[|a| + k];
  }

  /** One more square at the end of the list adds its effective multiplier. */
  lemma EffsOfSnoc(s: seq<UnrestrictedMultiplier>, i: nat, wm: int, bonuses: seq<Bonus>)
    requires i < |s| && OnRow(s[..i + 1], |bonuses|)
    ensures OnRow(s[..i], |bonuses|)
    ensures EffsOf(s[..i + 1], wm, bonuses) == EffsOf(s[..i], wm, bonuses) + [EffOf(s[i], wm, bonuses)]
  {
    assert s[..i + 1][..i] == s[..i];
  }

  /**
   * The first i effective multipliers are those of the first i listed
   * squares under word multiplier wm, in descending order.
   */
  ghost predicate EffsPrefix(es: seq<int>, us: seq<UnrestrictedMultiplier>, i: nat, wm: int, bonuses: seq<Bonus>)
  {
    i <= |es| && i <= |us| && OnRow(us[..i], |bonuses|) &&
    Descending(es[..i]) &&
    multiset(es[..i]) == multiset(EffsOf(us[..i], wm, bonuses))
  }

  /** A sorted insertion of the next square's multiplier extends the prefix by one. */
  lemma EffsPrefixStep(es: seq<int>, after: seq<int>, us: seq<UnrestrictedMultiplier>, i: nat, wm: int,
                       bonuses: seq<Bonus>, n: nat)
    requires EffsPrefix(es, us, i, wm, bonuses) && i < n <= |us| && i < |es|
    requires OnRow(us[..n], |bonuses|)
    requires 0 <= us[i].column < |bonuses|
    requires after == Inserted(es, i, EffOf(us[i], wm, bonuses), InsertPos(es, i, EffOf(us[i], wm, bonuses)))
    ensures EffsPrefix(after, us, i + 1, wm, bonuses)
  {
    assert us[..n][i] == us[i];
    assert us[..i + 1] == us[..n][..i + 1];
    var eff := EffOf(us[i], wm, bonuses);
    InsertSorted(es, i, eff);
    EffsOfSnoc(us, i, wm, bonuses);
  }

  /**
   * The first n squares are in descending order of cross-word multiplier,
   * on the row, and the first n effective multipliers are theirs under wm,
   * in descending order.
   */
  ghost predicate ListsOf(us: seq<UnrestrictedMultiplier>, es: seq<int>, n: nat, wm: int, bonuses: seq<Bonus>)
  {
    n <= |us| && Descending(Multipliers(us[..n])) && EffsPrefix(es, us, n, wm, bonuses)
  }

  /** Adding one square to both lists, each by sorted insertion, keeps them consistent. */
  lemma ListsOfInsert(us: seq<UnrestrictedMultiplier>, es: seq<int>, n: nat, wm: int, bonuses: seq<Bonus>,
                      u: UnrestrictedMultiplier, us': seq<UnrestrictedMultiplier>, es': seq<int>)
    requires ListsOf(us, es, n, wm, bonuses) && n < |us| && n < |es| && 0 <= u.column < |bonuses|
    requires us' == Inserted(us, n, u, InsertPos(Multipliers(us), n, u.multiplier))
    requires es' == Inserted(es, n, EffOf(u, wm, bonuses), InsertPos(es, n, EffOf(u, wm, bonuses)))
    ensures ListsOf(us', es', n + 1, wm, bonuses)
    ensures multiset(us'[..n + 1]) == multiset(us[..n]) + multiset{u}
  {
    var ms := Multipliers(us);
    var p := InsertPos(ms, n, u.multiplier);
    var eff := EffOf(u, wm, bonuses);
    MultipliersInserted(us, n, u, p);
    InsertSorted(ms, n, u.multiplier);
    InsertSorted(es, n, eff);
    EffsOfInserted(us, n, u, p, wm, bonuses);
    InsertedPerm(us, n, u, p);
    assert Multipliers(us'[..n + 1]) == Inserted(ms, n, u.multiplier, p)[..n + 1];
  }

  /**
   * A square's cross-word multiplier: its letter times its word multiplier
   * when a cross word forms there (cross score not negative), 0 otherwise.
   */
  function CrossWordMultOf(bonus: Bonus, crossScore: int): (r: int)
    ensures crossScore < 0 ==> r == 0
    ensures crossScore >= 0 ==> 1 <= r <= 9
  {
    LetterMult(bonus) * WordMult(bonus) * (if crossScore >= 0 then 1 else 0)
  }

  // ---------------------------------------------------------------------
  // The shadow part of the generator state

  class ShadowState {
    /** descending_tile_scores */
    const descending: array<int>
    /** descending_cross_word_multipliers */
    const crossWordMults: array<UnrestrictedMultiplier>
    /** descending_effective_letter_multipliers */
    const effLetterMults: array<int>
    /** the cached row's bonus squares and cross-word scores */
    const rowBonuses: array<Bonus>
    const rowCrossScores: array<int>
    var numUnrestricted: nat
    var lastWordMultiplier: int
    var shadowWordMultiplier: int

    ghost predicate Valid()
      reads this
    {
      descending.Length == RACK_SIZE && crossWordMults.Length == RACK_SIZE &&
      effLetterMults.Length == RACK_SIZE &&
      rowBonuses.Length == BOARD_DIM && rowCrossScores.Length == BOARD_DIM &&
      descending != effLetterMults && descending != rowCrossScores &&
      effLetterMults != rowCrossScores
    }

    /**
     * Both unrestricted lists are in descending order, their columns are on
     * the row, and the effective multipliers are those of the listed squares
     * under the word multiplier they were last computed for.
     */
    ghost predicate Lists()
      reads this, crossWordMults, effLetterMults, rowBonuses
      requires Valid()
    {
      numUnrestricted <= RACK_SIZE &&
      ListsOf(crossWordMults[..], effLetterMults[..], numUnrestricted, lastWordMultiplier, rowBonuses[..])
    }

    constructor ()
      ensures Valid() && numUnrestricted == 0 && Lists()
      ensures lastWordMultiplier == 1 && shadowWordMultiplier == 1
    {
      descending := new int[RACK_SIZE](_ => 0);
      crossWordMults := new UnrestrictedMultiplier[RACK_SIZE](_ => UnrestrictedMultiplier(0, 0));
      effLetterMults := new int[RACK_SIZE](_ => 0);
      rowBonuses := new Bonus[BOARD_DIM](_ => BONUS_NONE);
      rowCrossScores := new int[BOARD_DIM](_ => -1);
      numUnrestricted := 0;
      lastWordMultiplier := 1;
      shadowWordMultiplier := 1;
    }

    /**
     * build_descending_tile_scores: the scores of the rack's first
     * RACK_SIZE letters in descending order, then zeros.
     */
    method BuildDescendingTileScores(rack: Rack)
      requires Valid() && rack.Valid()
      modifies descending
      ensures SortedScores(descending[..], rack.counts[..])
    {
      ghost var cs: seq<nat> := rack.counts[..];
      var scores := new int[RACK_SIZE](_ => 0);
      var count := CollectTileScores(rack, scores);
      ghost var collected := scores[..count];
      SortDescending(scores, count);
      ghost var sorted := scores[..count];
      assert Descending(sorted) && multiset(sorted) == multiset(collected);
      CopyPadded(scores, count);
      assert descending[..count] == sorted && rack.counts[..] == cs;
      SortedScoresFrom(descending[..], sorted, collected, cs, count);
    }

    /** The copy at the end of build_descending_tile_scores: count scores, then zeros. */
    method CopyPadded(scores: array<int>, count: nat)
      requires Valid() && scores != descending && scores.Length == RACK_SIZE && count <= RACK_SIZE
      modifies descending
      ensures descending[..count] == scores[..count]
      ensures forall k :: count <= k < RACK_SIZE ==> descending[k] == 0
    {
      var k := 0;
      while k < RACK_SIZE
        invariant 0 <= k <= RACK_SIZE
        invariant forall j :: 0 <= j < k ==> descending[j] == if j < count then scores[j] else 0
      {
        descending[k] := if k < count then scores[k] else 0;
        k := k + 1;
      }
    }

    /**
     * remove_score_from_descending, called with the rack total already
     * decremented: removes the rightmost copy of score among the first
     * count slots, moves the later ones down and clears slot count.
     */
    method RemoveScoreFromDescending(count: nat, score: int)
      requires Valid() && count < RACK_SIZE
      modifies descending
      ensures descending[..] == RemoveAsWritten(old(descending[..]), count, score)
    {
      ghost var s := descending[..];
      var i := count;
      while i > 0
        invariant 0 <= i <= count
        invariant descending[..] == s
        invariant LastIndex(s, score, count) == LastIndex(s, score, i)
      {
        i := i - 1;
        if descending[i] == score {
          var j := i;
          while j < count
            invariant i <= j <= count
            invariant forall k :: 0 <= k < i ==> descending[k] == s[k]
            invariant forall k :: i <= k < j ==> descending[k] == s[k + 1]
            invariant forall k :: j <= k < RACK_SIZE ==> descending[k] == s[k]
          {
            descending[j] := descending[j + 1];
            j := j + 1;
          }
          descending[count] := 0;
          DroppedAt(s, count, i);
          assert descending[..] == Dropped(s, count, i);
          return;
        }
      }
    }

    /** insert_unrestricted_cross_word_mult into the first numUnrestricted slots. */
    method InsertCrossWordMult(mult: int, col: int)
      requires Valid() && numUnrestricted < RACK_SIZE
      modifies crossWordMults
      ensures var u := UnrestrictedMultiplier(mult, col);
        crossWordMults[..] == Inserted(old(crossWordMults[..]), numUnrestricted, u,
                                       InsertPos(Multipliers(old(crossWordMults[..])), numUnrestricted, mult))
    {
      ghost var s := crossWordMults[..];
      ghost var ms := Multipliers(s);
      ghost var n := numUnrestricted;
      var i := numUnrestricted;
      while i > 0 && crossWordMults[i - 1].multiplier < mult
        invariant 0 <= i <= n
        invariant InsertPos(ms, n, mult) == InsertPos(ms, i, mult)
        invariant forall k :: 0 <= k <= i ==> crossWordMults[k] == s[k]
        invariant forall k :: i < k <= n ==> crossWordMults[k] == s[k - 1]
        invariant forall k :: n < k < RACK_SIZE ==> crossWordMults[k] == s[k]
      {
        crossWordMults[i] := crossWordMults[i - 1];
        i := i - 1;
      }
      crossWordMults[i] := UnrestrictedMultiplier(mult, col);
      IsInserted(s, crossWordMults[..], n, UnrestrictedMultiplier(mult, col), i);
    }

    /** insert_unrestricted_eff_letter_mult into the first numUnrestricted slots. */
    method InsertEffLetterMult(mult: int)
      requires Valid() && numUnrestricted < RACK_SIZE
      modifies effLetterMults
      ensures effLetterMults[..] == Inserted(old(effLetterMults[..]), numUnrestricted, mult,
                                             InsertPos(old(effLetterMults[..]), numUnrestricted, mult))
    {
      ghost var s := effLetterMults[..];
      ghost var n := numUnrestricted;
      var i := numUnrestricted;
      while i > 0 && effLetterMults[i - 1] < mult
        invariant 0 <= i <= n
        invariant InsertPos(s, n, mult) == InsertPos(s, i, mult)
        invariant forall k :: 0 <= k <= i ==> effLetterMults[k] == s[k]
        invariant forall k :: i < k <= n ==> effLetterMults[k] == s[k - 1]
        invariant forall k :: n < k < RACK_SIZE ==> effLetterMults[k] == s[k]
      {
        effLetterMults[i] := effLetterMults[i - 1];
        i := i - 1;
      }
      effLetterMults[i] := mult;
      IsInserted(s, effLetterMults[..], n, mult, i);
    }

    /**
     * maybe_recalc_effective_multipliers: when the word multiplier has
     * changed since the effective multipliers were computed, recompute them
     * from the cross-word list, one sorted insertion at a time.
     */
    method RecalcEffectiveMultipliers()
      requires Valid() && Lists()
      modifies this`lastWordMultiplier, this`numUnrestricted, effLetterMults
      ensures Lists() && lastWordMultiplier == shadowWordMultiplier
      ensures numUnrestricted == old(numUnrestricted)
      ensures old(lastWordMultiplier) == shadowWordMultiplier ==> effLetterMults[..] == old(effLetterMults[..])
    {
      if lastWordMultiplier == shadowWordMultiplier {
        return;
      }
      var origCount := numUnrestricted;
      ghost var us := crossWordMults[..];
      ghost var bonuses := rowBonuses[..];
      assert Descending(Multipliers(us[..origCount])) && OnRow(us[..origCount], BOARD_DIM);
      lastWordMultiplier := shadowWordMultiplier;
      numUnrestricted := 0;
      var i := 0;
      while i < origCount
        invariant 0 <= i <= origCount <= RACK_SIZE && numUnrestricted == i
        invariant crossWordMults[..] == us && rowBonuses[..] == bonuses
        invariant lastWordMultiplier == shadowWordMultiplier
        invariant OnRow(us[..origCount], BOARD_DIM)
        invariant EffsPrefix(effLetterMults[..], us, i, shadowWordMultiplier, bonuses)
      {
        assert us[..origCount][i] == us[i];
        assert 0 <= us[i].column < BOARD_DIM;
        var xw := crossWordMults[i].multiplier;
        var col := crossWordMults[i].column;
        var letterMult := LetterMult(rowBonuses[col]);
        var eff := MultSmall(shadowWordMultiplier, letterMult) + xw;
        ghost var before := effLetterMults[..];
        assert eff == EffOf(us[i], shadowWordMultiplier, bonuses);
        InsertEffLetterMult(eff);
        EffsPrefixStep(before, effLetterMults[..], us, i, shadowWordMultiplier, bonuses, origCount);
        numUnrestricted := numUnrestricted + 1;
        i := i + 1;
      }
      assert crossWordMults[..numUnrestricted] == us[..origCount];
      assert effLetterMults[..][..origCount] == effLetterMults[..origCount];
    }

    /**
     * insert_unrestricted_multipliers: a square any tile may take joins
     * both lists, with its cross-word multiplier (0 when no cross word
     * forms there) and its effective letter multiplier.
     */
    method InsertUnrestrictedMultipliers(col: int)
      requires Valid() && Lists() && 0 <= col < BOARD_DIM && numUnrestricted < RACK_SIZE
      modifies this`lastWordMultiplier, this`numUnrestricted, crossWordMults, effLetterMults
      ensures Lists() && lastWordMultiplier == shadowWordMultiplier
      ensures numUnrestricted == old(numUnrestricted) + 1
      ensures multiset(crossWordMults[..numUnrestricted]) ==
        multiset(old(crossWordMults[..numUnrestricted])) +
        multiset{UnrestrictedMultiplier(CrossWordMultOf(rowBonuses[col], rowCrossScores[col]), col)}
    {
      RecalcEffectiveMultipliers();
      InsertSquare(col);
    }

    /** The body of insert_unrestricted_multipliers once the effective multipliers are current. */
    method InsertSquare(col: int)
      requires Valid() && Lists() && 0 <= col < BOARD_DIM && numUnrestricted < RACK_SIZE
      requires lastWordMultiplier == shadowWordMultiplier
      modifies this`numUnrestricted, crossWordMults, effLetterMults
      ensures Lists()
      ensures numUnrestricted == old(numUnrestricted) + 1
      ensures multiset(crossWordMults[..numUnrestricted]) ==
        multiset(old(crossWordMults[..numUnrestricted])) +
        multiset{UnrestrictedMultiplier(CrossWordMultOf(rowBonuses[col], rowCrossScores[col]), col)}
    {
      var bonus := rowBonuses[col];
      var letterMult := LetterMult(bonus);
      var effXwMult := CrossWordMultOf(bonus, rowCrossScores[col]);
      var u := UnrestrictedMultiplier(effXwMult, col);
      ghost var n := numUnrestricted;
      ghost var us := crossWordMults[..];
      ghost var es := effLetterMults[..];
      ghost var bonuses := rowBonuses[..];
      InsertCrossWordMult(effXwMult, col);
      var mainWordMult := MultSmall(shadowWordMultiplier, letterMult);
      assert mainWordMult + effXwMult == EffOf(u, lastWordMultiplier, bonuses);
      InsertEffLetterMult(mainWordMult + effXwMult);
      numUnrestricted := numUnrestricted + 1;
      ListsOfInsert(us, es, n, lastWordMultiplier, bonuses, u, crossWordMults[..], effLetterMults[..]);
    }
  }

  // ---------------------------------------------------------------------
  // The collection and insertion sort of build_descending_tile_scores

  /**
   * The descending score list of a rack: the scores of its first RACK_SIZE
   * letters in descending order, then zeros.
   */
  ghost predicate SortedScores(d: seq<int>, cs: seq<nat>)
    requires |cs| == ALPHABET_SIZE
  {
    var n := Min(SumTo(cs, ALPHABET_SIZE), RACK_SIZE);
    |d| == RACK_SIZE && Descending(d[..n]) &&
    multiset(d[..n]) == multiset(TileScoresOf(FirstTiles(cs))) &&
    forall k :: n <= k < RACK_SIZE ==> d[k] == 0
  }

  lemma SortedScoresFrom(d: seq<int>, sorted: seq<int>, collected: seq<int>, cs: seq<nat>, count: nat)
    requires |cs| == ALPHABET_SIZE && count == Min(SumTo(cs, ALPHABET_SIZE), RACK_SIZE)
    requires collected == TileScoresOf(FirstTiles(cs))
    requires Descending(sorted) && multiset(sorted) == multiset(collected)
    requires |d| == RACK_SIZE && d[..count] == sorted
    requires forall k :: count <= k < RACK_SIZE ==> d[k] == 0
    ensures SortedScores(d, cs)
  {
  }

  /** The scores of the rack's first RACK_SIZE letters, in ascending letter order. */
  method CollectTileScores(rack: Rack, scores: array<int>) returns (count: nat)
    requires rack.Valid() && scores.Length == RACK_SIZE
    modifies scores
    ensures count == Min(SumTo(rack.counts[..], ALPHABET_SIZE), RACK_SIZE)
    ensures scores[..count] == TileScoresOf(FirstTiles(rack.counts[..]))
  {
    ghost var cs: seq<nat> := rack.counts[..];
    ghost var t := Expand(cs, ALPHABET_SIZE);
    count := 0;
    var ml := 0;
    while ml < ALPHABET_SIZE && count < RACK_SIZE
      invariant 0 <= ml <= ALPHABET_SIZE && 0 <= count <= RACK_SIZE
      invariant count == SumTo(cs, ml) || (count == RACK_SIZE && count <= SumTo(cs, ALPHABET_SIZE))
      invariant ScoresOfPrefix(scores[..], t, count)
    {
      SumToBounds(cs, ALPHABET_SIZE, ml);
      var i := 0;
      while i < rack.counts[ml] && count < RACK_SIZE
        invariant 0 <= i <= rack.counts[ml] && count <= RACK_SIZE
        invariant count == SumTo(cs, ml) + i
        invariant ScoresOfPrefix(scores[..], t, count)
      {
        ExpandAt(cs, ALPHABET_SIZE, ml, i);
        ghost var before := scores[..];
        scores[count] := Score8(ml);
        ScoresOfPrefixStep(before, scores[..], t, count);
        count := count + 1;
        i := i + 1;
      }
      SumToBounds(cs, ALPHABET_SIZE, ml);
      SumToBounds(cs, ml + 1, ml);
      ml := ml + 1;
    }
    ScoresOfPrefixFirst(scores[..], cs, count);
  }

  /** The first count scores are those of the first count letters of t. */
  ghost predicate ScoresOfPrefix(scores: seq<int>, t: seq<MachineLetter>, count: nat)
  {
    count <= |scores| && count <= |t| &&
    forall k :: 0 <= k < count ==> IsLetter(t[k]) && scores[k] == Score8(t[k])
  }

  lemma ScoresOfPrefixStep(before: seq<int>, after: seq<int>, t: seq<MachineLetter>, count: nat)
    requires ScoresOfPrefix(before, t, count) && count < |before| == |after| && count < |t|
    requires IsLetter(t[count]) && after == before[count := Score8(t[count])]
    ensures ScoresOfPrefix(after, t, count + 1)
  {
  }

  lemma ScoresOfPrefixFirst(scores: seq<int>, cs: seq<nat>, count: nat)
    requires |cs| == ALPHABET_SIZE
    requires count == Min(SumTo(cs, ALPHABET_SIZE), RACK_SIZE)
    requires ScoresOfPrefix(scores, Expand(cs, ALPHABET_SIZE), count)
    ensures scores[..count] == TileScoresOf(FirstTiles(cs))
  {
    var t := Expand(cs, ALPHABET_SIZE);
    var f := FirstTiles(cs);
    var r := TileScoresOf(f);
    assert f == t[..count];
    forall k | 0 <= k < count
      ensures scores[..count][k] == r[k]
    {
      assert f[k] == t[k];
    }
  }

  /** Sorts a[..n] into descending order in place. */
  method SortDescending(a: array<int>, n: nat)
    requires n <= a.Length
    modifies a
    ensures Descending(a[..n]) && multiset(a[..n]) == multiset(old(a[..n]))
    ensures a[n..] == old(a[n..])
  {
    if n == 0 {
      return;
    }
    var i := 1;
    while i < n
      invariant 1 <= i <= n
      invariant Descending(a[..i])
      invariant multiset(a[..n]) == multiset(old(a[..n])) && a[n..] == old(a[n..])
    {
      PlaceKey(a, i, n);
      i := i + 1;
    }
  }

  /** One pass of the sort: a[i] walks left past the smaller entries before it. */
  method PlaceKey(a: array<int>, i: nat, n: nat)
    requires i < n <= a.Length && Descending(a[..i])
    modifies a
    ensures Descending(a[..i + 1])
    ensures multiset(a[..n]) == multiset(old(a[..n])) && a[n..] == old(a[n..])
  {
    ghost var s := a[..];
    var key := a[i];
    var j := i - 1;
    while j >= 0 && a[j] < key
      invariant -1 <= j <= i - 1
      invariant forall k :: 0 <= k <= j + 1 ==> a[k] == s[k]
      invariant forall k :: j + 1 < k <= i ==> a[k] == s[k - 1]
      invariant forall k :: i < k < a.Length ==> a[k] == s[k]
      invariant forall k :: j < k < i ==> s[k] < key
    {
      a[j + 1] := a[j];
      j := j - 1;
    }
    a[j + 1] := key;
    PlacedKey(s, a[..], i, j + 1, n);
  }

  /** One pass of the insertion: s[i] moved down to p, s[p..i] moved up one. */
  lemma PlacedKey(s: seq<int>, r: seq<int>, i: nat, p: nat, n: nat)
    requires p <= i < n <= |s| == |r| && Descending(s[..i])
    requires forall k :: 0 <= k < p ==> r[k] == s[k]
    requires r[p] == s[i]
    requires forall k :: p < k <= i ==> r[k] == s[k - 1]
    requires forall k :: i < k < |s| ==> r[k] == s[k]
    requires p == 0 || s[p - 1] >= s[i]
    requires forall k :: p <= k < i ==> s[k] < s[i]
    ensures Descending(r[..i + 1])
    ensures multiset(r[..n]) == multiset(s[..n]) && r[n..] == s[n..]
  {
    InsertedAt(s, i, s[i], p);
    assert r == Inserted(s, i, s[i], p);
    InsertedSorted(s, i, s[i], p);
    InsertedPerm(s, i, s[i], p);
    assert s[..i + 1] == s[..i] + [s[i]];
    assert r[i + 1..n] == s[i + 1..n];
    assert r[..n] == r[..i + 1] + r[i + 1..n];
    assert s[..n] == s[..i + 1] + s[i + 1..n];
    assert r[n..] == s[n..];
  }
}
