// tests/test_klv.c: the native KLV16 test harness. It repeats the ROM's
// rack and KLV structures, loads the leave file in place (the node table
// and the leave table are views into the file's bytes) and computes the
// word counts with a memoised depth-first recursion instead of the ROM's
// repeated passes. The walk from the DAWG root and the leave lookup are
// the ROM's own code, modelled by Klv.Klv.
module KlvNative {
  import opened Defs
  import opened KwgNode
  import opened BoardTables
  import Game
  import Rom = Klv
  import KlvReader

  // ---------------------------------------------------------------------
  // Racks

  /** rack_from_string: the rack is cleared, then every '?' adds a blank and
    * every letter of either case its machine letter; the byte counts and
    * the byte total wrap. Up to 255 recognised characters the total agrees
    * with the counts. */
  method RackFromString(rack: Game.Rack, s: string)
    requires rack.Valid()
    modifies rack, rack.counts
    ensures rack.Valid()
    ensures rack.counts[..] == KlvReader.TallyOnto(KlvReader.Empty(), s)
    ensures rack.total == KlvReader.Recognised(s) % 256
    ensures KlvReader.Recognised(s) < 256 ==> rack.Consistent()
  {
    rack.Init();
    assert rack.counts[..] == KlvReader.Empty();
    var i := 0;
    while i < |s|
      invariant 0 <= i <= |s| && rack.Valid()
      invariant rack.counts[..] == KlvReader.TallyOnto(KlvReader.Empty(), s[..i])
      invariant rack.total == KlvReader.Recognised(s[..i]) % 256
    {
      TallyChar(rack, s, i);
      i := i + 1;
    }
    assert s[..i] == s;
    if KlvReader.Recognised(s) < 256 {
      KlvReader.TallySum(s);
    }
  }

  /** One step of rack_from_string: character i is tallied onto the rack. */
  method TallyChar(rack: Game.Rack, s: string, i: nat)
    requires rack.Valid() && i < |s|
    requires rack.counts[..] == KlvReader.TallyOnto(KlvReader.Empty(), s[..i])
    requires rack.total == KlvReader.Recognised(s[..i]) % 256
    modifies rack, rack.counts
    ensures rack.Valid()
    ensures rack.counts[..] == KlvReader.TallyOnto(KlvReader.Empty(), s[..i + 1])
    ensures rack.total == KlvReader.Recognised(s[..i + 1]) % 256
  {
    var c := s[i];
    KlvReader.TallyNext(s, i);
    KlvReader.ByteCount(KlvReader.Recognised(s[..i]));
    if c == '?' {
      rack.AddTile(0);
    } else if 'A' <= c <= 'Z' {
      rack.AddTile(c as int - 'A' as int + 1);
    } else if 'a' <= c <= 'z' {
      rack.AddTile(c as int - 'a' as int + 1);
    }
  }

  // ---------------------------------------------------------------------
  // Loading

  /** On a KLV16 image the header arithmetic finds the image's own node
    * table, leave count and leave bytes. */
  lemma LoadReadsImage(nodes: seq<Node>, numLeaves: nat, leaveBytes: seq<Byte>)
    requires |nodes| < 0x1_0000_0000 && numLeaves < 0x1_0000_0000
    ensures var d := Rom.Image(nodes, numLeaves, leaveBytes);
      && 4 <= |d| && Rom.ReadLe32(d, 0) == |nodes| && 8 + 4 * |nodes| <= |d|
      && KlvReader.NodesOf(d, |nodes|) == nodes
      && Rom.ReadLe32(d, 4 + 4 * |nodes|) == numLeaves
      && d[8 + 4 * |nodes|..] == leaveBytes
  {
    Rom.ImageFields(nodes, numLeaves, leaveBytes);
    var d := Rom.Image(nodes, numLeaves, leaveBytes);
    assert KlvReader.NodesOf(d, |nodes|) == nodes;
  }

  // ---------------------------------------------------------------------
  // Word counts on an acyclic lexicon

  /** A rank that drops from every node to its in-range child run and to its
    * next sibling: the lexicon has no cycle, and rank bounds the depth. */
  predicate Descends(kwg: seq<Node>, rank: seq<nat>, i: nat)
    requires |rank| == |kwg| && i < |kwg|
  {
    var child := ArcIndex(kwg[i]);
    && (child != 0 && child < |kwg| ==> rank[child] < rank[i])
    && (!IsEnd(kwg[i]) && i + 1 < |kwg| ==> rank[i + 1] < rank[i])
  }

  predicate Ranked(kwg: seq<Node>, rank: seq<nat>)
  {
    |rank| == |kwg| && forall i :: 0 <= i < |kwg| ==> Descends(kwg, rank, i)
  }

  /** The words below node i: itself if it accepts, its child run's words
    * and the words of the siblings after it. */
  function Words(kwg: seq<Node>, rank: seq<nat>, i: nat): nat
    requires Ranked(kwg, rank) && i < |kwg|
    decreases rank[i]
  {
    assert Descends(kwg, rank, i);
    var child := ArcIndex(kwg[i]);
    (if Accepts(kwg[i]) then 1 else 0)
    + (if child != 0 && child < |kwg| then Words(kwg, rank, child) else 0)
    + (if !IsEnd(kwg[i]) && i + 1 < |kwg| then Words(kwg, rank, i + 1) else 0)
  }

  function WordsTable(kwg: seq<Node>, rank: seq<nat>): seq<nat>
    requires Ranked(kwg, rank)
  {
    seq(|kwg|, i requires 0 <= i < |kwg| => Words(kwg, rank, i))
  }

  /** Every count fits below the sentinel KLV_UNFOUND_INDEX. */
  predicate Fits(kwg: seq<Node>, rank: seq<nat>)
    requires Ranked(kwg, rank)
  {
    forall i :: 0 <= i < |kwg| ==> Words(kwg, rank, i) < Rom.UNFOUND_INDEX
  }

  /** The words table solves the equation the ROM's passes stop at. */
  lemma WordsSolve(kwg: seq<Node>, rank: seq<nat>)
    requires Ranked(kwg, rank)
    ensures Rom.Fixpoint(kwg, WordsTable(kwg, rank))
  {
    var t := WordsTable(kwg, rank);
    forall i | 0 <= i < |kwg|
      ensures t[i] == Rom.CountAt(kwg, i, t, t)
    {
      assert Descends(kwg, rank, i);
    }
  }

  /** On an acyclic lexicon any solution is the words table at node i. */
  lemma {:induction false} FixpointIsWords(kwg: seq<Node>, rank: seq<nat>, wc: seq<nat>, i: nat)
    requires Ranked(kwg, rank) && |wc| == |kwg| && Rom.Fixpoint(kwg, wc) && i < |kwg|
    ensures wc[i] == Words(kwg, rank, i)
    decreases rank[i]
  {
    assert Descends(kwg, rank, i);
    assert wc[i] == Rom.CountAt(kwg, i, wc, wc);
    var child := ArcIndex(kwg[i]);
    if child != 0 && child < |kwg| {
      FixpointIsWords(kwg, rank, wc, child);
    }
    if !IsEnd(kwg[i]) && i + 1 < |kwg| {
      FixpointIsWords(kwg, rank, wc, i + 1);
    }
  }

  /** On an acyclic lexicon the word-count equation has one solution, so the
    * ROM's settled passes and the harness's recursion give the same counts. */
  lemma FixpointUnique(kwg: seq<Node>, rank: seq<nat>, wc: seq<nat>)
    requires Ranked(kwg, rank) && |wc| == |kwg| && Rom.Fixpoint(kwg, wc)
    ensures wc == WordsTable(kwg, rank)
  {
    forall i | 0 <= i < |kwg|
      ensures wc[i] == WordsTable(kwg, rank)[i]
    {
      FixpointIsWords(kwg, rank, wc, i);
    }
  }

  // ---------------------------------------------------------------------
  // The memoised recursion

  /** The slots count_words_at has not filled; a zero is also what a
    * finished node with no words stores. */
  function ZeroCount(wc: seq<nat>): nat
  {
    if wc == [] then 0 else ZeroCount(wc[..|wc| - 1]) + (if wc[|wc| - 1] == 0 then 1 else 0)
  }

  /** A filled slot is never changed again. */
  predicate Kept(before: seq<nat>, after: seq<nat>)
  {
    |before| == |after| && forall j :: 0 <= j < |before| && before[j] != 0 ==> after[j] == before[j]
  }

  lemma {:induction false} ZerosNoMore(a: seq<nat>, b: seq<nat>)
    requires Kept(a, b)
    ensures ZeroCount(b) <= ZeroCount(a)
  {
    if a != [] {
      ZerosNoMore(a[..|a| - 1], b[..|b| - 1]);
    }
  }

  /** Filling slot i, and keeping what was filled, leaves fewer zeros. */
  lemma {:induction false} ZerosDrop(a: seq<nat>, b: seq<nat>, i: nat)
    requires Kept(a, b) && i < |a| && a[i] == 0 && b[i] != 0
    ensures ZeroCount(b) < ZeroCount(a)
  {
    var n := |a|;
    if i == n - 1 {
      ZerosNoMore(a[..n - 1], b[..n - 1]);
    } else {
      ZerosDrop(a[..n - 1], b[..n - 1], i);
    }
  }

  /** Every slot is unfilled, the in-progress sentinel, or the node's words. */
  predicate Memo(kwg: seq<Node>, rank: seq<nat>, wc: seq<nat>)
    requires Ranked(kwg, rank) && |wc| == |kwg|
  {
    forall j :: 0 <= j < |kwg| ==> wc[j] == 0 || wc[j] == Rom.UNFOUND_INDEX || wc[j] == Words(kwg, rank, j)
  }

  /** The nodes marked in progress are the callers', all ranked above i. */
  predicate InProgressAbove(rank: seq<nat>, wc: seq<nat>, i: nat)
    requires |rank| == |wc| && i < |wc|
  {
    forall j :: 0 <= j < |wc| && wc[j] == Rom.UNFOUND_INDEX ==> rank[j] > rank[i]
  }

  predicate SameInProgress(a: seq<nat>, b: seq<nat>)
    requires |a| == |b|
  {
    forall j :: 0 <= j < |a| ==> (a[j] == Rom.UNFOUND_INDEX <==> b[j] == Rom.UNFOUND_INDEX)
  }

  /** What a call of count_words_at on node i may rely on in an acyclic
    * lexicon. */
  predicate CallReady(kwg: seq<Node>, rank: seq<nat>, wc: seq<nat>, i: nat)
  {
    && Ranked(kwg, rank) && Fits(kwg, rank) && |wc| == |kwg|
    && Memo(kwg, rank, wc)
    && (i < |kwg| ==> InProgressAbove(rank, wc, i))
  }

  /** What a call of count_words_at on node i gives in an acyclic lexicon:
    * the memo kept, the same nodes in progress, the node's words. */
  predicate CallDone(kwg: seq<Node>, rank: seq<nat>, before: seq<nat>, after: seq<nat>, i: nat, r: nat)
    requires CallReady(kwg, rank, before, i) && |after| == |kwg|
  {
    && Memo(kwg, rank, after)
    && SameInProgress(before, after)
    && r == (if i < |kwg| then Words(kwg, rank, i) else 0)
  }

  /** count_words_at over the word counts as a value: the result and the
    * counts it leaves. 0 past the table; a filled slot gives its count, or
    * 0 when it holds the in-progress sentinel (a cycle back to a caller);
    * an unfilled slot is counted afresh. Filled slots are never changed,
    * which is what makes the recursion end. */
  function Count(kwg: seq<Node>, wc: seq<nat>, i: nat): (res: (nat, seq<nat>))
    requires |wc| == |kwg|
    ensures Kept(wc, res.1)
    decreases ZeroCount(wc), 1
  {
    if i >= |kwg| then (0, wc)
    else if wc[i] != 0 then (if wc[i] == Rom.UNFOUND_INDEX then 0 else wc[i], wc)
    else Fresh(kwg, wc, i)
  }

  /** An unfilled slot: marked in progress, counted through the child run
    * (when the arc is not 0) and the next sibling (unless the node ends its
    * run), and the count stored. */
  function Fresh(kwg: seq<Node>, wc: seq<nat>, i: nat): (res: (nat, seq<nat>))
    requires |wc| == |kwg| && i < |kwg| && wc[i] == 0
    ensures Kept(wc, res.1) && res.1[i] == res.0
    decreases ZeroCount(wc), 0
  {
    var marked := wc[i := Rom.UNFOUND_INDEX];
    ZerosDrop(wc, marked, i);
    var child := ArcIndex(kwg[i]);
    var (a, mid) := if child != 0 then Count(kwg, marked, child) else (0, marked);
    ZerosDrop(wc, mid, i);
    var (b, fin) := if !IsEnd(kwg[i]) then Count(kwg, mid, i + 1) else (0, mid);
    var count := (if Accepts(kwg[i]) then 1 else 0) + a + b;
    (count, fin[i := count])
  }

  /** On an acyclic lexicon whose counts fit, count_words_at gives node i's
    * words, keeps the table a memo of words and leaves the same nodes in
    * progress. */
  lemma {:induction false} CountCorrect(kwg: seq<Node>, rank: seq<nat>, wc: seq<nat>, i: nat)
    requires CallReady(kwg, rank, wc, i)
    ensures CallDone(kwg, rank, wc, Count(kwg, wc, i).1, i, Count(kwg, wc, i).0)
    decreases ZeroCount(wc), 2
  {
    if i < |kwg| && wc[i] == 0 {
      FreshCorrect(kwg, rank, wc, i);
    }
  }

  lemma {:induction false} FreshCorrect(kwg: seq<Node>, rank: seq<nat>, wc: seq<nat>, i: nat)
    requires CallReady(kwg, rank, wc, i) && i < |kwg| && wc[i] == 0
    ensures CallDone(kwg, rank, wc, Fresh(kwg, wc, i).1, i, Fresh(kwg, wc, i).0)
    decreases ZeroCount(wc), 1
  {
    var marked := wc[i := Rom.UNFOUND_INDEX];
    var child := ArcIndex(kwg[i]);
    var (a, mid) := if child != 0 then Count(kwg, marked, child) else (0, marked);
    FreshChild(kwg, rank, wc, i);
    var (b, fin) := if !IsEnd(kwg[i]) then Count(kwg, mid, i + 1) else (0, mid);
    if !IsEnd(kwg[i]) {
      FreshSibling(kwg, rank, wc, mid, i, a);
    }
    Finish(kwg, rank, wc, mid, fin, i, a, b);
  }

  /** The call of count_words_at on the child run, with node i marked in progress. */
  lemma {:induction false} FreshChild(kwg: seq<Node>, rank: seq<nat>, wc: seq<nat>, i: nat)
    requires CallReady(kwg, rank, wc, i) && i < |kwg| && wc[i] == 0
    ensures var marked := wc[i := Rom.UNFOUND_INDEX];
      var child := ArcIndex(kwg[i]);
      child != 0 ==>
        && CallReady(kwg, rank, marked, child)
        && CallDone(kwg, rank, marked, Count(kwg, marked, child).1, child, Count(kwg, marked, child).0)
    decreases ZeroCount(wc), 0
  {
    var marked := wc[i := Rom.UNFOUND_INDEX];
    var child := ArcIndex(kwg[i]);
    if child != 0 {
      ZerosDrop(wc, marked, i);
      ChildReady(kwg, rank, wc, i);
      CountCorrect(kwg, rank, marked, child);
    }
  }

  /** The call of count_words_at on the next sibling, once the child run's call returned a and left mid. */
  lemma {:induction false} FreshSibling(kwg: seq<Node>, rank: seq<nat>, wc: seq<nat>, mid: seq<nat>, i: nat, a: nat)
    requires CallReady(kwg, rank, wc, i) && i < |kwg| && wc[i] == 0 && !IsEnd(kwg[i])
    requires Kept(wc, mid) && mid[i] != 0
    requires ArcIndex(kwg[i]) == 0 ==> mid == wc[i := Rom.UNFOUND_INDEX]
    requires ArcIndex(kwg[i]) != 0 ==>
      && CallReady(kwg, rank, wc[i := Rom.UNFOUND_INDEX], ArcIndex(kwg[i]))
      && CallDone(kwg, rank, wc[i := Rom.UNFOUND_INDEX], mid, ArcIndex(kwg[i]), a)
    ensures CallReady(kwg, rank, mid, i + 1)
    ensures CallDone(kwg, rank, mid, Count(kwg, mid, i + 1).1, i + 1, Count(kwg, mid, i + 1).0)
    decreases ZeroCount(wc), 0
  {
    ZerosDrop(wc, mid, i);
    SiblingReady(kwg, rank, wc, mid, i, a);
    CountCorrect(kwg, rank, mid, i + 1);
  }

  /** The call on the child run, made with node i marked in progress. */
  lemma ChildReady(kwg: seq<Node>, rank: seq<nat>, wc: seq<nat>, i: nat)
    requires CallReady(kwg, rank, wc, i) && i < |kwg| && wc[i] == 0 && ArcIndex(kwg[i]) != 0
    ensures CallReady(kwg, rank, wc[i := Rom.UNFOUND_INDEX], ArcIndex(kwg[i]))
  {
    assert Descends(kwg, rank, i);
  }

  /** The call on the next sibling, made once the child run's call (if
    * any) returned a and left mid. */
  lemma SiblingReady(kwg: seq<Node>, rank: seq<nat>, wc: seq<nat>, mid: seq<nat>, i: nat, a: nat)
    requires CallReady(kwg, rank, wc, i) && i < |kwg| && wc[i] == 0 && !IsEnd(kwg[i]) && |mid| == |kwg|
    requires ArcIndex(kwg[i]) == 0 ==> mid == wc[i := Rom.UNFOUND_INDEX]
    requires ArcIndex(kwg[i]) != 0 ==>
      && CallReady(kwg, rank, wc[i := Rom.UNFOUND_INDEX], ArcIndex(kwg[i]))
      && CallDone(kwg, rank, wc[i := Rom.UNFOUND_INDEX], mid, ArcIndex(kwg[i]), a)
    ensures CallReady(kwg, rank, mid, i + 1)
  {
    assert Descends(kwg, rank, i);
  }

  /** Storing the count after both calls keeps the memo, ends node i's
    * progress mark and stores node i's words. */
  lemma Finish(kwg: seq<Node>, rank: seq<nat>, wc: seq<nat>, mid: seq<nat>, fin: seq<nat>, i: nat, a: nat, b: nat)
    requires CallReady(kwg, rank, wc, i) && i < |kwg| && wc[i] == 0 && |mid| == |kwg| && |fin| == |kwg|
    requires ArcIndex(kwg[i]) == 0 ==> mid == wc[i := Rom.UNFOUND_INDEX] && a == 0
    requires ArcIndex(kwg[i]) != 0 ==>
      && CallReady(kwg, rank, wc[i := Rom.UNFOUND_INDEX], ArcIndex(kwg[i]))
      && CallDone(kwg, rank, wc[i := Rom.UNFOUND_INDEX], mid, ArcIndex(kwg[i]), a)
    requires IsEnd(kwg[i]) ==> fin == mid && b == 0
    requires !IsEnd(kwg[i]) ==> CallReady(kwg, rank, mid, i + 1) && CallDone(kwg, rank, mid, fin, i + 1, b)
    ensures var count := (if Accepts(kwg[i]) then 1 else 0) + a + b;
      CallDone(kwg, rank, wc, fin[i := count], i, count)
  {
    assert Descends(kwg, rank, i);
    var count := (if Accepts(kwg[i]) then 1 else 0) + a + b;
    var marked := wc[i := Rom.UNFOUND_INDEX];
    assert count == Words(kwg, rank, i);
    assert Memo(kwg, rank, fin) && SameInProgress(marked, fin) by {
      if IsEnd(kwg[i]) && ArcIndex(kwg[i]) == 0 {
        assert Memo(kwg, rank, marked);
      }
    }
    var after := fin[i := count];
    forall j | 0 <= j < |kwg|
      ensures wc[j] == Rom.UNFOUND_INDEX <==> after[j] == Rom.UNFOUND_INDEX
    {
      if j != i {
        assert marked[j] == wc[j];
      }
    }
  }

  /** Fresh, given the results of its two calls. */
  lemma FreshIs(kwg: seq<Node>, wc: seq<nat>, i: nat, a: nat, mid: seq<nat>, b: nat, fin: seq<nat>)
    requires |wc| == |kwg| && i < |kwg| && wc[i] == 0
    requires (a, mid) == if ArcIndex(kwg[i]) != 0 then Count(kwg, wc[i := Rom.UNFOUND_INDEX], ArcIndex(kwg[i])) else (0, wc[i := Rom.UNFOUND_INDEX])
    requires |mid| == |kwg| && (b, fin) == if !IsEnd(kwg[i]) then Count(kwg, mid, i + 1) else (0, mid)
    ensures Fresh(kwg, wc, i) == ((if Accepts(kwg[i]) then 1 else 0) + a + b, fin[i := (if Accepts(kwg[i]) then 1 else 0) + a + b])
  {
  }

  /** count_words_at from the top: with nothing in progress and the nodes
    * above i holding their words, counting node i adds node i's words. */
  predicate Settled(kwg: seq<Node>, rank: seq<nat>, wc: seq<nat>, i: nat)
    requires Ranked(kwg, rank) && |wc| == |kwg|
  {
    && Memo(kwg, rank, wc)
    && (forall j :: 0 <= j < |kwg| ==> wc[j] != Rom.UNFOUND_INDEX)
    && (forall j :: i <= j < |kwg| ==> wc[j] == Words(kwg, rank, j))
  }

  lemma SettledStep(kwg: seq<Node>, rank: seq<nat>, wc: seq<nat>, i: nat)
    requires Ranked(kwg, rank) && Fits(kwg, rank) && |wc| == |kwg| && i < |kwg|
    requires Settled(kwg, rank, wc, i + 1)
    ensures Settled(kwg, rank, Count(kwg, wc, i).1, i)
  {
    CountCorrect(kwg, rank, wc, i);
    var after := Count(kwg, wc, i).1;
    if wc[i] == 0 {
      FreshCorrect(kwg, rank, wc, i);
    }
    forall j | i <= j < |kwg|
      ensures after[j] == Words(kwg, rank, j)
    {
      if j > i && wc[j] == 0 {
        assert Words(kwg, rank, j) == 0;
      }
    }
  }

  /** Every node's words, reached from the last node down. */
  lemma SettledAll(kwg: seq<Node>, rank: seq<nat>, wc: seq<nat>)
    requires Ranked(kwg, rank) && Fits(kwg, rank) && |wc| == |kwg| && Settled(kwg, rank, wc, 0)
    ensures wc == WordsTable(kwg, rank) && Rom.Fixpoint(kwg, wc)
  {
    WordsSolve(kwg, rank);
  }

  /** The harness's KLV: the node table and the leave table are views into
    * the loaded file; only the word counts are written. */
  class NativeKlv {
    var kwgSize: nat
    var numLeaves: nat
    var kwg: seq<Node>
    var leaves: seq<Byte>
    var wordCounts: array<nat>

    ghost predicate Valid()
      reads this
    {
      |kwg| == kwgSize && wordCounts.Length == kwgSize
    }

    constructor ()
      ensures Valid() && kwgSize == 0
    {
      kwgSize := 0;
      numLeaves := 0;
      kwg := [];
      leaves := [];
      wordCounts := new nat[0];
    }

    /** load_klv16 on the file's bytes: the node count at offset 0, the
      * nodes from offset 4, the leave count at offset 4 + 4 * kwg_size and
      * the leave values after it; the word counts start zeroed. Nothing is
      * checked: the file must hold what its header announces. */
    method Load(data: seq<Byte>)
      requires 4 <= |data| && 8 + 4 * Rom.ReadLe32(data, 0) <= |data|
      modifies this
      ensures Valid() && fresh(wordCounts)
      ensures kwgSize == Rom.ReadLe32(data, 0)
      ensures kwg == KlvReader.NodesOf(data, kwgSize)
      ensures numLeaves == Rom.ReadLe32(data, 4 + 4 * kwgSize)
      ensures leaves == data[8 + 4 * kwgSize..]
      ensures forall j :: 0 <= j < kwgSize ==> wordCounts[j] == 0
    {
      kwgSize := Rom.ReadLe32(data, 0);
      kwg := KlvReader.NodesOf(data, kwgSize);
      var leavesHeader := 4 + kwgSize * 4;
      numLeaves := Rom.ReadLe32(data, leavesHeader);
      leaves := data[leavesHeader + 4..];
      wordCounts := new nat[kwgSize](_ => 0);
    }

    /** count_words_at: the result and the new word counts are Count's. */
    method CountWordsAt(i: nat) returns (r: nat)
      requires Valid()
      modifies wordCounts
      decreases ZeroCount(wordCounts[..]), 1
      ensures (r, wordCounts[..]) == Count(kwg, old(wordCounts[..]), i)
    {
      if i >= kwgSize {
        return 0;
      }
      var stored := wordCounts[i];
      if stored != 0 {
        if stored == Rom.UNFOUND_INDEX {
          return 0;
        }
        return stored;
      }
      r := CountFresh(i);
    }

    /** The part of count_words_at for an unfilled slot: marked in
      * progress, counted through the child run and the next sibling, and
      * the count stored. */
    method CountFresh(i: nat) returns (r: nat)
      requires Valid() && i < kwgSize && wordCounts[i] == 0
      modifies wordCounts
      decreases ZeroCount(wordCounts[..]), 0
      ensures (r, wordCounts[..]) == Fresh(kwg, old(wordCounts[..]), i)
    {
      ghost var before := wordCounts[..];
      wordCounts[i] := Rom.UNFOUND_INDEX;
      assert wordCounts[..] == before[i := Rom.UNFOUND_INDEX as nat];
      ZerosDrop(before, wordCounts[..], i);
      var a := ChildCount(i);
      ghost var mid := wordCounts[..];
      ZerosDrop(before, mid, i);
      var b := SiblingCount(i);
      ghost var fin := wordCounts[..];
      var count := (if Accepts(kwg[i]) then 1 else 0) + a + b;
      wordCounts[i] := count;
      r := count;
      FreshIs(kwg, before, i, a, mid, b, fin);
      assert wordCounts[..] == fin[i := count];
    }

    /** The child run's words, when node i's arc is not 0. */
    method ChildCount(i: nat) returns (a: nat)
      requires Valid() && i < kwgSize
      modifies wordCounts
      decreases ZeroCount(wordCounts[..]), 2
      ensures (a, wordCounts[..]) ==
        if ArcIndex(kwg[i]) != 0 then Count(kwg, old(wordCounts[..]), ArcIndex(kwg[i])) else (0, old(wordCounts[..]))
    {
      var child := ArcIndex(kwg[i]);
      a := 0;
      if child != 0 {
        a := CountWordsAt(child);
      }
    }

    /** The next sibling's words, unless node i ends its run. */
    method SiblingCount(i: nat) returns (b: nat)
      requires Valid() && i < kwgSize
      modifies wordCounts
      decreases ZeroCount(wordCounts[..]), 2
      ensures (b, wordCounts[..]) ==
        if !IsEnd(kwg[i]) then Count(kwg, old(wordCounts[..]), i + 1) else (0, old(wordCounts[..]))
    {
      b := 0;
      if !IsEnd(kwg[i]) {
        b := CountWordsAt(i + 1);
      }
    }

    /** compute_word_counts: every count zeroed, then count_words_at from
      * the last node down to node 0. On an acyclic lexicon whose counts fit
      * below the sentinel, the counts are every node's words: the solution
      * the ROM's passes settle on. */
    method ComputeWordCounts(ghost rank: seq<nat>)
      requires Valid()
      modifies wordCounts
      ensures Ranked(kwg, rank) && Fits(kwg, rank) ==>
        wordCounts[..] == WordsTable(kwg, rank) && Rom.Fixpoint(kwg, wordCounts[..])
    {
      var i := 0;
      while i < kwgSize
        invariant 0 <= i <= kwgSize
        invariant forall j :: 0 <= j < i ==> wordCounts[j] == 0
      {
        wordCounts[i] := 0;
        i := i + 1;
      }
      ghost var solvable := Ranked(kwg, rank) && Fits(kwg, rank);
      i := kwgSize;
      while i > 0
        invariant 0 <= i <= kwgSize
        invariant solvable ==> Settled(kwg, rank, wordCounts[..], i)
      {
        i := i - 1;
        ghost var before := wordCounts[..];
        var ignored := CountWordsAt(i);
        if solvable {
          SettledStep(kwg, rank, before, i);
        }
      }
      if solvable {
        SettledAll(kwg, rank, wordCounts[..]);
      }
    }
  }
}
