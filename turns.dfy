// Turns of a two-player game (src/game.c, game_init to game_is_over): the
// game state with its board, bag, two racks and two scores, a move played,
// a turn passed, tiles exchanged.

module Turns {
  import opened Defs
  import opened Equity
  import opened BoardTables
  import opened Kwg
  import opened Board
  import opened Game
  import opened Scoring

  // ---------------------------------------------------------------------
  // The value of the tiles left on a rack

  /** The face value of a rack's tiles, spelled out one tile at a time. */
  function RackValueOf(counts: seq<nat>): nat
    requires |counts| == ALPHABET_SIZE
  {
    ExpandLetters(counts, ALPHABET_SIZE);
    ScoreSum(Expand(counts, ALPHABET_SIZE))
  }

  /** Spelling out the counts of letters 0..n-1 gives letters below n. */
  lemma {:induction false} ExpandLetters(counts: seq<nat>, n: nat)
    requires n <= |counts| && n <= ALPHABET_SIZE
    ensures forall i :: 0 <= i < |Expand(counts, n)| ==> Expand(counts, n)[i] < n
    ensures Scorable(Expand(counts, n))
  {
    if n > 0 {
      ExpandLetters(counts, n - 1);
      RepeatAll(n - 1, counts[n - 1]);
    }
  }

  /** The face value of two runs of tiles laid end to end is the sum of theirs. */
  lemma {:induction false} ScoreSumAppend(a: seq<MachineLetter>, b: seq<MachineLetter>)
    requires Scorable(a) && Scorable(b)
    ensures Scorable(a + b) && ScoreSum(a + b) == ScoreSum(a) + ScoreSum(b)
    decreases |b|
  {
    if b != [] {
      var b' := b[..|b| - 1];
      assert (a + b)[..|a + b| - 1] == a + b';
      ScoreSumAppend(a, b');
    } else {
      assert a + b == a;
    }
  }

  /** k copies of a letter are worth k times its score. */
  lemma {:induction false} ScoreSumRepeat(l: MachineLetter, k: nat)
    requires IsLetter(l)
    ensures Scorable(Repeat(l, k)) && ScoreSum(Repeat(l, k)) == k * TILE_SCORES[l]
  {
    if k > 0 {
      var v := TILE_SCORES[l];
      ScoreSumRepeat(l, k - 1);
      assert [l][..0] == [];
      assert ScoreSum([l]) == v;
      ScoreSumAppend(Repeat(l, k - 1), [l]);
      assert (k - 1) * v + v == k * v;
    }
  }

  /** The remaining-value loops of game_play_move and game_pass: each letter's
    * count times its score, summed over the alphabet. The sum is the face
    * value of the rack's tiles. */
  method RackValue(rack: Rack) returns (value: int)
    requires rack.Valid()
    ensures value == RackValueOf(rack.counts[..])
  {
    ghost var cs: seq<nat> := rack.counts[..];
    value := 0;
    var letter := 0;
    while letter < ALPHABET_SIZE
      invariant 0 <= letter <= ALPHABET_SIZE
      invariant Scorable(Expand(cs, letter)) && value == ScoreSum(Expand(cs, letter))
    {
      RackValueStep(cs, letter);
      value := value + rack.counts[letter] * TILE_SCORES[letter];
      letter := letter + 1;
    }
  }

  /** Spelling out one more letter adds its count times its score. */
  lemma RackValueStep(cs: seq<nat>, letter: nat)
    requires |cs| == ALPHABET_SIZE && letter < ALPHABET_SIZE
    requires Scorable(Expand(cs, letter))
    ensures Scorable(Expand(cs, letter + 1))
    ensures ScoreSum(Expand(cs, letter + 1)) == ScoreSum(Expand(cs, letter)) + cs[letter] * TILE_SCORES[letter]
  {
    ScoreSumRepeat(letter, cs[letter]);
    ScoreSumAppend(Expand(cs, letter), Repeat(letter, cs[letter]));
  }

  // ---------------------------------------------------------------------
  // Taking a move's tiles off the rack

  /** Every tile is a letter, a blank-played letter or the played-through marker. */
  predicate MoveTiles(ts: seq<MachineLetter>)
  {
    forall i :: 0 <= i < |ts| ==> IsBlanked(ts[i]) || IsLetter(ts[i])
  }

  /** The rack slot a placed tile comes from: a blank-played letter uses a blank. */
  function RackLetter(t: MachineLetter): (l: MachineLetter)
    requires IsBlanked(t) || IsLetter(t)
    ensures IsLetter(l)
  {
    if IsBlanked(t) then BLANK_ML else t
  }

  /** The rack letters a run of tiles uses, played-through squares skipped. */
  function Used(ts: seq<MachineLetter>): (u: seq<MachineLetter>)
    requires MoveTiles(ts)
    ensures |u| <= |ts|
  {
    if ts == [] then []
    else
      var t := ts[|ts| - 1];
      Used(ts[..|ts| - 1]) + if t == PLAYED_THROUGH then [] else [RackLetter(t)]
  }

  /** A run of plain letters uses exactly those letters. */
  lemma {:induction false} UsedLetters(ts: seq<MachineLetter>)
    requires forall i :: 0 <= i < |ts| ==> IsLetter(ts[i])
    ensures MoveTiles(ts) && Used(ts) == ts
  {
    if ts != [] {
      UsedLetters(ts[..|ts| - 1]);
      assert ts == ts[..|ts| - 1] + [ts[|ts| - 1]];
    }
  }

  /** The counts after the removal loop, and whether it got to the end. */
  datatype Taken = Taken(counts: seq<nat>, ok: bool)

  /** The removal loop on counts: tiles come off in order, and at the first
    * tile whose rack letter has count 0 the loop stops, with the tiles
    * before it already off. */
  function Take(counts: seq<nat>, ts: seq<MachineLetter>): (r: Taken)
    requires |counts| == ALPHABET_SIZE && MoveTiles(ts)
    ensures |r.counts| == ALPHABET_SIZE
  {
    if ts == [] then Taken(counts, true)
    else
      var p := Take(counts, ts[..|ts| - 1]);
      var t := ts[|ts| - 1];
      if !p.ok || t == PLAYED_THROUGH then p
      else
        var l := RackLetter(t);
        if p.counts[l] == 0 then Taken(p.counts, false)
        else Taken(p.counts[l := p.counts[l] - 1], true)
  }

  /** The rack holds every letter of u at least as often as u uses it. */
  predicate Holds(counts: seq<nat>, u: seq<MachineLetter>)
    requires |counts| == ALPHABET_SIZE
  {
    forall l :: 0 <= l < ALPHABET_SIZE ==> multiset(u)[l] <= counts[l]
  }

  /** The removal succeeds exactly when the rack holds every letter the tiles
    * use; then it takes exactly those letters off. Either way no count grows. */
  lemma {:induction false} TakeMeaning(counts: seq<nat>, ts: seq<MachineLetter>)
    requires |counts| == ALPHABET_SIZE && MoveTiles(ts)
    ensures Take(counts, ts).ok <==> Holds(counts, Used(ts))
    ensures Take(counts, ts).ok ==> forall l :: 0 <= l < ALPHABET_SIZE ==>
      Take(counts, ts).counts[l] + multiset(Used(ts))[l] == counts[l]
    ensures forall l :: 0 <= l < ALPHABET_SIZE ==> Take(counts, ts).counts[l] <= counts[l]
  {
    if ts != [] {
      TakeMeaning(counts, ts[..|ts| - 1]);
      TakeStep(counts, ts);
    }
  }

  /** One more tile: the facts of TakeMeaning carry over from the tiles before it. */
  lemma TakeStep(counts: seq<nat>, ts: seq<MachineLetter>)
    requires |counts| == ALPHABET_SIZE && MoveTiles(ts) && ts != []
    requires var ts' := ts[..|ts| - 1];
      && (Take(counts, ts').ok <==> Holds(counts, Used(ts')))
      && (Take(counts, ts').ok ==> forall l :: 0 <= l < ALPHABET_SIZE ==>
        Take(counts, ts').counts[l] + multiset(Used(ts'))[l] == counts[l])
      && (forall l :: 0 <= l < ALPHABET_SIZE ==> Take(counts, ts').counts[l] <= counts[l])
    ensures Take(counts, ts).ok <==> Holds(counts, Used(ts))
    ensures Take(counts, ts).ok ==> forall l :: 0 <= l < ALPHABET_SIZE ==>
      Take(counts, ts).counts[l] + multiset(Used(ts))[l] == counts[l]
    ensures forall l :: 0 <= l < ALPHABET_SIZE ==> Take(counts, ts).counts[l] <= counts[l]
  {
    var ts' := ts[..|ts| - 1];
    var t := ts[|ts| - 1];
    var p := Take(counts, ts');
    if t == PLAYED_THROUGH {
      assert Used(ts) == Used(ts');
      assert Take(counts, ts) == p;
    } else {
      var l := RackLetter(t);
      assert Used(ts) == Used(ts') + [l];
      TakeLetter(counts, p.counts, p.ok, Used(ts'), l);
    }
  }

  /** The removal of one rack letter l, on counts pc that the letters u took
    * off counts (or that a failed removal left). */
  lemma TakeLetter(counts: seq<nat>, pc: seq<nat>, pok: bool, u: seq<MachineLetter>, l: MachineLetter)
    requires |counts| == ALPHABET_SIZE && |pc| == ALPHABET_SIZE && IsLetter(l)
    requires pok <==> Holds(counts, u)
    requires pok ==> forall x :: 0 <= x < ALPHABET_SIZE ==> pc[x] + multiset(u)[x] == counts[x]
    requires forall x :: 0 <= x < ALPHABET_SIZE ==> pc[x] <= counts[x]
    ensures var ok := pok && pc[l] != 0;
      && (ok <==> Holds(counts, u + [l]))
      && (ok ==> forall x :: 0 <= x < ALPHABET_SIZE ==> pc[l := pc[l] - 1][x] + multiset(u + [l])[x] == counts[x])
      && (ok ==> forall x :: 0 <= x < ALPHABET_SIZE ==> pc[l := pc[l] - 1][x] <= counts[x])
  {
    var m := multiset(u + [l]);
    assert m == multiset(u) + multiset{l};
    if !pok {
      var x :| 0 <= x < ALPHABET_SIZE && multiset(u)[x] > counts[x];
      assert m[x] > counts[x];
    } else if pc[l] == 0 {
      assert m[l] > counts[l];
    }
  }

  /** With one A and no B on the rack, playing A then B fails at B and
    * leaves the rack without its A: game_play_move puts no tile back. */
  lemma NoRollbackOnPlay(counts: seq<nat>)
    requires |counts| == ALPHABET_SIZE && counts[1] == 1 && counts[2] == 0
    ensures Take(counts, [1, 2]) == Taken(counts[1 := 0], false)
  {
    assert [1, 2][..1] == [1];
    assert [1][..0] == [];
    assert Take(counts, [1]) == Taken(counts[1 := 0], true);
  }

  /** The removal loop of game_play_move: tiles come off the rack one by
    * one until one is missing; the tiles before it stay off. */
  method TakeTiles(rack: Rack, ts: seq<MachineLetter>) returns (ok: bool)
    requires rack.Valid() && rack.Consistent() && MoveTiles(ts)
    modifies rack, rack.counts
    ensures rack.Valid() && rack.Consistent() && rack.total <= old(rack.total)
    ensures ok == Take(old(rack.counts[..]), ts).ok
    ensures rack.counts[..] == Take(old(rack.counts[..]), ts).counts
  {
    ghost var C0: seq<nat> := rack.counts[..];
    ghost var t0 := rack.total;
    var i := 0;
    while i < |ts|
      invariant 0 <= i <= |ts|
      invariant rack.Valid() && rack.Consistent() && rack.total <= t0
      invariant Take(C0, ts[..i]) == Taken(rack.counts[..], true)
    {
      assert ts[..i + 1][..i] == ts[..i];
      var tile := ts[i];
      if tile != PLAYED_THROUGH {
        var rackTile := if IsBlanked(tile) then BLANK_ML else tile;
        SumToBounds(rack.counts[..], ALPHABET_SIZE, rackTile);
        var removed := rack.RemoveTile(rackTile);
        if !removed {
          assert ts[..i + 1] + ts[i + 1..] == ts;
          TakeStops(C0, ts, i + 1);
          return false;
        }
      }
      i := i + 1;
    }
    assert ts[..i] == ts;
    return true;
  }

  /** Once the removal fails it stays failed, whatever tiles follow. */
  lemma {:induction false} TakeStops(counts: seq<nat>, ts: seq<MachineLetter>, k: nat)
    requires |counts| == ALPHABET_SIZE && MoveTiles(ts) && k <= |ts|
    requires !Take(counts, ts[..k]).ok
    ensures Take(counts, ts) == Take(counts, ts[..k])
    decreases |ts| - k
  {
    if k < |ts| {
      assert ts[..k + 1][..k] == ts[..k];
      TakeStops(counts, ts, k + 1);
    } else {
      assert ts[..k] == ts;
    }
  }

  /** The rollback loop of game_exchange: the tiles go back on the rack one
    * by one, which returns every count to what it was. */
  method PutBack(rack: Rack, ts: seq<MachineLetter>, ghost before: seq<nat>)
    requires rack.Valid() && rack.Consistent() && |before| == ALPHABET_SIZE
    requires forall i :: 0 <= i < |ts| ==> IsLetter(ts[i])
    requires forall l :: 0 <= l < ALPHABET_SIZE ==> rack.counts[l] + multiset(ts)[l] == before[l]
    requires forall l :: 0 <= l < ALPHABET_SIZE ==> before[l] < 256
    requires rack.total + |ts| < 256
    modifies rack, rack.counts
    ensures rack.Valid() && rack.Consistent()
    ensures rack.counts[..] == before
    ensures rack.total == old(rack.total) + |ts|
  {
    assert ts[0..] == ts;
    ghost var t0 := rack.total;
    var j := 0;
    while j < |ts|
      invariant 0 <= j <= |ts|
      invariant rack.Valid() && rack.Consistent() && rack.total == t0 + j
      invariant forall l :: 0 <= l < ALPHABET_SIZE ==> rack.counts[l] + multiset(ts[j..])[l] == before[l]
    {
      assert ts[j..] == [ts[j]] + ts[j + 1..];
      rack.AddTile(ts[j]);
      j := j + 1;
    }
    assert forall l :: 0 <= l < ALPHABET_SIZE ==> rack.counts[..][l] == before[l];
  }

  /** The rack and bag side of game_exchange once its checks pass: the
    * tiles come off the rack, or, when one is missing, the ones already off
    * go back and nothing has changed. Otherwise the rack is refilled from
    * the bag first and the exchanged tiles then go into the bag, which is
    * shuffled: the rack is full and rack and bag hold the same tiles as
    * before between them. */
  method SwapTiles(bag: Bag, rack: Rack, rng: Rng, ts: seq<MachineLetter>) returns (ok: bool)
    requires bag.Valid() && rack.Valid() && rack.Consistent()
    requires rack.total <= RACK_SIZE && bag.count >= RACK_SIZE
    requires forall i :: 0 <= i < |ts| ==> IsLetter(ts[i])
    modifies bag, bag.tiles, rng, rack, rack.counts
    ensures bag.Valid() && rack.Valid() && rack.Consistent()
    ensures ok <==> Holds(old(rack.counts[..]), ts)
    ensures !ok ==> unchanged(bag, bag.tiles) && rack.counts[..] == old(rack.counts[..]) && rack.total == old(rack.total)
    ensures ok ==> rack.total == RACK_SIZE && bag.count == old(bag.count) - RACK_SIZE + old(rack.total)
    ensures ok ==> forall l :: 0 <= l < ALPHABET_SIZE ==>
      rack.counts[l] + bag.Contents()[l] == old(rack.counts[l]) + old(bag.Contents())[l]
  {
    ghost var C0: seq<nat> := rack.counts[..];
    ok := TakeAll(rack, ts);
    if ok {
      Restock(bag, rack, rng, ts, C0);
    }
  }

  /** The removal loop of game_exchange with its rollback: either every
    * tile comes off the rack, or none does. */
  method TakeAll(rack: Rack, ts: seq<MachineLetter>) returns (ok: bool)
    requires rack.Valid() && rack.Consistent()
    requires forall i :: 0 <= i < |ts| ==> IsLetter(ts[i])
    modifies rack, rack.counts
    ensures rack.Valid() && rack.Consistent()
    ensures ok <==> Holds(old(rack.counts[..]), ts)
    ensures !ok ==> rack.counts[..] == old(rack.counts[..]) && rack.total == old(rack.total)
    ensures ok ==> rack.total + |ts| == old(rack.total)
    ensures ok ==> forall l :: 0 <= l < ALPHABET_SIZE ==> rack.counts[l] + multiset(ts)[l] == old(rack.counts[l])
  {
    ghost var C0: seq<nat> := rack.counts[..];
    ghost var t0 := rack.total;
    var i := 0;
    while i < |ts|
      invariant 0 <= i <= |ts|
      invariant rack.Valid() && rack.Consistent() && rack.total + i == t0
      invariant forall l :: 0 <= l < ALPHABET_SIZE ==> rack.counts[l] + multiset(ts[..i])[l] == C0[l]
    {
      assert ts[..i + 1] == ts[..i] + [ts[i]];
      SumToBounds(rack.counts[..], ALPHABET_SIZE, ts[i]);
      var removed := rack.RemoveTile(ts[i]);
      if !removed {
        MissingTile(C0, ts, i);
        PutBack(rack, ts[..i], C0);
        return false;
      }
      i := i + 1;
    }
    assert ts[..i] == ts;
    return true;
  }

  /** A tile the rack has run out of by the time it comes up is one more
    * copy than the rack held. */
  lemma MissingTile(counts: seq<nat>, ts: seq<MachineLetter>, i: nat)
    requires |counts| == ALPHABET_SIZE && i < |ts| && ts[i] < ALPHABET_SIZE
    requires multiset(ts[..i])[ts[i]] == counts[ts[i]]
    ensures !Holds(counts, ts)
  {
    assert ts == ts[..i] + [ts[i]] + ts[i + 1..];
    assert multiset(ts)[ts[i]] > counts[ts[i]];
  }

  /** The success path of SwapTiles: refill, then return the tiles to the bag. */
  method Restock(bag: Bag, rack: Rack, rng: Rng, ts: seq<MachineLetter>, ghost before: seq<nat>)
    requires bag.Valid() && rack.Valid() && rack.Consistent() && |before| == ALPHABET_SIZE
    requires bag.count >= RACK_SIZE && rack.total + |ts| <= RACK_SIZE
    requires forall i :: 0 <= i < |ts| ==> IsLetter(ts[i])
    requires forall l :: 0 <= l < ALPHABET_SIZE ==> rack.counts[l] + multiset(ts)[l] == before[l]
    modifies bag, bag.tiles, rng, rack, rack.counts
    ensures bag.Valid() && rack.Valid() && rack.Consistent()
    ensures rack.total == RACK_SIZE && bag.count == old(bag.count) - RACK_SIZE + old(rack.total) + |ts|
    ensures forall l :: 0 <= l < ALPHABET_SIZE ==>
      rack.counts[l] + bag.Contents()[l] == before[l] + old(bag.Contents())[l]
  {
    bag.RefillRack(rack);
    bag.ReturnTiles(ts, rng);
  }

  // ---------------------------------------------------------------------
  // The game state

  /** The mover's int16 score after a play: on going out, twice the value of
    * the opponent's tiles is added. */
  function EndScore(score: int, out: bool, opponent: seq<nat>): (r: int)
    requires |opponent| == ALPHABET_SIZE
    ensures IsInt16(score) ==> IsInt16(r)
  {
    if out then ToInt16(score + 2 * RackValueOf(opponent)) else score
  }

  /** GameState: the board, the bag, each player's rack and score (an int16_t
    * Equity), whose turn it is, the uint8_t count of consecutive passes and
    * the game-over flag. rng_state, a static of game.c, travels with it. */
  class GameState {
    const board: Board
    const bag: Bag
    const racks: seq<Rack>
    const scores: array<int>
    const rng: Rng
    var currentPlayer: int
    var passes: Byte
    var gameOver: bool

    ghost function Repr(): set<object>
    {
      {this, board, board.hLetters, board.vLetters, board.hSquares, board.vSquares, board.bonuses,
       bag, bag.tiles, scores, rng} +
      (if |racks| == 2 then {racks[0], racks[0].counts, racks[1], racks[1].counts} else {})
    }

    /** Two players with their own racks, each rack's total agreeing with
      * its counts and never above RACK_SIZE, int16 scores, player 0 or 1 to
      * move, and no two parts sharing an array. */
    ghost predicate Valid()
      reads Repr()
    {
      Parts() && (currentPlayer == 0 || currentPlayer == 1)
    }

    /** The objects the game is made of, as Valid requires them; none of
      * them is the game's own state. */
    ghost predicate Parts()
      reads Repr() - {this}
    {
      |racks| == 2 && scores.Length == 2 &&
      board.Valid() && bag.Valid() &&
      racks[0].Valid() && racks[1].Valid() && racks[0].Consistent() && racks[1].Consistent() &&
      racks[0] != racks[1] && racks[0].counts != racks[1].counts &&
      racks[0].total <= RACK_SIZE && racks[1].total <= RACK_SIZE &&
      bag.tiles != board.hLetters && bag.tiles != board.vLetters &&
      IsInt16(scores[0]) && IsInt16(scores[1])
    }

    constructor ()
      ensures Valid() && currentPlayer == 0 && passes == 0 && !gameOver
    {
      board := new Board();
      bag := new Bag();
      var r0 := new Rack();
      var r1 := new Rack();
      racks := [r0, r1];
      scores := new int[2](_ => 0);
      rng := new Rng();
      currentPlayer := 0;
      passes := 0;
      gameOver := false;
    }

    /** game_init: an empty board, a full bag shuffled, each player at 0
      * with seven tiles drawn, player 0 to move. Between them the racks and
      * the bag hold the standard distribution. */
    method Init()
      requires Valid()
      modifies Repr()
      ensures Valid() && currentPlayer == 0 && passes == 0 && !gameOver
      ensures scores[0] == 0 && scores[1] == 0
      ensures board.Counted() && forall p :: 0 <= p < BOARD_SIZE ==> board.hLetters[p] == EMPTY_SQUARE
      ensures racks[0].total == RACK_SIZE && racks[1].total == RACK_SIZE
      ensures bag.count == MAX_TILES_IN_BAG - 2 * RACK_SIZE
      ensures forall l :: 0 <= l < ALPHABET_SIZE ==>
        racks[0].counts[l] as int + racks[1].counts[l] + bag.Contents()[l] == TILE_COUNTS[l]
    {
      Start();
      currentPlayer := 0;
      passes := 0;
      gameOver := false;
    }

    /** The board, the bag and the racks of game_init, before the turn is set. */
    method Start()
      requires Valid()
      modifies board, board.hLetters, board.vLetters, board.hSquares, board.vSquares, board.bonuses
      modifies bag, bag.tiles, rng, scores, racks[0], racks[0].counts, racks[1], racks[1].counts
      ensures Parts()
      ensures scores[0] == 0 && scores[1] == 0
      ensures board.Counted() && forall p :: 0 <= p < BOARD_SIZE ==> board.hLetters[p] == EMPTY_SQUARE
      ensures racks[0].total == RACK_SIZE && racks[1].total == RACK_SIZE
      ensures bag.count == MAX_TILES_IN_BAG - 2 * RACK_SIZE
      ensures forall l :: 0 <= l < ALPHABET_SIZE ==>
        racks[0].counts[l] as int + racks[1].counts[l] + bag.Contents()[l] == TILE_COUNTS[l]
    {
      Setup();
      Deal(0);
      Deal(1);
    }

    /** The start of game_init: the board emptied, the bag filled with the
      * standard distribution and shuffled. */
    method Setup()
      requires Valid()
      modifies board, board.hLetters, board.vLetters, board.hSquares, board.vSquares, board.bonuses
      modifies bag, bag.tiles, rng
      ensures Valid()
      ensures board.Counted() && forall p :: 0 <= p < BOARD_SIZE ==> board.hLetters[p] == EMPTY_SQUARE
      ensures bag.count == MAX_TILES_IN_BAG
      ensures forall l :: 0 <= l < ALPHABET_SIZE ==> bag.Contents()[l] == TILE_COUNTS[l]
    {
      ClearBoard();
      FillBag();
    }

    /** board_init on the game's board. */
    method ClearBoard()
      requires Valid()
      modifies board, board.hLetters, board.vLetters, board.hSquares, board.vSquares, board.bonuses
      ensures Valid()
      ensures board.Counted() && forall p :: 0 <= p < BOARD_SIZE ==> board.hLetters[p] == EMPTY_SQUARE
    {
      board.Init();
    }

    /** bag_init and bag_shuffle on the game's bag. */
    method FillBag()
      requires Valid()
      modifies bag, bag.tiles, rng
      ensures Valid()
      ensures bag.count == MAX_TILES_IN_BAG
      ensures forall l :: 0 <= l < ALPHABET_SIZE ==> bag.Contents()[l] == TILE_COUNTS[l]
    {
      bag.Init();
      bag.Shuffle(rng);
    }

    /** One pass of game_init's loop over the players: an empty rack, a
      * score of 0, then seven tiles drawn from the bag. */
    method Deal(p: int)
      requires Valid() && (p == 0 || p == 1) && bag.count >= RACK_SIZE
      modifies bag, racks[p], racks[p].counts, scores
      ensures Valid() && racks[p].total == RACK_SIZE
      ensures bag.count == old(bag.count) - RACK_SIZE
      ensures scores[p] == 0 && scores[1 - p] == old(scores[1 - p])
      ensures forall l :: 0 <= l < ALPHABET_SIZE ==> racks[p].counts[l] + bag.Contents()[l] == old(bag.Contents())[l]
    {
      racks[p].Init();
      scores[p] := 0;
      bag.RefillRack(racks[p]);
    }

    /** game_play_move. A finished game refuses the move. Otherwise the
      * mover's tiles come off the rack (see Take), and a missing tile stops
      * the play with the earlier tiles already gone. A play that goes
      * through lands on the board, adds the move's score, refills the rack,
      * clears the passes and hands the turn over; when the mover's rack and
      * the bag are both empty the game ends and the mover gains twice the
      * value of the opponent's tiles. */
    method PlayMove(m: Move) returns (ok: bool)
      requires Valid() && MoveFits(m) && MoveTiles(m.tiles[..m.tilesLength])
      modifies this, scores, board, board.hLetters, board.vLetters, bag
      modifies racks[currentPlayer], racks[currentPlayer].counts
      ensures Valid()
      ensures old(gameOver) ==> !ok && unchanged(racks[currentPlayer], racks[currentPlayer].counts)
      ensures !old(gameOver) ==> ok == Take(old(racks[currentPlayer].counts[..]), m.tiles[..m.tilesLength]).ok
      ensures !ok ==> unchanged(this, scores, board, board.hLetters, board.vLetters, bag)
      ensures !old(gameOver) && !ok ==> racks[old(currentPlayer)].counts[..] == Take(old(racks[currentPlayer].counts[..]), m.tiles[..m.tilesLength]).counts
      ensures ok ==> board.hLetters[..] == Placed(old(board.hLetters[..]), m, m.tilesLength)
      ensures ok ==> currentPlayer == 1 - old(currentPlayer) && passes == 0
      ensures ok ==> var kept := SumTo(Take(old(racks[currentPlayer].counts[..]), m.tiles[..m.tilesLength]).counts, ALPHABET_SIZE);
        racks[old(currentPlayer)].total == kept + Drawn(kept, old(bag.count)) &&
        bag.count == old(bag.count) - Drawn(kept, old(bag.count))
      ensures ok ==> forall l :: 0 <= l < ALPHABET_SIZE ==>
        racks[old(currentPlayer)].counts[l] + bag.Contents()[l] ==
        Take(old(racks[currentPlayer].counts[..]), m.tiles[..m.tilesLength]).counts[l] + old(bag.Contents())[l]
      ensures ok ==> gameOver == (racks[old(currentPlayer)].total == 0 && bag.count == 0)
      ensures ok ==> (scores[old(currentPlayer)] ==
        EndScore(ToInt16(old(scores[currentPlayer]) + m.score), gameOver, racks[1 - old(currentPlayer)].counts[..]))
      ensures scores[1 - old(currentPlayer)] == old(scores[1 - currentPlayer])
    {
      if gameOver {
        return false;
      }
      ok := PlayTiles(m, Take(racks[currentPlayer].counts[..], m.tiles[..m.tilesLength]));
    }

    /** game_play_move once the game is known not to be over. */
    method PlayTiles(m: Move, ghost take: Taken) returns (ok: bool)
      requires Valid() && !gameOver && MoveFits(m) && MoveTiles(m.tiles[..m.tilesLength])
      requires take == Take(racks[currentPlayer].counts[..], m.tiles[..m.tilesLength])
      modifies this, scores, board, board.hLetters, board.vLetters, bag
      modifies racks[currentPlayer], racks[currentPlayer].counts
      ensures Valid()
      ensures ok == take.ok
      ensures !ok ==> unchanged(this, scores, board, board.hLetters, board.vLetters, bag)
      ensures !ok ==> racks[old(currentPlayer)].counts[..] == take.counts
      ensures ok ==> board.hLetters[..] == Placed(old(board.hLetters[..]), m, m.tilesLength)
      ensures ok ==> currentPlayer == 1 - old(currentPlayer) && passes == 0
      ensures ok ==> (racks[old(currentPlayer)].total ==
        SumTo(take.counts, ALPHABET_SIZE) + Drawn(SumTo(take.counts, ALPHABET_SIZE), old(bag.count)))
      ensures ok ==> bag.count == old(bag.count) - Drawn(SumTo(take.counts, ALPHABET_SIZE), old(bag.count))
      ensures ok ==> forall l :: 0 <= l < ALPHABET_SIZE ==>
        racks[old(currentPlayer)].counts[l] + bag.Contents()[l] == take.counts[l] + old(bag.Contents())[l]
      ensures ok ==> gameOver == (racks[old(currentPlayer)].total == 0 && bag.count == 0)
      ensures ok ==> (scores[old(currentPlayer)] ==
        EndScore(ToInt16(old(scores[currentPlayer]) + m.score), gameOver, racks[1 - old(currentPlayer)].counts[..]))
      ensures scores[1 - old(currentPlayer)] == old(scores[1 - currentPlayer])
    {
      var me := currentPlayer;
      ghost var mine, theirs := scores[me], scores[1 - me];
      ghost var letters, inBag := board.hLetters[..], bag.Contents();
      ok := Remove(me, m.tiles[..m.tilesLength], take);
      if ok {
        Commit(me, m, take.counts, mine, theirs, letters, inBag);
      }
    }

    /** The removal loop of game_play_move on the mover's rack. */
    method Remove(me: int, ts: seq<MachineLetter>, ghost take: Taken) returns (ok: bool)
      requires Valid() && me == currentPlayer && MoveTiles(ts)
      requires take == Take(racks[me].counts[..], ts)
      modifies racks[me], racks[me].counts
      ensures Valid()
      ensures ok == take.ok && racks[me].counts[..] == take.counts
    {
      ok := TakeTiles(racks[me], ts);
    }

    /** The part of game_play_move after the tiles are off the rack: place
      * them, score, refill, reset the passes, switch players, check for the
      * end of the game. */
    method Commit(me: int, m: Move, ghost kept: seq<nat>, ghost mine: int, ghost theirs: int,
                  ghost letters: seq<MachineLetter>, ghost inBag: multiset<MachineLetter>)
      requires Valid() && !gameOver && me == currentPlayer && MoveFits(m)
      requires racks[me].counts[..] == kept && scores[me] == mine && scores[1 - me] == theirs
      requires board.hLetters[..] == letters && bag.Contents() == inBag
      modifies this, scores, board, board.hLetters, board.vLetters, bag, racks[me], racks[me].counts
      ensures Valid()
      ensures board.hLetters[..] == Placed(letters, m, m.tilesLength)
      ensures currentPlayer == 1 - me && passes == 0
      ensures racks[me].total == SumTo(kept, ALPHABET_SIZE) + Drawn(SumTo(kept, ALPHABET_SIZE), old(bag.count))
      ensures bag.count == old(bag.count) - Drawn(SumTo(kept, ALPHABET_SIZE), old(bag.count))
      ensures forall l :: 0 <= l < ALPHABET_SIZE ==>
        racks[me].counts[l] + bag.Contents()[l] == kept[l] + inBag[l]
      ensures gameOver == (racks[me].total == 0 && bag.count == 0)
      ensures scores[me] == EndScore(ToInt16(mine + m.score), gameOver, racks[1 - me].counts[..])
      ensures scores[1 - me] == theirs
    {
      Place(me, m);
      ghost var placed := board.hLetters[..];
      ghost var s1 := scores[me];
      assert placed == Placed(letters, m, m.tilesLength) && s1 == ToInt16(mine + m.score);
      assert scores[1 - me] == theirs && bag.Contents() == inBag && racks[me].counts[..] == kept;
      Refill(me);
      assert board.hLetters[..] == placed && scores[me] == s1 && scores[1 - me] == theirs;
      GoOut(me);
      assert scores[me] == EndScore(s1, gameOver, racks[1 - me].counts[..]);
    }

    /** The move goes on the board and its score onto the mover's. */
    method Place(me: int, m: Move)
      requires Valid() && me == currentPlayer && MoveFits(m)
      modifies scores, board, board.hLetters, board.vLetters
      ensures Valid()
      ensures board.hLetters[..] == Placed(old(board.hLetters[..]), m, m.tilesLength)
      ensures scores[me] == ToInt16(old(scores[me]) + m.score) && scores[1 - me] == old(scores[1 - me])
    {
      board.ApplyMove(m);
      scores[me] := ToInt16(scores[me] + m.score);
    }

    /** The mover's rack is refilled from the bag, the passes are cleared
      * and the turn goes over. */
    method Refill(me: int)
      requires Valid() && me == currentPlayer
      modifies this`passes, this`currentPlayer, bag, racks[me], racks[me].counts
      ensures Valid()
      ensures currentPlayer == 1 - me && passes == 0
      ensures racks[me].total == old(racks[me].total) + Drawn(old(racks[me].total), old(bag.count))
      ensures bag.count == old(bag.count) - Drawn(old(racks[me].total), old(bag.count))
      ensures forall l :: 0 <= l < ALPHABET_SIZE ==>
        racks[me].counts[l] + bag.Contents()[l] == old(racks[me].counts[l]) + old(bag.Contents())[l]
    {
      bag.RefillRack(racks[me]);
      passes := 0;
      currentPlayer := 1 - currentPlayer;
    }

    /** The going-out check of game_play_move: with the mover's rack and the
      * bag both empty the game is over and the mover gains twice the value
      * of the opponent's tiles. */
    method GoOut(me: int)
      requires Valid() && !gameOver && me == 1 - currentPlayer
      modifies this`gameOver, scores
      ensures Valid()
      ensures gameOver == (racks[me].total == 0 && bag.count == 0)
      ensures scores[me] == EndScore(old(scores[me]), gameOver, racks[1 - me].counts[..])
      ensures scores[1 - me] == old(scores[1 - me])
    {
      if racks[me].total == 0 && bag.count == 0 {
        gameOver := true;
        var remaining := RackValue(racks[1 - me]);
        scores[me] := ToInt16(scores[me] + remaining * 2);
      }
    }

    /** game_pass: in a game still going, the pass count goes up and the
      * turn changes; the sixth consecutive pass ends the game and each
      * player loses the value of the tiles left on the rack. */
    method Pass()
      requires Valid()
      modifies this, scores
      ensures Valid()
      ensures old(gameOver) ==> unchanged(this, scores)
      ensures !old(gameOver) ==> passes == Inc8(old(passes)) && currentPlayer == 1 - old(currentPlayer)
      ensures !old(gameOver) ==> gameOver == (passes >= 6)
      ensures !old(gameOver) && gameOver ==>
        scores[0] == ToInt16(old(scores[0]) - RackValueOf(racks[0].counts[..])) &&
        scores[1] == ToInt16(old(scores[1]) - RackValueOf(racks[1].counts[..]))
      ensures !gameOver ==> scores[..] == old(scores[..])
    {
      if gameOver {
        return;
      }
      passes := Inc8(passes);
      currentPlayer := 1 - currentPlayer;
      if passes >= 6 {
        gameOver := true;
        DeductRacks();
      }
    }

    /** The end of game_pass: each player loses the value of the tiles
      * left on the rack. */
    method DeductRacks()
      requires |racks| == 2 && scores.Length == 2 && racks[0].Valid() && racks[1].Valid()
      modifies scores
      ensures scores[0] == ToInt16(old(scores[0]) - RackValueOf(racks[0].counts[..]))
      ensures scores[1] == ToInt16(old(scores[1]) - RackValueOf(racks[1].counts[..]))
    {
      ghost var s0, s1 := scores[0], scores[1];
      var p := 0;
      while p < 2
        invariant 0 <= p <= 2
        invariant scores[0] == if p > 0 then ToInt16(s0 - RackValueOf(racks[0].counts[..])) else s0
        invariant scores[1] == if p > 1 then ToInt16(s1 - RackValueOf(racks[1].counts[..])) else s1
      {
        var remaining := RackValue(racks[p]);
        scores[p] := ToInt16(scores[p] - remaining);
        p := p + 1;
      }
    }

    /** game_exchange: refused when the game is over or the bag holds fewer
      * than RACK_SIZE tiles, and refused with every tile put back when the
      * rack lacks one of them (see SwapTiles). A swap that goes through
      * counts as a pass and hands the turn over. */
    method Exchange(ts: seq<MachineLetter>) returns (ok: bool)
      requires Valid() && forall i :: 0 <= i < |ts| ==> IsLetter(ts[i])
      modifies this, bag, bag.tiles, rng, racks[currentPlayer], racks[currentPlayer].counts
      ensures Valid()
      ensures ok <==> !old(gameOver) && old(bag.count) >= RACK_SIZE && Holds(old(racks[currentPlayer].counts[..]), ts)
      ensures !ok ==> unchanged(this, bag, bag.tiles)
      ensures !ok ==> (racks[currentPlayer].counts[..] == old(racks[currentPlayer].counts[..]) &&
        racks[currentPlayer].total == old(racks[currentPlayer].total))
      ensures ok ==> currentPlayer == 1 - old(currentPlayer) && passes == Inc8(old(passes)) && !gameOver
      ensures ok ==> racks[old(currentPlayer)].total == RACK_SIZE
      ensures ok ==> bag.count == old(bag.count) - RACK_SIZE + old(racks[currentPlayer].total)
      ensures ok ==> forall l :: 0 <= l < ALPHABET_SIZE ==>
        racks[old(currentPlayer)].counts[l] + bag.Contents()[l] == old(racks[currentPlayer].counts[l]) + old(bag.Contents())[l]
    {
      if gameOver || bag.count < RACK_SIZE {
        return false;
      }
      ok := SwapTiles(bag, racks[currentPlayer], rng, ts);
      if ok {
        passes := Inc8(passes);
        currentPlayer := 1 - currentPlayer;
      }
    }

    /** game_is_over: the game-over flag. */
    function IsOver(): (r: bool)
      reads this
      ensures r <==> gameOver
    {
      gameOver
    }
  }
}
