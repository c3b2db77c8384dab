// Move scoring of src/game.c (get_letter_mult, get_word_mult, score_move):
// the main word with letter and word multipliers on freshly placed tiles,
// the cross words those tiles form, and the 50-point bingo bonus.
module Scoring {
  import opened Defs
  import opened Equity
  import opened BoardTables
  import opened KwgNode
  import opened Kwg
  import opened Board

  /** get_letter_mult: double and triple letter squares, 1 elsewhere. */
  function LetterMult(b: Bonus): (k: int)
    ensures 1 <= k <= 3
    ensures k > 1 <==> b == BONUS_DL || b == BONUS_TL
  {
    if b == BONUS_DL then 2 else if b == BONUS_TL then 3 else 1
  }

  /** get_word_mult: double word squares and the centre star double, triple
    * word squares triple, 1 elsewhere. */
  function WordMult(b: Bonus): (k: int)
    ensures 1 <= k <= 3
    ensures k > 1 <==> b == BONUS_DW || b == BONUS_TW || b == BONUS_CENTER
  {
    if b == BONUS_DW || b == BONUS_CENTER then 2 else if b == BONUS_TW then 3 else 1
  }

  /** No square multiplies both the letter and the word. */
  lemma MultipliersExclusive(b: Bonus)
    ensures LetterMult(b) == 1 || WordMult(b) == 1
  {
  }

  const BINGO_BONUS: int := 50

  /** Every square the move covers, played-through ones included, is on the board. */
  predicate MoveOnBoard(m: Move)
  {
    0 <= m.tilesLength <= |m.tiles| &&
    forall i :: 0 <= i < m.tilesLength ==> OnBoard(MoveSquare(m, i).0, MoveSquare(m, i).1)
  }

  /** What score_move may assume of a valid move on this board: its squares
    * are on the board, its tiles and the board's are letters, blanked
    * letters or the played-through marker, and both tables cover the board. */
  predicate Scoreable(L: seq<MachineLetter>, B: seq<Bonus>, m: Move)
  {
    |L| == BOARD_SIZE && |B| == BOARD_SIZE && Scorable(L) && MoveOnBoard(m) && TilesScorable(m)
  }

  /** The move's tiles are letters, blanked letters or the played-through marker. */
  predicate TilesScorable(m: Move)
    requires 0 <= m.tilesLength <= |m.tiles|
  {
    forall i :: 0 <= i < m.tilesLength ==> IsBlanked(m.tiles[i]) || IsLetter(m.tiles[i])
  }

  /** The row-major index of the square of tile i. */
  function SquareIdx(m: Move, i: int): (p: int)
    requires MoveOnBoard(m) && 0 <= i < m.tilesLength
    ensures 0 <= p < BOARD_SIZE
  {
    Idx(MoveSquare(m, i).0, MoveSquare(m, i).1)
  }

  /** The running sums of score_move: main word, cross words, word multiplier
    * and number of fresh tiles. */
  datatype Tally = Tally(main: int, cross: int, wordMult: int, placed: nat)

  /** One tile's contribution: a played-through tile adds the face value of
    * the letter already there to the main word; a fresh tile adds its value
    * times the letter multiplier, multiplies the word, and when x, its cross
    * score, is not negative adds the cross word times the word multiplier. */
  function AddTile(t: Tally, tile: MachineLetter, existing: MachineLetter, b: Bonus, x: int): Tally
    requires IsBlanked(tile) || IsLetter(tile)
    requires IsBlanked(existing) || IsLetter(existing)
  {
    if tile == PLAYED_THROUGH then t.(main := t.main + TileValue(existing))
    else
      var v := TileValue(tile) * LetterMult(b);
      Tally(t.main + v, t.cross + (if x >= 0 then (v + x) * WordMult(b) else 0),
            t.wordMult * WordMult(b), t.placed + 1)
  }

  /** The sums after the first n tiles of the move, in unbounded integers.
    * X[i] is the cross score consulted for tile i (negative: no cross word). */
  function TallyTo(L: seq<MachineLetter>, B: seq<Bonus>, X: seq<int>, m: Move, n: int): (t: Tally)
    requires Scoreable(L, B, m) && |X| == m.tilesLength && 0 <= n <= m.tilesLength
    ensures t.placed <= n && t.wordMult >= 1
  {
    if n == 0 then Tally(0, 0, 1, 0)
    else
      var p := SquareIdx(m, n - 1);
      AddTile(TallyTo(L, B, X, m, n - 1), m.tiles[n - 1], L[p], B[p], X[n - 1])
  }

  /** The score of the move in unbounded integers. */
  function MoveScore(L: seq<MachineLetter>, B: seq<Bonus>, X: seq<int>, m: Move): int
    requires Scoreable(L, B, m) && |X| == m.tilesLength
  {
    var t := TallyTo(L, B, X, m, m.tilesLength);
    t.main * t.wordMult + t.cross + (if t.placed == RACK_SIZE then BINGO_BONUS else 0)
  }

  /** The cross scores of one view of the board, square by square. */
  function ScoresOf(squares: seq<SquareSets>): (s: seq<int>)
    ensures |s| == |squares| && forall p :: 0 <= p < |s| ==> s[p] == squares[p].score
  {
    seq(|squares|, p requires 0 <= p < |squares| => squares[p].score)
  }

  /** The cross score of tile i of the move, narrowed to int8_t, read from
    * the view of the move's direction at that square's own index: the
    * horizontal view holds (r, c) at Idx(r, c), the vertical view at Idx(c, r). */
  function TableCross(HS: seq<int>, VS: seq<int>, m: Move): (X: seq<int>)
    requires |HS| == BOARD_SIZE && |VS| == BOARD_SIZE && MoveOnBoard(m)
    ensures |X| == m.tilesLength
  {
    seq(m.tilesLength, i requires 0 <= i < m.tilesLength =>
      var (r, c) := MoveSquare(m, i);
      ToInt8(if m.dir == DIR_H then HS[Idx(r, c)] else VS[Idx(c, r)]))
  }

  /** The cross scores as score_move reads them: a vertical move also uses the
    * row-major index, so it reads the vertical view at the transposed square. */
  function TableCrossAsWritten(HS: seq<int>, VS: seq<int>, m: Move): (X: seq<int>)
    requires |HS| == BOARD_SIZE && |VS| == BOARD_SIZE && MoveOnBoard(m)
    ensures |X| == m.tilesLength
  {
    seq(m.tilesLength, i requires 0 <= i < m.tilesLength =>
      var (r, c) := MoveSquare(m, i);
      ToInt8(if m.dir == DIR_H then HS[Idx(r, c)] else VS[Idx(r, c)]))
  }

  /** The score of the word that crosses square k of a line: the tiles next
    * to it along the other direction, -1 when there are none. */
  function LineScore(L: seq<MachineLetter>, vertical: bool, fixed: int, k: int): int
    requires |L| == BOARD_SIZE && Scorable(L) && 0 <= fixed < BOARD_DIM && 0 <= k < BOARD_DIM
  {
    RunsScorable(L, vertical, fixed, k);
    CrossScoreOf(RunTo(L, vertical, fixed, k - 1), RunFrom(L, vertical, fixed, k + 1))
  }

  /** The score of the word tile i forms across the move: along its column
    * for a horizontal move, along its row for a vertical one. */
  function PerpCross(L: seq<MachineLetter>, m: Move): (X: seq<int>)
    requires |L| == BOARD_SIZE && Scorable(L) && MoveOnBoard(m)
    ensures |X| == m.tilesLength
  {
    seq(m.tilesLength, i requires 0 <= i < m.tilesLength =>
      var (r, c) := MoveSquare(m, i);
      if m.dir == DIR_H then LineScore(L, true, c, r) else LineScore(L, false, r, c))
  }

  /** The score tables hold, for every empty square, the score of the word
    * each direction of play would cross there. */
  ghost predicate ScoresCurrent(L: seq<MachineLetter>, HS: seq<int>, VS: seq<int>)
    requires |L| == BOARD_SIZE && Scorable(L)
  {
    |HS| == BOARD_SIZE && |VS| == BOARD_SIZE &&
    (forall r, c {:trigger HS[Idx(r, c)]} :: OnBoard(r, c) && L[Idx(r, c)] == EMPTY_SQUARE ==>
      HS[Idx(r, c)] == LineScore(L, true, c, r)) &&
    (forall r, c {:trigger VS[Idx(c, r)]} :: OnBoard(r, c) && L[Idx(r, c)] == EMPTY_SQUARE ==>
      VS[Idx(c, r)] == LineScore(L, false, r, c))
  }

  /** board_update_cross_sets leaves the score tables current. */
  lemma UpdatedScoresCurrent(kwg: seq<Node>, L: seq<MachineLetter>, H0: seq<SquareSets>, V0: seq<SquareSets>,
                             H: seq<SquareSets>, V: seq<SquareSets>)
    requires WellFormed(kwg) && |L| == BOARD_SIZE && Scorable(L)
    requires |H0| == |V0| == |H| == |V| == BOARD_SIZE
    requires forall r, c :: OnBoard(r, c) ==> H[Idx(r, c)] == HTarget(kwg, L, H0[Idx(r, c)], r, c)
    requires forall r, c :: OnBoard(r, c) ==> V[Idx(c, r)] == VTarget(kwg, L, V0[Idx(c, r)], r, c)
    ensures ScoresCurrent(L, ScoresOf(H), ScoresOf(V))
  {
    forall r, c | OnBoard(r, c) && L[Idx(r, c)] == EMPTY_SQUARE
      ensures ScoresOf(H)[Idx(r, c)] == LineScore(L, true, c, r)
      ensures ScoresOf(V)[Idx(c, r)] == LineScore(L, false, r, c)
    {
      assert H[Idx(r, c)] == HSets(kwg, L, r, c);
      assert V[Idx(c, r)] == VSets(kwg, L, r, c);
    }
  }

  /** Every fresh tile of the move lands on an empty square. */
  predicate FreshOnEmpty(L: seq<MachineLetter>, m: Move)
    requires |L| == BOARD_SIZE && MoveOnBoard(m)
  {
    forall i :: 0 <= i < m.tilesLength && m.tiles[i] != PLAYED_THROUGH ==> L[SquareIdx(m, i)] == EMPTY_SQUARE
  }

  /** A cross score is a byte-sized value or -1. */
  lemma LineScoreRange(L: seq<MachineLetter>, vertical: bool, fixed: int, k: int)
    requires |L| == BOARD_SIZE && Scorable(L) && 0 <= fixed < BOARD_DIM && 0 <= k < BOARD_DIM
    ensures -128 <= LineScore(L, vertical, fixed, k) < 128
  {
  }

  /** Two cross-score choices that agree on every fresh tile give the same sums:
    * score_move consults the cross score of fresh tiles only. */
  lemma {:induction false} TallyCrossAtFresh(L: seq<MachineLetter>, B: seq<Bonus>, X: seq<int>, Y: seq<int>, m: Move, n: int)
    requires Scoreable(L, B, m) && |X| == |Y| == m.tilesLength && 0 <= n <= m.tilesLength
    requires forall i :: 0 <= i < n && m.tiles[i] != PLAYED_THROUGH ==> X[i] == Y[i]
    ensures TallyTo(L, B, X, m, n) == TallyTo(L, B, Y, m, n)
  {
    if n > 0 {
      TallyCrossAtFresh(L, B, X, Y, m, n - 1);
    }
  }

  /** With current score tables, the corrected reading of score_move scores
    * each cross word a fresh tile makes: its score is the perpendicular
    * word's, whichever direction the move goes. */
  lemma TableCrossIsPerpCross(L: seq<MachineLetter>, B: seq<Bonus>, HS: seq<int>, VS: seq<int>, m: Move)
    requires Scoreable(L, B, m) && ScoresCurrent(L, HS, VS) && FreshOnEmpty(L, m)
    ensures MoveScore(L, B, TableCross(HS, VS, m), m) == MoveScore(L, B, PerpCross(L, m), m)
  {
    var X, Y := TableCross(HS, VS, m), PerpCross(L, m);
    forall i | 0 <= i < m.tilesLength && m.tiles[i] != PLAYED_THROUGH
      ensures X[i] == Y[i]
    {
      var (r, c) := MoveSquare(m, i);
      assert L[Idx(r, c)] == EMPTY_SQUARE;
      if m.dir == DIR_H {
        LineScoreRange(L, true, c, r);
      } else {
        LineScoreRange(L, false, r, c);
      }
    }
    TallyCrossAtFresh(L, B, X, Y, m, m.tilesLength);
  }

  /** Two bonus tables that agree on the squares of fresh tiles give the same
    * sums: a played-through tile scores its face value, with no bonus. */
  lemma {:induction false} TallyBonusAtFresh(L: seq<MachineLetter>, B: seq<Bonus>, C: seq<Bonus>, X: seq<int>, m: Move, n: int)
    requires Scoreable(L, B, m) && |C| == BOARD_SIZE && |X| == m.tilesLength && 0 <= n <= m.tilesLength
    requires forall i :: 0 <= i < n && m.tiles[i] != PLAYED_THROUGH ==> B[SquareIdx(m, i)] == C[SquareIdx(m, i)]
    ensures TallyTo(L, B, X, m, n) == TallyTo(L, C, X, m, n)
  {
    if n > 0 {
      TallyBonusAtFresh(L, B, C, X, m, n - 1);
    }
  }

  /** The face value of the first n tiles of the move, a played-through tile
    * counting the letter already on its square. */
  function FaceValue(L: seq<MachineLetter>, m: Move, n: int): int
    requires |L| == BOARD_SIZE && Scorable(L) && MoveOnBoard(m) && TilesScorable(m)
    requires 0 <= n <= m.tilesLength
  {
    if n == 0 then 0
    else
      var tile := m.tiles[n - 1];
      FaceValue(L, m, n - 1) + TileValue(if tile == PLAYED_THROUGH then L[SquareIdx(m, n - 1)] else tile)
  }

  /** Without bonus squares under fresh tiles and without cross words the
    * main-word sum is the face value, the multiplier stays 1 and nothing is
    * added for cross words. */
  lemma {:induction false} PlainTally(L: seq<MachineLetter>, B: seq<Bonus>, X: seq<int>, m: Move, n: int)
    requires Scoreable(L, B, m) && |X| == m.tilesLength && 0 <= n <= m.tilesLength
    requires forall i :: 0 <= i < m.tilesLength && m.tiles[i] != PLAYED_THROUGH ==>
      B[SquareIdx(m, i)] == BONUS_NONE && X[i] < 0
    ensures TallyTo(L, B, X, m, n) == Tally(FaceValue(L, m, n), 0, 1, TallyTo(L, B, X, m, n).placed)
  {
    if n > 0 {
      PlainTally(L, B, X, m, n - 1);
      var p, tile := SquareIdx(m, n - 1), m.tiles[n - 1];
      PlainStep(TallyTo(L, B, X, m, n - 1), tile, L[p], B[p], X[n - 1]);
    }
  }

  /** One tile of a plain move adds its face value and nothing else. */
  lemma PlainStep(t: Tally, tile: MachineLetter, existing: MachineLetter, b: Bonus, x: int)
    requires IsBlanked(tile) || IsLetter(tile)
    requires IsBlanked(existing) || IsLetter(existing)
    requires tile != PLAYED_THROUGH ==> b == BONUS_NONE && x < 0
    ensures AddTile(t, tile, existing, b, x) ==
      t.(main := t.main + TileValue(if tile == PLAYED_THROUGH then existing else tile),
         placed := t.placed + if tile == PLAYED_THROUGH then 0 else 1)
  {
  }

  /** A move without bonus squares under its fresh tiles and without cross
    * words scores its face value, plus 50 when it uses all seven tiles. */
  lemma PlainScore(L: seq<MachineLetter>, B: seq<Bonus>, X: seq<int>, m: Move)
    requires Scoreable(L, B, m) && |X| == m.tilesLength
    requires forall i :: 0 <= i < m.tilesLength && m.tiles[i] != PLAYED_THROUGH ==>
      B[SquareIdx(m, i)] == BONUS_NONE && X[i] < 0
    ensures MoveScore(L, B, X, m) == FaceValue(L, m, m.tilesLength) +
      (if TallyTo(L, B, X, m, m.tilesLength).placed == RACK_SIZE then BINGO_BONUS else 0)
  {
    PlainTally(L, B, X, m, m.tilesLength);
  }

  /** The number of fresh (not played-through) tiles among the first n. */
  function FreshCount(m: Move, n: int): (k: nat)
    requires 0 <= n <= m.tilesLength <= |m.tiles|
    ensures k <= n
  {
    if n == 0 then 0 else FreshCount(m, n - 1) + (if m.tiles[n - 1] != PLAYED_THROUGH then 1 else 0)
  }

  /** The tally counts exactly the fresh tiles, so the bingo bonus goes to a
    * move that places seven tiles and to no other. */
  lemma {:induction false} TallyFresh(L: seq<MachineLetter>, B: seq<Bonus>, X: seq<int>, m: Move, n: int)
    requires Scoreable(L, B, m) && |X| == m.tilesLength && 0 <= n <= m.tilesLength
    ensures TallyTo(L, B, X, m, n).placed == FreshCount(m, n)
  {
    if n > 0 {
      TallyFresh(L, B, X, m, n - 1);
    }
  }

  /** Adding a multiple of 2^16 does not change the int16_t value. */
  lemma Int16Shift(x: int, k: int)
    ensures ToInt16(x + 65536 * k) == ToInt16(x)
  {
    var y := x + 32768;
    var q, r := y / 65536, y % 65536;
    assert y + 65536 * k == 65536 * (q + k) + r;
  }

  /** The int16_t value differs from the value by a multiple of 2^16. */
  lemma Int16Offset(x: int) returns (k: int)
    ensures ToInt16(x) == x + 65536 * k
  {
    k := -((x + 32768) / 65536);
  }

  /** Wrapping a factor before multiplying wraps the product the same way. */
  lemma Int16Scale(a: int, w: int, b: int)
    ensures ToInt16(ToInt16(a) * w + ToInt16(b)) == ToInt16(a * w + b)
  {
    var p := Int16Offset(a);
    var q := Int16Offset(b);
    assert (a + 65536 * p) * w == a * w + 65536 * (p * w);
    Int16Shift(a * w + b, p * w + q);
  }

  /** The C variables of score_move hold the tally with both sums wrapped to int16_t. */
  predicate Wrapped(t: Tally, mainWord: int, crossWords: int, wordMultiplier: int, tilesPlayed: int)
  {
    mainWord == ToInt16(t.main) && crossWords == ToInt16(t.cross) &&
    wordMultiplier == t.wordMult && tilesPlayed == t.placed
  }

  /** One pass of score_move's loop: the tile's contribution added with the
    * int16_t wrap-around of the Equity sums, which keeps them the wrapped
    * values of the unbounded sums. */
  method ScoreTile(ghost t: Tally, mainWord: int, crossWords: int, wordMultiplier: int, tilesPlayed: int,
                   tile: MachineLetter, existing: MachineLetter, bonus: Bonus, crossScore: int)
    returns (mainWord': int, crossWords': int, wordMultiplier': int, tilesPlayed': int)
    requires IsBlanked(tile) || IsLetter(tile)
    requires IsBlanked(existing) || IsLetter(existing)
    requires Wrapped(t, mainWord, crossWords, wordMultiplier, tilesPlayed)
    ensures Wrapped(AddTile(t, tile, existing, bonus, crossScore), mainWord', crossWords', wordMultiplier', tilesPlayed')
  {
    mainWord', crossWords', wordMultiplier', tilesPlayed' := mainWord, crossWords, wordMultiplier, tilesPlayed;
    ghost var after := AddTile(t, tile, existing, bonus, crossScore);
    if tile == PLAYED_THROUGH {
      var tileScore := if IsBlanked(existing) then 0 else TILE_SCORES[Unblanked(existing)];
      assert after.main == t.main + tileScore && after.cross == t.cross;
      Int16Add(t.main, tileScore);
      mainWord' := ToInt16(mainWord + tileScore);
    } else {
      tilesPlayed' := tilesPlayed + 1;
      var tileScore := if IsBlanked(tile) then 0 else TILE_SCORES[Unblanked(tile)];
      var letterMult := LetterMult(bonus);
      var letterScore := tileScore * letterMult;
      assert after.main == t.main + letterScore;
      Int16Add(t.main, letterScore);
      mainWord' := ToInt16(mainWord + letterScore);
      wordMultiplier' := wordMultiplier * WordMult(bonus);
      if crossScore >= 0 {
        var crossTotal := (letterScore + crossScore) * WordMult(bonus);
        assert after.cross == t.cross + crossTotal;
        Int16Add(t.cross, crossTotal);
        crossWords' := ToInt16(crossWords + crossTotal);
      }
    }
  }

  /** Adding to a wrapped sum wraps the same way as adding first. */
  lemma Int16Add(a: int, b: int)
    ensures ToInt16(ToInt16(a) + b) == ToInt16(a + b)
  {
    var p := Int16Offset(a);
    Int16Shift(a + b, p);
  }

  /** score_move: the sums are kept in int16_t Equity variables, so each
    * addition wraps; the result is the move's score wrapped once. The cross
    * score of a vertical move is read at the square's own place in the
    * vertical view. */
  method ScoreMove(board: Board, m: Move) returns (total: int)
    requires board.Valid() && Scoreable(board.hLetters[..], board.bonuses[..], m)
    ensures total == ToInt16(MoveScore(board.hLetters[..], board.bonuses[..],
      TableCross(ScoresOf(board.hSquares[..]), ScoresOf(board.vSquares[..]), m), m))
  {
    ghost var L, B := board.hLetters[..], board.bonuses[..];
    ghost var HS, VS := ScoresOf(board.hSquares[..]), ScoresOf(board.vSquares[..]);
    ghost var X := TableCross(HS, VS, m);
    var mainWord, crossWords, wordMultiplier, tilesPlayed := 0, 0, 1, 0;
    var i := 0;
    while i < m.tilesLength
      invariant 0 <= i <= m.tilesLength
      invariant Wrapped(TallyTo(L, B, X, m, i), mainWord, crossWords, wordMultiplier, tilesPlayed)
    {
      var idx, crossScore := ReadSquare(board, m, i);
      assert board.hLetters[idx] == L[idx] && board.bonuses[idx] == B[idx];
      ghost var t := TallyTo(L, B, X, m, i);
      assert TallyTo(L, B, X, m, i + 1) == AddTile(t, m.tiles[i], board.hLetters[idx], board.bonuses[idx], crossScore);
      mainWord, crossWords, wordMultiplier, tilesPlayed :=
        ScoreTile(t, mainWord, crossWords, wordMultiplier, tilesPlayed,
                  m.tiles[i], board.hLetters[idx], board.bonuses[idx], crossScore);
      i := i + 1;
    }
    WrappedTotal(TallyTo(L, B, X, m, m.tilesLength), mainWord, crossWords, wordMultiplier, tilesPlayed);
    total := ToInt16(mainWord * wordMultiplier + crossWords);
    if tilesPlayed == RACK_SIZE {
      total := ToInt16(total + BINGO_BONUS);
    }
  }

  /** The square under tile i of the move, row-major, and its cross score
    * read from the view for the move's direction. */
  method ReadSquare(board: Board, m: Move, i: int) returns (idx: int, crossScore: int)
    requires board.Valid() && MoveOnBoard(m) && 0 <= i < m.tilesLength
    ensures idx == SquareIdx(m, i)
    ensures crossScore == TableCross(ScoresOf(board.hSquares[..]), ScoresOf(board.vSquares[..]), m)[i]
  {
    ghost var HS, VS := ScoresOf(board.hSquares[..]), ScoresOf(board.vSquares[..]);
    var (r, c) := MoveSquare(m, i);
    idx := Idx(r, c);
    crossScore := ToInt8(if m.dir == DIR_H then board.hSquares[idx].score else board.vSquares[Idx(c, r)].score);
    assert HS[idx] == board.hSquares[idx].score && VS[Idx(c, r)] == board.vSquares[Idx(c, r)].score;
  }

  /** The last lines of score_move: the total, wrapped as it is stored, and
    * the bingo bonus added with another wrap, is the wrapped unbounded score. */
  lemma WrappedTotal(t: Tally, mainWord: int, crossWords: int, wordMultiplier: int, tilesPlayed: int)
    requires Wrapped(t, mainWord, crossWords, wordMultiplier, tilesPlayed)
    ensures var total := ToInt16(mainWord * wordMultiplier + crossWords);
      (if tilesPlayed == RACK_SIZE then ToInt16(total + BINGO_BONUS) else total) ==
      ToInt16(t.main * t.wordMult + t.cross + (if t.placed == RACK_SIZE then BINGO_BONUS else 0))
  {
    Int16Scale(t.main, t.wordMult, t.cross);
    Int16Add(t.main * t.wordMult + t.cross, BINGO_BONUS);
  }

  /** The board of the counterexample below: a single T (machine letter 20)
    * at (5, 1). */
  function CounterBoard(): (L: seq<MachineLetter>)
    ensures |L| == BOARD_SIZE && Scorable(L)
  {
    seq(BOARD_SIZE, p requires 0 <= p < BOARD_SIZE => if p == Idx(5, 1) then 20 else EMPTY_SQUARE)
  }

  /** The cross words on the counterexample board: "UT" across row 5 from
    * (5, 0), whose T is worth 1; none across row 6 at (6, 0), and none
    * across row 0 at (0, 5) or (0, 6). */
  lemma CounterLineScores()
    ensures LineScore(CounterBoard(), false, 5, 0) == 1
    ensures LineScore(CounterBoard(), false, 6, 0) == -1
    ensures LineScore(CounterBoard(), false, 0, 5) == -1
    ensures LineScore(CounterBoard(), false, 0, 6) == -1
  {
    var L := CounterBoard();
    assert L[Idx(5, 1)] == 20;
    assert L[Idx(5, 2)] == EMPTY_SQUARE && L[Idx(6, 1)] == EMPTY_SQUARE;
    assert L[Idx(0, 4)] == EMPTY_SQUARE && L[Idx(0, 5)] == EMPTY_SQUARE;
    assert L[Idx(0, 6)] == EMPTY_SQUARE && L[Idx(0, 7)] == EMPTY_SQUARE;
    assert RunFrom(L, false, 5, 2) == [];
    assert RunFrom(L, false, 5, 1) == [20];
    assert ScoreSum([20]) == TILE_SCORES[20] == 1;
    assert RunFrom(L, false, 6, 1) == [];
    assert RunTo(L, false, 0, 4) == [] && RunFrom(L, false, 0, 6) == [];
    assert RunTo(L, false, 0, 5) == [] && RunFrom(L, false, 0, 7) == [];
  }

  /** U and T played down column 0 from (5, 0). */
  function CounterMove(): Move
  {
    Move(0, 0, TilePlacement, 5, 0, 2, 2, DIR_V, [21, 20])
  }

  /** On the counterexample board, without bonuses under the two tiles, the
    * move scores its face value 2 plus, for each tile whose consulted cross
    * score x is not negative, the tile's value 1 plus x. */
  lemma CounterMoveScore(B: seq<Bonus>, X: seq<int>)
    requires |B| == BOARD_SIZE && B[Idx(5, 0)] == BONUS_NONE && B[Idx(6, 0)] == BONUS_NONE && |X| == 2
    ensures Scoreable(CounterBoard(), B, CounterMove())
    ensures MoveScore(CounterBoard(), B, X, CounterMove()) ==
      2 + (if X[0] >= 0 then 1 + X[0] else 0) + (if X[1] >= 0 then 1 + X[1] else 0)
  {
    var L, m := CounterBoard(), CounterMove();
    assert MoveOnBoard(m) && TilesScorable(m);
    assert SquareIdx(m, 0) == Idx(5, 0) == 75 && SquareIdx(m, 1) == Idx(6, 0) == 90;
    assert L[Idx(5, 1)] == 20;
    assert L[75] == EMPTY_SQUARE && L[90] == EMPTY_SQUARE;
    assert TileValue(21) == TILE_SCORES[21] == 1 && TileValue(20) == TILE_SCORES[20] == 1;
    var t0 := Tally(0, 0, 1, 0);
    var t1 := AddTile(t0, 21, EMPTY_SQUARE, BONUS_NONE, X[0]);
    assert TallyTo(L, B, X, m, 1) == t1;
    assert TallyTo(L, B, X, m, 2) == AddTile(t1, 20, EMPTY_SQUARE, BONUS_NONE, X[1]);
  }

  /** Current score tables for the counterexample board: the vertical view
    * holds 1 for (5, 0), where "UT" runs across row 5, and -1 for (6, 0),
    * (0, 5) and (0, 6). */
  lemma CounterTables(HS: seq<int>, VS: seq<int>)
    requires ScoresCurrent(CounterBoard(), HS, VS)
    ensures VS[Idx(0, 5)] == 1 && VS[Idx(0, 6)] == -1
    ensures VS[Idx(5, 0)] == -1 && VS[Idx(6, 0)] == -1
  {
    var L := CounterBoard();
    CounterLineScores();
    assert L[Idx(5, 1)] == 20;
    assert L[Idx(5, 0)] == EMPTY_SQUARE && L[Idx(6, 0)] == EMPTY_SQUARE;
    assert L[Idx(0, 5)] == EMPTY_SQUARE && L[Idx(0, 6)] == EMPTY_SQUARE;
  }

  /** A T at (5, 1); U and T played down column 0 from (5, 0), spelling
    * "UT" down and, with the T already there, "UT" across row 5. With
    * current score tables and the standard layout the corrected reading
    * scores 2 + (1 + 1) = 4; the reading of score_move as written scores 2:
    * it looks up the vertical view at the squares (0, 5) and (0, 6), where
    * no cross word runs. */
  lemma VerticalCrossMisread(B: seq<Bonus>, HS: seq<int>, VS: seq<int>)
    requires |B| == BOARD_SIZE && B[Idx(5, 0)] == BonusAt(5, 0) && B[Idx(6, 0)] == BonusAt(6, 0)
    requires ScoresCurrent(CounterBoard(), HS, VS)
    ensures Scoreable(CounterBoard(), B, CounterMove())
    ensures MoveScore(CounterBoard(), B, TableCrossAsWritten(HS, VS, CounterMove()), CounterMove()) == 2
    ensures MoveScore(CounterBoard(), B, TableCross(HS, VS, CounterMove()), CounterMove()) == 4
  {
    var m := CounterMove();
    NoBonusOnEdge();
    CounterTables(HS, VS);
    var asWritten, corrected := TableCrossAsWritten(HS, VS, m), TableCross(HS, VS, m);
    assert asWritten[0] == -1 && asWritten[1] == -1;
    assert corrected[0] == 1 && corrected[1] == -1;
    CounterMoveScore(B, asWritten);
    CounterMoveScore(B, corrected);
  }
}
