// The board of src/board.c: a horizontal (row-major) and a vertical
// (column-major) view of the same 225 squares, each with per-square cross
// sets, cross scores and extension sets, and a shared bonus array.
module Board {
  import opened Defs
  import opened KwgNode
  import opened Kwg
  import opened BoardTables
  import opened Wrappers

  predicate OnBoard(row: int, col: int) { 0 <= row < BOARD_DIM && 0 <= col < BOARD_DIM }

  /** Row-major index of (row, col); the vertical view keeps that square at Idx(col, row). */
  function Idx(row: int, col: int): (p: int)
    requires OnBoard(row, col)
    ensures 0 <= p < BOARD_SIZE
  {
    row * BOARD_DIM + col
  }

  /** Row-major index of square k of a line: column `fixed` read top to
    * bottom when vertical, row `fixed` read left to right otherwise. */
  function LineIdx(vertical: bool, fixed: int, k: int): (p: int)
    requires 0 <= fixed < BOARD_DIM && 0 <= k < BOARD_DIM
    ensures 0 <= p < BOARD_SIZE
  {
    if vertical then Idx(k, fixed) else Idx(fixed, k)
  }

  /** The tiles of the unbroken run of occupied squares that ends at square
    * k of a line, in reading order (empty when square k is empty). */
  function RunTo(L: seq<MachineLetter>, vertical: bool, fixed: int, k: int): (r: seq<MachineLetter>)
    requires |L| == BOARD_SIZE && 0 <= fixed < BOARD_DIM && -1 <= k < BOARD_DIM
    ensures |r| <= k + 1
    decreases k + 1
  {
    if k < 0 || L[LineIdx(vertical, fixed, k)] == EMPTY_SQUARE then []
    else RunTo(L, vertical, fixed, k - 1) + [L[LineIdx(vertical, fixed, k)]]
  }

  /** The tiles of the unbroken run of occupied squares that starts at square k of a line. */
  function RunFrom(L: seq<MachineLetter>, vertical: bool, fixed: int, k: int): (r: seq<MachineLetter>)
    requires |L| == BOARD_SIZE && 0 <= fixed < BOARD_DIM && 0 <= k <= BOARD_DIM
    ensures |r| <= BOARD_DIM - k
    decreases BOARD_DIM - k
  {
    if k == BOARD_DIM || L[LineIdx(vertical, fixed, k)] == EMPTY_SQUARE then []
    else [L[LineIdx(vertical, fixed, k)]] + RunFrom(L, vertical, fixed, k + 1)
  }

  /** RunTo is exactly the occupied squares k-n+1..k of the line, and the
    * square before them is empty or off the board. */
  lemma {:induction false} RunToMeaning(L: seq<MachineLetter>, vertical: bool, fixed: int, k: int)
    requires |L| == BOARD_SIZE && 0 <= fixed < BOARD_DIM && -1 <= k < BOARD_DIM
    ensures var r := RunTo(L, vertical, fixed, k);
      (forall j :: 0 <= j < |r| ==>
         r[j] == L[LineIdx(vertical, fixed, k - |r| + 1 + j)] && r[j] != EMPTY_SQUARE) &&
      (k - |r| >= 0 ==> L[LineIdx(vertical, fixed, k - |r|)] == EMPTY_SQUARE)
    decreases k + 1
  {
    if k >= 0 && L[LineIdx(vertical, fixed, k)] != EMPTY_SQUARE {
      RunToMeaning(L, vertical, fixed, k - 1);
    }
  }

  /** RunFrom is exactly the occupied squares k..k+n-1 of the line, and the
    * square after them is empty or off the board. */
  lemma {:induction false} RunFromMeaning(L: seq<MachineLetter>, vertical: bool, fixed: int, k: int)
    requires |L| == BOARD_SIZE && 0 <= fixed < BOARD_DIM && 0 <= k <= BOARD_DIM
    ensures var r := RunFrom(L, vertical, fixed, k);
      (forall j :: 0 <= j < |r| ==> r[j] == L[LineIdx(vertical, fixed, k + j)] && r[j] != EMPTY_SQUARE) &&
      (k + |r| < BOARD_DIM ==> L[LineIdx(vertical, fixed, k + |r|)] == EMPTY_SQUARE)
    decreases BOARD_DIM - k
  {
    if k < BOARD_DIM && L[LineIdx(vertical, fixed, k)] != EMPTY_SQUARE {
      RunFromMeaning(L, vertical, fixed, k + 1);
    }
  }

  /** The runs on both sides of a square hold only scorable tiles when the board does. */
  lemma RunsScorable(L: seq<MachineLetter>, vertical: bool, fixed: int, k: int)
    requires |L| == BOARD_SIZE && Scorable(L) && 0 <= fixed < BOARD_DIM && 0 <= k < BOARD_DIM
    ensures Scorable(RunTo(L, vertical, fixed, k - 1)) && Scorable(RunFrom(L, vertical, fixed, k + 1))
  {
    RunToMeaning(L, vertical, fixed, k - 1);
    RunFromMeaning(L, vertical, fixed, k + 1);
  }

  /** A run of n occupied squares ending at square k, with an empty square
    * or the edge before it, read away from k (nearest first), is RunTo reversed. */
  lemma {:induction false} RunToIs(L: seq<MachineLetter>, vertical: bool, fixed: int, k: int, n: int, got: seq<MachineLetter>)
    requires |L| == BOARD_SIZE && 0 <= fixed < BOARD_DIM && -1 <= k < BOARD_DIM && 0 <= n <= k + 1
    requires |got| == n
    requires forall i :: 0 <= i < n ==> got[i] == L[LineIdx(vertical, fixed, k - i)] && got[i] != EMPTY_SQUARE
    requires k - n == -1 || L[LineIdx(vertical, fixed, k - n)] == EMPTY_SQUARE
    ensures Reverse(got) == RunTo(L, vertical, fixed, k)
    decreases n
  {
    if n > 0 {
      RunToIs(L, vertical, fixed, k - 1, n - 1, got[1..]);
      assert Reverse(got) == Reverse(got[1..]) + [got[0]];
    }
  }

  /** A run of n occupied squares starting at square k, with an empty square
    * or the edge after it, read in line order, is RunFrom. */
  lemma {:induction false} RunFromIs(L: seq<MachineLetter>, vertical: bool, fixed: int, k: int, n: int, got: seq<MachineLetter>)
    requires |L| == BOARD_SIZE && 0 <= fixed < BOARD_DIM && 0 <= k <= k + n <= BOARD_DIM
    requires |got| == n
    requires forall i :: 0 <= i < n ==> got[i] == L[LineIdx(vertical, fixed, k + i)] && got[i] != EMPTY_SQUARE
    requires k + n == BOARD_DIM || L[LineIdx(vertical, fixed, k + n)] == EMPTY_SQUARE
    ensures got == RunFrom(L, vertical, fixed, k)
    decreases n
  {
    if n > 0 {
      RunFromIs(L, vertical, fixed, k + 1, n - 1, got[1..]);
      assert got == [got[0]] + got[1..];
    }
  }

  /** The values one view of the board holds for a square: board_update_cross_sets
    * writes them to the four arrays h_cross_sets, h_cross_scores, h_leftx and
    * h_rightx (or their v_ counterparts) at the square's index. */
  datatype SquareSets = SquareSets(cross: CrossSet, score: int, leftx: CrossSet, rightx: CrossSet)

  /** What the tiles of one line around square k give: the cross set and
    * cross score of the word through k, the front hooks of the tiles after
    * k and the back hooks of the tiles before k. */
  function LineSets(kwg: seq<Node>, L: seq<MachineLetter>, vertical: bool, fixed: int, k: int): SquareSets
    requires WellFormed(kwg) && |L| == BOARD_SIZE && Scorable(L) && 0 <= fixed < BOARD_DIM && 0 <= k < BOARD_DIM
  {
    RunsScorable(L, vertical, fixed, k);
    var before, after := RunTo(L, vertical, fixed, k - 1), RunFrom(L, vertical, fixed, k + 1);
    SquareSets(CrossSetOf(kwg, before, after), CrossScoreOf(before, after),
      LeftExtOf(kwg, after), RightExtOf(kwg, before))
  }

  /** The horizontal-play view of empty square (row, col): its cross word
    * runs through the tiles above and below it, its extensions are hooks of
    * the tiles to its left and right. */
  function HSets(kwg: seq<Node>, L: seq<MachineLetter>, row: int, col: int): SquareSets
    requires WellFormed(kwg) && |L| == BOARD_SIZE && Scorable(L) && OnBoard(row, col)
  {
    var column, line := LineSets(kwg, L, true, col, row), LineSets(kwg, L, false, row, col);
    SquareSets(column.cross, column.score, line.leftx, line.rightx)
  }

  /** The vertical-play view of empty square (row, col): the roles of the row
    * and the column are swapped. */
  function VSets(kwg: seq<Node>, L: seq<MachineLetter>, row: int, col: int): SquareSets
    requires WellFormed(kwg) && |L| == BOARD_SIZE && Scorable(L) && OnBoard(row, col)
  {
    var column, line := LineSets(kwg, L, true, col, row), LineSets(kwg, L, false, row, col);
    SquareSets(line.cross, line.score, column.leftx, column.rightx)
  }

  /** An occupied square's sets: all three emptied, the cross score kept. */
  function Cleared(s: SquareSets): SquareSets
  {
    s.(cross := {}, leftx := {}, rightx := {})
  }

  /** A square with no tile above or below it gets a trivial horizontal cross
    * set with no cross score, and trivial vertical extension sets. */
  lemma IsolatedInColumn(kwg: seq<Node>, L: seq<MachineLetter>, row: int, col: int)
    requires WellFormed(kwg) && |L| == BOARD_SIZE && Scorable(L) && OnBoard(row, col)
    requires row == 0 || L[Idx(row - 1, col)] == EMPTY_SQUARE
    requires row == BOARD_DIM - 1 || L[Idx(row + 1, col)] == EMPTY_SQUARE
    ensures HSets(kwg, L, row, col).cross == TRIVIAL_CROSS_SET && HSets(kwg, L, row, col).score == -1
    ensures VSets(kwg, L, row, col).leftx == TRIVIAL_CROSS_SET && VSets(kwg, L, row, col).rightx == TRIVIAL_CROSS_SET
  {
    assert RunTo(L, true, col, row - 1) == [];
    assert RunFrom(L, true, col, row + 1) == [];
  }

  /** In a lexicon with distinct sibling tiles, a letter is in the
    * horizontal cross set of an empty square with tiles above or below it
    * exactly when it completes the vertical word through the square. */
  lemma HCrossMeaning(kwg: seq<Node>, L: seq<MachineLetter>, row: int, col: int, l: MachineLetter)
    requires WellFormed(kwg) && DistinctRuns(kwg) && |L| == BOARD_SIZE && Scorable(L) && OnBoard(row, col)
    requires RunTo(L, true, col, row - 1) != [] || RunFrom(L, true, col, row + 1) != []
    ensures l in HSets(kwg, L, row, col).cross <==>
      0 < l < BLANK_MASK &&
      IsValidWord(kwg, RunTo(L, true, col, row - 1) + [l] + RunFrom(L, true, col, row + 1))
  {
    var above, below := RunTo(L, true, col, row - 1), RunFrom(L, true, col, row + 1);
    if l in CrossSetOf(kwg, above, below) {
      CrossSetSound(kwg, above, l, below);
    }
    if 0 < l < BLANK_MASK && IsValidWord(kwg, above + [l] + below) {
      CrossSetComplete(kwg, above, l, below);
    }
  }

  /** The square the i-th tile of a move lands on. */
  function MoveSquare(m: Move, i: int): (int, int)
  {
    if m.dir == DIR_H then (m.rowStart, m.colStart + i) else (m.rowStart + i, m.colStart)
  }

  /** Every tile the move places lands on the board. */
  predicate MoveFits(m: Move)
  {
    0 <= m.tilesLength <= |m.tiles| &&
    forall i :: 0 <= i < m.tilesLength && m.tiles[i] != PLAYED_THROUGH ==>
      OnBoard(MoveSquare(m, i).0, MoveSquare(m, i).1)
  }

  /** The row-major letters after placing the first n tiles of the move. */
  function Placed(L: seq<MachineLetter>, m: Move, n: int): (r: seq<MachineLetter>)
    requires |L| == BOARD_SIZE && MoveFits(m) && 0 <= n <= m.tilesLength
    ensures |r| == BOARD_SIZE
  {
    if n == 0 then L
    else
      var t := m.tiles[n - 1];
      if t == PLAYED_THROUGH then Placed(L, m, n - 1)
      else Placed(L, m, n - 1)[Idx(MoveSquare(m, n - 1).0, MoveSquare(m, n - 1).1) := t]
  }

  /** The tile among the first n of the move that lands on (row, col), if any. */
  function MoveTileAt(m: Move, n: int, row: int, col: int): Option<MachineLetter>
    requires MoveFits(m) && 0 <= n <= m.tilesLength
  {
    var i := if m.dir == DIR_H then col - m.colStart else row - m.rowStart;
    var onLine := if m.dir == DIR_H then row == m.rowStart else col == m.colStart;
    if onLine && 0 <= i < n && m.tiles[i] != PLAYED_THROUGH then Some(m.tiles[i]) else None
  }

  /** Applying a move writes each of its non-played-through tiles on its own
    * square and leaves every other square as it was. */
  lemma {:induction false} PlacedMeaning(L: seq<MachineLetter>, m: Move, n: int, row: int, col: int)
    requires |L| == BOARD_SIZE && MoveFits(m) && 0 <= n <= m.tilesLength && OnBoard(row, col)
    ensures Placed(L, m, n)[Idx(row, col)] ==
      match MoveTileAt(m, n, row, col)
      case Some(t) => t
      case None => L[Idx(row, col)]
  {
    if n > 0 {
      PlacedMeaning(L, m, n - 1, row, col);
    }
  }

  /** The number of occupied squares. */
  function Occupied(L: seq<MachineLetter>): (n: nat)
    ensures n <= |L|
  {
    if L == [] then 0
    else Occupied(L[..|L| - 1]) + (if L[|L| - 1] != EMPTY_SQUARE then 1 else 0)
  }

  /** Writing one square changes the occupied count by what that square gains or loses. */
  lemma {:induction false} OccupiedUpdate(L: seq<MachineLetter>, i: int, t: MachineLetter)
    requires 0 <= i < |L|
    ensures Occupied(L[i := t]) ==
      Occupied(L) - (if L[i] != EMPTY_SQUARE then 1 else 0) + (if t != EMPTY_SQUARE then 1 else 0)
    decreases |L|
  {
    var L' := L[i := t];
    if i < |L| - 1 {
      assert L'[..|L| - 1] == L[..|L| - 1][i := t];
      OccupiedUpdate(L[..|L| - 1], i, t);
    } else {
      assert L'[..|L| - 1] == L[..|L| - 1];
    }
  }

  /** How many of the first n placements of the move land on a square that
    * is empty when they are made: what board_place_tile adds to the count. */
  function NewSquares(L: seq<MachineLetter>, m: Move, n: int): nat
    requires |L| == BOARD_SIZE && MoveFits(m) && 0 <= n <= m.tilesLength
  {
    if n == 0 then 0
    else
      var t := m.tiles[n - 1];
      NewSquares(L, m, n - 1) +
      (if t != PLAYED_THROUGH && Placed(L, m, n - 1)[Idx(MoveSquare(m, n - 1).0, MoveSquare(m, n - 1).1)] == EMPTY_SQUARE
       then 1 else 0)
  }

  /** None of the first n tiles of the move is the empty-square marker. */
  predicate NoEmptyTiles(m: Move, n: int)
    requires 0 <= n <= |m.tiles|
  {
    forall i :: 0 <= i < n ==> m.tiles[i] != EMPTY_SQUARE
  }

  /** When the move places real tiles, the squares it fills are exactly the
    * new occupied squares. */
  lemma {:induction false} NewSquaresOccupied(L: seq<MachineLetter>, m: Move, n: int)
    requires |L| == BOARD_SIZE && MoveFits(m) && 0 <= n <= m.tilesLength && NoEmptyTiles(m, n)
    ensures Occupied(Placed(L, m, n)) == Occupied(L) + NewSquares(L, m, n)
  {
    if n > 0 {
      NewSquaresOccupied(L, m, n - 1);
      var t := m.tiles[n - 1];
      if t != PLAYED_THROUGH {
        var sq := MoveSquare(m, n - 1);
        OccupiedUpdate(Placed(L, m, n - 1), Idx(sq.0, sq.1), t);
      }
    }
  }

  /** Adding to a byte and wrapping is adding and wrapping once. */
  lemma ByteAdd(x: int, k: int)
    requires x >= 0 && k >= 0
    ensures (x % 256 + k) % 256 == (x + k) % 256
  {
    var q := x / 256;
    assert x == 256 * q + x % 256;
    assert x + k == 256 * q + (x % 256 + k);
  }

  /** What board_update_cross_sets leaves in the horizontal view at (row,
    * col), given what was there before. */
  function HTarget(kwg: seq<Node>, L: seq<MachineLetter>, before: SquareSets, row: int, col: int): SquareSets
    requires WellFormed(kwg) && |L| == BOARD_SIZE && Scorable(L) && OnBoard(row, col)
  {
    if L[Idx(row, col)] != EMPTY_SQUARE then Cleared(before) else HSets(kwg, L, row, col)
  }

  /** What board_update_cross_sets leaves in the vertical view at (row, col). */
  function VTarget(kwg: seq<Node>, L: seq<MachineLetter>, before: SquareSets, row: int, col: int): SquareSets
    requires WellFormed(kwg) && |L| == BOARD_SIZE && Scorable(L) && OnBoard(row, col)
  {
    if L[Idx(row, col)] != EMPTY_SQUARE then Cleared(before) else VSets(kwg, L, row, col)
  }

  class Board {
    const hLetters: array<MachineLetter>
    const vLetters: array<MachineLetter>
    /** h_cross_sets, h_cross_scores, h_leftx and h_rightx, square by square. */
    const hSquares: array<SquareSets>
    /** v_cross_sets, v_cross_scores, v_leftx and v_rightx, square by square. */
    const vSquares: array<SquareSets>
    const bonuses: array<Bonus>
    /** uint8_t; counts placements on empty squares. */
    var tilesOnBoard: int

    ghost function Repr(): set<object>
    {
      {this, hLetters, vLetters, hSquares, vSquares, bonuses}
    }

    /** Every array holds BOARD_SIZE entries, the two views are distinct
      * arrays, the counter fits in a byte and the vertical letters are the
      * horizontal ones transposed. */
    ghost predicate Valid()
      reads this, hLetters, vLetters
    {
      hLetters.Length == BOARD_SIZE && vLetters.Length == BOARD_SIZE &&
      hSquares.Length == BOARD_SIZE && vSquares.Length == BOARD_SIZE &&
      bonuses.Length == BOARD_SIZE &&
      hLetters != vLetters && hSquares != vSquares &&
      0 <= tilesOnBoard < 256 &&
      forall r, c {:trigger hLetters[Idx(r, c)]} {:trigger vLetters[Idx(c, r)]} ::
        OnBoard(r, c) ==> vLetters[Idx(c, r)] == hLetters[Idx(r, c)]
    }

    /** The counter agrees with the number of occupied squares. */
    ghost predicate Counted()
      reads this, hLetters
    {
      tilesOnBoard == Occupied(hLetters[..])
    }

    constructor ()
      ensures Valid() && fresh(Repr() - {this})
      ensures fresh(hLetters) && fresh(vLetters) && fresh(hSquares) && fresh(vSquares) && fresh(bonuses)
    {
      hLetters := new MachineLetter[BOARD_SIZE](_ => EMPTY_SQUARE);
      vLetters := new MachineLetter[BOARD_SIZE](_ => EMPTY_SQUARE);
      hSquares := new SquareSets[BOARD_SIZE](_ => INITIAL_SETS);
      vSquares := new SquareSets[BOARD_SIZE](_ => INITIAL_SETS);
      bonuses := new Bonus[BOARD_SIZE](_ => BONUS_NONE);
      tilesOnBoard := 0;
    }

    /** board_init: every square empty with trivial sets and no cross score,
      * the bonuses copied from the full layout, no tiles counted. */
    method Init()
      requires Valid()
      modifies Repr()
      ensures Valid() && Counted() && tilesOnBoard == 0
      ensures forall p :: 0 <= p < BOARD_SIZE ==>
        hLetters[p] == EMPTY_SQUARE && vLetters[p] == EMPTY_SQUARE &&
        hSquares[p] == INITIAL_SETS && vSquares[p] == INITIAL_SETS
      ensures forall r, c :: OnBoard(r, c) ==> bonuses[Idx(r, c)] == BonusAt(r, c)
    {
      var layout := new Bonus[BOARD_SIZE];
      InitBonusLayout(layout);
      var i := 0;
      while i < BOARD_SIZE
        invariant 0 <= i <= BOARD_SIZE
        invariant forall p :: 0 <= p < i ==>
          hLetters[p] == EMPTY_SQUARE && vLetters[p] == EMPTY_SQUARE &&
          hSquares[p] == INITIAL_SETS && vSquares[p] == INITIAL_SETS && bonuses[p] == layout[p]
        invariant forall r, c :: OnBoard(r, c) ==> layout[Idx(r, c)] == BonusAt(r, c)
      {
        hLetters[i] := EMPTY_SQUARE;
        hSquares[i] := INITIAL_SETS;
        vLetters[i] := EMPTY_SQUARE;
        vSquares[i] := INITIAL_SETS;
        bonuses[i] := layout[i];
        i := i + 1;
      }
      tilesOnBoard := 0;
      AllEmptyUnoccupied(hLetters[..]);
    }

    /** board_place_tile: both views get the tile; the counter goes up (as a
      * byte) when the square was empty. */
    method PlaceTile(row: int, col: int, tile: MachineLetter)
      requires Valid() && OnBoard(row, col)
      modifies this, hLetters, vLetters
      ensures Valid()
      ensures hLetters[..] == old(hLetters[..])[Idx(row, col) := tile]
      ensures vLetters[..] == old(vLetters[..])[Idx(col, row) := tile]
      ensures tilesOnBoard ==
        (old(tilesOnBoard) + if old(hLetters[Idx(row, col)]) == EMPTY_SQUARE then 1 else 0) % 256
      ensures old(Counted()) && tile != EMPTY_SQUARE ==> Counted()
    {
      var h := Idx(row, col);
      var v := Idx(col, row);
      if hLetters[h] == EMPTY_SQUARE {
        tilesOnBoard := (tilesOnBoard + 1) % 256;
      }
      OccupiedUpdate(hLetters[..], h, tile);
      hLetters[h] := tile;
      vLetters[v] := tile;
      forall r, c | OnBoard(r, c)
        ensures vLetters[Idx(c, r)] == hLetters[Idx(r, c)]
      {
        IdxInjective(r, c, row, col);
      }
    }

    /** board_get_tile: the horizontal view's letter, which the vertical view holds too. */
    function GetTile(row: int, col: int): (t: MachineLetter)
      requires Valid() && OnBoard(row, col)
      reads this, hLetters, vLetters
      ensures t == vLetters[Idx(col, row)]
    {
      hLetters[Idx(row, col)]
    }

    /** board_is_empty, as the vertical view sees it too. */
    function IsEmpty(row: int, col: int): (e: bool)
      requires Valid() && OnBoard(row, col)
      reads this, hLetters, vLetters
      ensures e <==> vLetters[Idx(col, row)] == EMPTY_SQUARE
    {
      hLetters[Idx(row, col)] == EMPTY_SQUARE
    }

    /** board_apply_move: place every tile that is not a played-through
      * marker at its square along the move's line. */
    method ApplyMove(m: Move)
      requires Valid() && MoveFits(m)
      modifies this, hLetters, vLetters
      ensures Valid()
      ensures hLetters[..] == Placed(old(hLetters[..]), m, m.tilesLength)
      ensures tilesOnBoard == (old(tilesOnBoard) + NewSquares(old(hLetters[..]), m, m.tilesLength)) % 256
      ensures old(Counted()) && NoEmptyTiles(m, m.tilesLength) ==> Counted()
    {
      ghost var L0 := hLetters[..];
      ghost var T0 := tilesOnBoard;
      ghost var counted := Counted() && NoEmptyTiles(m, m.tilesLength);
      var i := 0;
      while i < m.tilesLength
        invariant 0 <= i <= m.tilesLength
        invariant Valid()
        invariant hLetters[..] == Placed(L0, m, i)
        invariant tilesOnBoard == (T0 + NewSquares(L0, m, i)) % 256
        invariant counted ==> Counted() && NoEmptyTiles(m, m.tilesLength)
      {
        PlaceMoveTile(m, i, L0, T0, counted);
        i := i + 1;
      }
    }

    /** One round of board_apply_move's loop: tile i goes on its square
      * unless it is a played-through marker. */
    method PlaceMoveTile(m: Move, i: int, ghost L0: seq<MachineLetter>, ghost T0: int, ghost counted: bool)
      requires Valid() && MoveFits(m) && 0 <= i < m.tilesLength && |L0| == BOARD_SIZE && T0 >= 0
      requires hLetters[..] == Placed(L0, m, i) && tilesOnBoard == (T0 + NewSquares(L0, m, i)) % 256
      requires counted ==> Counted() && NoEmptyTiles(m, m.tilesLength)
      modifies this, hLetters, vLetters
      ensures Valid() && hLetters[..] == Placed(L0, m, i + 1)
      ensures tilesOnBoard == (T0 + NewSquares(L0, m, i + 1)) % 256
      ensures counted ==> Counted()
    {
      var tile := m.tiles[i];
      if tile != PLAYED_THROUGH {
        var r := if m.dir == DIR_H then m.rowStart else m.rowStart + i;
        var c := if m.dir == DIR_H then m.colStart + i else m.colStart;
        assert (r, c) == MoveSquare(m, i);
        ghost var k := if hLetters[Idx(r, c)] == EMPTY_SQUARE then 1 else 0;
        assert NewSquares(L0, m, i + 1) == NewSquares(L0, m, i) + k;
        PlaceTile(r, c, tile);
        ByteAdd(T0 + NewSquares(L0, m, i), k);
      }
    }

    /** board_update_cross_sets: every square of both views is recomputed
      * from the letters, which do not change. */
    method UpdateCrossSets(kwg: seq<Node>)
      requires Valid() && WellFormed(kwg) && Scorable(hLetters[..])
      modifies hSquares, vSquares
      ensures forall r, c :: OnBoard(r, c) ==>
        hSquares[Idx(r, c)] == HTarget(kwg, hLetters[..], old(hSquares[Idx(r, c)]), r, c)
      ensures forall r, c :: OnBoard(r, c) ==>
        vSquares[Idx(c, r)] == VTarget(kwg, hLetters[..], old(vSquares[Idx(c, r)]), r, c)
    {
      ghost var L := hLetters[..];
      var row := 0;
      while row < BOARD_DIM
        invariant 0 <= row <= BOARD_DIM
        invariant forall r, c :: OnBoard(r, c) && r < row ==>
          hSquares[Idx(r, c)] == HTarget(kwg, L, old(hSquares[Idx(r, c)]), r, c) &&
          vSquares[Idx(c, r)] == VTarget(kwg, L, old(vSquares[Idx(c, r)]), r, c)
        invariant forall r, c :: OnBoard(r, c) && r >= row ==>
          hSquares[Idx(r, c)] == old(hSquares[Idx(r, c)]) && vSquares[Idx(c, r)] == old(vSquares[Idx(c, r)])
      {
        var col := 0;
        while col < BOARD_DIM
          invariant 0 <= col <= BOARD_DIM
          invariant forall r, c :: OnBoard(r, c) && (r < row || (r == row && c < col)) ==>
            hSquares[Idx(r, c)] == HTarget(kwg, L, old(hSquares[Idx(r, c)]), r, c) &&
            vSquares[Idx(c, r)] == VTarget(kwg, L, old(vSquares[Idx(c, r)]), r, c)
          invariant forall r, c :: OnBoard(r, c) && (r > row || (r == row && c >= col)) ==>
            hSquares[Idx(r, c)] == old(hSquares[Idx(r, c)]) && vSquares[Idx(c, r)] == old(vSquares[Idx(c, r)])
        {
          UpdateSquare(L, kwg, row, col);
          forall r, c | OnBoard(r, c) && (r, c) != (row, col)
            ensures Idx(r, c) != Idx(row, col) && Idx(c, r) != Idx(col, row)
          {
            IdxInjective(r, c, row, col);
            IdxInjective(c, r, col, row);
          }
          col := col + 1;
        }
        row := row + 1;
      }
      assert hLetters[..] == L;
    }

    /** One square of board_update_cross_sets: an occupied square loses its
      * sets in both views, an empty one gets them from its column and its
      * row. Nothing else changes. */
    method UpdateSquare(ghost L: seq<MachineLetter>, kwg: seq<Node>, row: int, col: int)
      requires Valid() && |L| == BOARD_SIZE && forall p :: 0 <= p < BOARD_SIZE ==> hLetters[p] == L[p]
      requires WellFormed(kwg) && Scorable(L) && OnBoard(row, col)
      modifies hSquares, vSquares
      ensures hSquares[Idx(row, col)] == HTarget(kwg, L, old(hSquares[Idx(row, col)]), row, col)
      ensures vSquares[Idx(col, row)] == VTarget(kwg, L, old(vSquares[Idx(col, row)]), row, col)
      ensures forall p :: 0 <= p < BOARD_SIZE && p != Idx(row, col) ==> hSquares[p] == old(hSquares[p])
      ensures forall p :: 0 <= p < BOARD_SIZE && p != Idx(col, row) ==> vSquares[p] == old(vSquares[p])
    {
      var h, v := Idx(row, col), Idx(col, row);
      if hLetters[h] != EMPTY_SQUARE {
        hSquares[h] := Cleared(hSquares[h]);
        vSquares[v] := Cleared(vSquares[v]);
        return;
      }
      var column := ScanLine(L, kwg, true, col, row);
      var line := ScanLine(L, kwg, false, row, col);
      hSquares[h] := SquareSets(column.cross, column.score, line.leftx, line.rightx);
      vSquares[v] := SquareSets(line.cross, line.score, column.leftx, column.rightx);
    }

    /** The tiles of one line on both sides of square k, run through
      * compute_cross_set and compute_extension_sets (or the trivial sets when
      * there are none). */
    method ScanLine(ghost L: seq<MachineLetter>, kwg: seq<Node>, vertical: bool, fixed: int, k: int)
      returns (s: SquareSets)
      requires hLetters.Length == |L| == BOARD_SIZE && forall p :: 0 <= p < BOARD_SIZE ==> hLetters[p] == L[p]
      requires WellFormed(kwg) && Scorable(L) && 0 <= fixed < BOARD_DIM && 0 <= k < BOARD_DIM
      ensures s == LineSets(kwg, L, vertical, fixed, k)
    {
      var prefix, prefixLen := GatherBefore(L, vertical, fixed, k - 1);
      var suffix, suffixLen := GatherAfter(L, vertical, fixed, k + 1);
      if prefixLen == 0 && suffixLen == 0 {
        s := INITIAL_SETS;
      } else {
        ghost var after := suffix[..suffixLen];
        ReverseRun(prefix, prefixLen);
        assert suffix[..suffixLen] == after;
        RunsScorable(L, vertical, fixed, k);
        var crossSet, crossScore := ComputeCrossSet(kwg, prefix[..prefixLen], suffix[..suffixLen]);
        var leftx, rightx := ComputeExtensionSets(kwg, prefix[..prefixLen], suffix[..suffixLen]);
        s := SquareSets(crossSet, crossScore, leftx, rightx);
      }
    }

    /** The loop that collects the tiles before a square, walking away from
      * it until an empty square or the edge: the run, nearest tile first.
      * L is the letters of the horizontal view. */
    method GatherBefore(ghost L: seq<MachineLetter>, vertical: bool, fixed: int, k: int)
      returns (buf: array<MachineLetter>, len: int)
      requires hLetters.Length == |L| == BOARD_SIZE && forall p :: 0 <= p < BOARD_SIZE ==> hLetters[p] == L[p]
      requires 0 <= fixed < BOARD_DIM && -1 <= k < BOARD_DIM
      ensures fresh(buf) && buf.Length == BOARD_DIM && 0 <= len <= BOARD_DIM
      ensures Reverse(buf[..len]) == RunTo(L, vertical, fixed, k)
    {
      buf := new MachineLetter[BOARD_DIM];
      len := 0;
      var j := k;
      while j >= 0
        invariant -1 <= j <= k && len == k - j
        invariant forall i :: 0 <= i < len ==>
          buf[i] == L[LineIdx(vertical, fixed, k - i)] && buf[i] != EMPTY_SQUARE
      {
        var ml := hLetters[LineIdx(vertical, fixed, j)];
        if ml == EMPTY_SQUARE {
          break;
        }
        buf[len] := ml;
        len := len + 1;
        j := j - 1;
      }
      RunToIs(L, vertical, fixed, k, len, buf[..len]);
    }

    /** The loop that collects the tiles after a square, in reading order. */
    method GatherAfter(ghost L: seq<MachineLetter>, vertical: bool, fixed: int, k: int)
      returns (buf: array<MachineLetter>, len: int)
      requires hLetters.Length == |L| == BOARD_SIZE && forall p :: 0 <= p < BOARD_SIZE ==> hLetters[p] == L[p]
      requires 0 <= fixed < BOARD_DIM && 0 <= k <= BOARD_DIM
      ensures fresh(buf) && buf.Length == BOARD_DIM && 0 <= len <= BOARD_DIM
      ensures buf[..len] == RunFrom(L, vertical, fixed, k)
    {
      buf := new MachineLetter[BOARD_DIM];
      len := 0;
      var j := k;
      while j < BOARD_DIM
        invariant k <= j <= BOARD_DIM && len == j - k
        invariant forall i :: 0 <= i < len ==>
          buf[i] == L[LineIdx(vertical, fixed, k + i)] && buf[i] != EMPTY_SQUARE
      {
        var ml := hLetters[LineIdx(vertical, fixed, j)];
        if ml == EMPTY_SQUARE {
          break;
        }
        buf[len] := ml;
        len := len + 1;
        j := j + 1;
      }
      RunFromIs(L, vertical, fixed, k, len, buf[..len]);
    }
  }

  /** The sets board_init gives every square of both views. */
  const INITIAL_SETS: SquareSets := SquareSets(TRIVIAL_CROSS_SET, -1, TRIVIAL_CROSS_SET, TRIVIAL_CROSS_SET)

  /** Distinct squares have distinct row-major indices. */
  lemma IdxInjective(r: int, c: int, r2: int, c2: int)
    requires OnBoard(r, c) && OnBoard(r2, c2)
    ensures Idx(r, c) == Idx(r2, c2) <==> r == r2 && c == c2
    ensures 0 <= Idx(r, c) < BOARD_SIZE
  {
  }

  /** init_bonus_layout: unfold the quarter onto the whole board. */
  method InitBonusLayout(layout: array<Bonus>)
    requires layout.Length == BOARD_SIZE
    modifies layout
    ensures forall r, c :: OnBoard(r, c) ==> layout[Idx(r, c)] == BonusAt(r, c)
  {
    var row := 0;
    while row < BOARD_DIM
      invariant 0 <= row <= BOARD_DIM
      invariant forall r, c :: OnBoard(r, c) && r < row ==> layout[Idx(r, c)] == BonusAt(r, c)
    {
      var col := 0;
      while col < BOARD_DIM
        invariant 0 <= col <= BOARD_DIM
        invariant forall r, c :: OnBoard(r, c) && (r < row || (r == row && c < col)) ==>
          layout[Idx(r, c)] == BonusAt(r, c)
      {
        layout[Idx(row, col)] := BonusAt(row, col);
        forall r, c | OnBoard(r, c) && (r, c) != (row, col)
          ensures Idx(r, c) != Idx(row, col)
        {
          IdxInjective(r, c, row, col);
        }
        col := col + 1;
      }
      row := row + 1;
    }
  }

  /** The in-place swap loop that turns the collected prefix into reading order. */
  method ReverseRun(buf: array<MachineLetter>, len: int)
    requires 0 <= len <= buf.Length
    modifies buf
    ensures buf[..len] == Reverse(old(buf[..len]))
    ensures buf[len..] == old(buf[len..])
  {
    var i := 0;
    while i < len / 2
      invariant 0 <= i <= len / 2
      invariant forall j :: 0 <= j < i ==> buf[j] == old(buf[len - 1 - j]) && buf[len - 1 - j] == old(buf[j])
      invariant forall j :: i <= j < len - i ==> buf[j] == old(buf[j])
      invariant buf[len..] == old(buf[len..])
    {
      buf[i], buf[len - 1 - i] := buf[len - 1 - i], buf[i];
      i := i + 1;
    }
  }

  lemma {:induction false} AllEmptyUnoccupied(L: seq<MachineLetter>)
    requires forall p :: 0 <= p < |L| ==> L[p] == EMPTY_SQUARE
    ensures Occupied(L) == 0
  {
    if L != [] {
      AllEmptyUnoccupied(L[..|L| - 1]);
    }
  }
}
