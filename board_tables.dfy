// The constant tables of src/board.c: tile scores, tile counts and the
// bonus-square layout unfolded from its top-left quarter.
module BoardTables {
  import opened Defs

  type TileScore = x: nat | x <= 10

  /** Face value of each machine letter; index 0 is the blank. */
  const TILE_SCORES: seq<TileScore> :=
    [0, 1, 3, 3, 2, 1, 4, 2, 4, 1, 8, 5, 1, 3, 1, 1, 3, 10, 1, 1, 1, 1, 4, 4, 8, 4, 10]

  /** How many copies of each machine letter a full bag holds; index 0 is the blank. */
  const TILE_COUNTS: seq<nat> :=
    [2, 9, 2, 2, 4, 12, 2, 3, 2, 9, 1, 1, 4, 2, 6, 8, 2, 1, 6, 4, 6, 4, 2, 2, 1, 2, 1]

  /** The top-left 8x8 quarter of the board, row-major. */
  const BONUS_QUARTER: seq<Bonus> := [
    BONUS_TW, BONUS_NONE, BONUS_NONE, BONUS_DL, BONUS_NONE, BONUS_NONE, BONUS_NONE, BONUS_TW,
    BONUS_NONE, BONUS_DW, BONUS_NONE, BONUS_NONE, BONUS_NONE, BONUS_TL, BONUS_NONE, BONUS_NONE,
    BONUS_NONE, BONUS_NONE, BONUS_DW, BONUS_NONE, BONUS_NONE, BONUS_NONE, BONUS_DL, BONUS_NONE,
    BONUS_DL, BONUS_NONE, BONUS_NONE, BONUS_DW, BONUS_NONE, BONUS_NONE, BONUS_NONE, BONUS_DL,
    BONUS_NONE, BONUS_NONE, BONUS_NONE, BONUS_NONE, BONUS_DW, BONUS_NONE, BONUS_NONE, BONUS_NONE,
    BONUS_NONE, BONUS_TL, BONUS_NONE, BONUS_NONE, BONUS_NONE, BONUS_TL, BONUS_NONE, BONUS_NONE,
    BONUS_NONE, BONUS_NONE, BONUS_DL, BONUS_NONE, BONUS_NONE, BONUS_NONE, BONUS_DL, BONUS_NONE,
    BONUS_TW, BONUS_NONE, BONUS_NONE, BONUS_DL, BONUS_NONE, BONUS_NONE, BONUS_NONE, BONUS_CENTER]

  /** The sum of the first n entries. */
  function SumTo(s: seq<nat>, n: nat): nat
    requires n <= |s|
  {
    if n == 0 then 0 else SumTo(s, n - 1) + s[n - 1]
  }

  function Sum(s: seq<nat>): nat
  {
    SumTo(s, |s|)
  }

  /** The score of a tile already on the board: 0 for a blank-played letter. */
  function TileValue(ml: MachineLetter): (v: nat)
    requires IsBlanked(ml) || IsLetter(ml)
    ensures IsBlanked(ml) ==> v == 0
    ensures !IsBlanked(ml) ==> v == TILE_SCORES[ml]
    ensures v <= 10
  {
    if IsBlanked(ml) then 0 else TILE_SCORES[ml]
  }

  /** Both tables cover the whole alphabet, a full bag holds 100 tiles, and blanks score 0. */
  lemma TableFacts()
    ensures |TILE_SCORES| == ALPHABET_SIZE && |TILE_COUNTS| == ALPHABET_SIZE
    ensures Sum(TILE_COUNTS) == MAX_TILES_IN_BAG
    ensures TILE_SCORES[BLANK_ML] == 0 && TILE_COUNTS[BLANK_ML] == 2
  {
    // Add up the counts one letter at a time.
    assert SumTo(TILE_COUNTS, 1) == 2;
    assert SumTo(TILE_COUNTS, 2) == 11;
    assert SumTo(TILE_COUNTS, 3) == 13;
    assert SumTo(TILE_COUNTS, 4) == 15;
    assert SumTo(TILE_COUNTS, 5) == 19;
    assert SumTo(TILE_COUNTS, 6) == 31;
    assert SumTo(TILE_COUNTS, 7) == 33;
    assert SumTo(TILE_COUNTS, 8) == 36;
    assert SumTo(TILE_COUNTS, 9) == 38;
    assert SumTo(TILE_COUNTS, 10) == 47;
    assert SumTo(TILE_COUNTS, 11) == 48;
    assert SumTo(TILE_COUNTS, 12) == 49;
    assert SumTo(TILE_COUNTS, 13) == 53;
    assert SumTo(TILE_COUNTS, 14) == 55;
    assert SumTo(TILE_COUNTS, 15) == 61;
    assert SumTo(TILE_COUNTS, 16) == 69;
    assert SumTo(TILE_COUNTS, 17) == 71;
    assert SumTo(TILE_COUNTS, 18) == 72;
    assert SumTo(TILE_COUNTS, 19) == 78;
    assert SumTo(TILE_COUNTS, 20) == 82;
    assert SumTo(TILE_COUNTS, 21) == 88;
    assert SumTo(TILE_COUNTS, 22) == 92;
    assert SumTo(TILE_COUNTS, 23) == 94;
    assert SumTo(TILE_COUNTS, 24) == 96;
    assert SumTo(TILE_COUNTS, 25) == 97;
    assert SumTo(TILE_COUNTS, 26) == 99;
    assert SumTo(TILE_COUNTS, 27) == 100;
  }

  /** The quarter row (or column) that a board row (or column) mirrors onto. */
  function Fold(x: int): (q: int)
    requires 0 <= x < BOARD_DIM
    ensures 0 <= q < 8
    ensures q == x || q == BOARD_DIM - 1 - x
  {
    if x < 8 then x else 14 - x
  }

  /** The bonus of square (row, col), as init_bonus_layout stores it. */
  function BonusAt(row: int, col: int): Bonus
    requires 0 <= row < BOARD_DIM && 0 <= col < BOARD_DIM
  {
    BONUS_QUARTER[Fold(row) * 8 + Fold(col)]
  }

  /** The layout is mirror-symmetric about both middle lines, with the star at (7, 7). */
  lemma LayoutSymmetric(row: int, col: int)
    requires 0 <= row < BOARD_DIM && 0 <= col < BOARD_DIM
    ensures BonusAt(row, col) == BonusAt(BOARD_DIM - 1 - row, col)
    ensures BonusAt(row, col) == BonusAt(row, BOARD_DIM - 1 - col)
    ensures BonusAt(7, 7) == BONUS_CENTER
  {
    assert Fold(BOARD_DIM - 1 - row) == Fold(row);
    assert Fold(BOARD_DIM - 1 - col) == Fold(col);
  }

  /** Squares (5, 0) and (6, 0), on the left edge, have no bonus. */
  lemma NoBonusOnEdge()
    ensures BonusAt(5, 0) == BONUS_NONE && BonusAt(6, 0) == BONUS_NONE
  {
    assert BONUS_QUARTER[56] == BONUS_TW;
    assert BONUS_QUARTER[48] == BONUS_NONE;
    assert BONUS_QUARTER[40] == BONUS_NONE;
  }
}
