// Core definitions of the Scrabble engine: board geometry, machine letters,
// blanked-letter masks, cross sets and eighths (inc/scrabble.h).
module Defs {
  /** An unsigned 8-bit machine letter: 0 is the blank (and the empty square),
      1..26 are A..Z, bit 7 (0x80) marks a blank played as a letter. */
  type MachineLetter = x: int | 0 <= x < 256

  /** A uint8_t counter. */
  type Byte = x: int | 0 <= x < 256

  /** A 32-bit letter bitmap, modelled as the set of its set bit positions:
      letter l is in the set when bit l is set. */
  type CrossSet = set<MachineLetter>

  const BOARD_DIM: int := 15
  const BOARD_SIZE: int := BOARD_DIM * BOARD_DIM
  const RACK_SIZE: int := 7
  const MAX_TILES_IN_BAG: int := 100
  const ALPHABET_SIZE: int := 27

  const EMPTY_SQUARE: MachineLetter := 0
  const BLANK_ML: MachineLetter := 0
  const BLANK_MASK: int := 0x80
  const UNBLANK_MASK: int := 0x7F
  const PLAYED_THROUGH: MachineLetter := 0xFF
  const ML_A: MachineLetter := 1
  const ML_Z: MachineLetter := 26
  const SEPARATOR: MachineLetter := 0

  const DIR_H: int := 0
  const DIR_V: int := 1

  datatype MoveType = TilePlacement | Pass | Exchange

  /** A bonus-square kind. */
  type Bonus = b: int | 0 <= b <= 5

  const BONUS_NONE: Bonus := 0
  const BONUS_DL: Bonus := 1
  const BONUS_TL: Bonus := 2
  const BONUS_DW: Bonus := 3
  const BONUS_TW: Bonus := 4
  const BONUS_CENTER: Bonus := 5

  const OPENING_HOTSPOT_PENALTY: int := -6
  const NON_OUTPLAY_CONSTANT_PENALTY: int := ToEighths(10)

  /** 0xFFFFFFFE: every bit but bit 0. */
  const TRIVIAL_CROSS_SET: CrossSet := set l: int | 1 <= l < 32
  const EMPTY_CROSS_SET: CrossSet := {}

  const MAX_MOVE_TILES: int := 15
  const MAX_MOVES: int := 256

  /** A move: where it starts, its direction and its tiles along the line.
    * tiles[i] is PLAYED_THROUGH for a square already holding a tile; for an
    * exchange the tiles are the exchanged letters. */
  datatype Move = Move(
    score: int, equity: int, moveType: MoveType,
    rowStart: int, colStart: int,
    tilesPlayed: int, tilesLength: int,
    dir: int, tiles: seq<MachineLetter>)

  /** ml & BLANK_MASK: for an 8-bit value, bit 7 is set exactly from 0x80 up. */
  predicate IsBlanked(ml: MachineLetter) { ml >= BLANK_MASK }

  /** ml & UNBLANK_MASK: the low seven bits. */
  function Unblanked(ml: MachineLetter): (r: MachineLetter)
    ensures r < 0x80
    ensures r == ml <==> !IsBlanked(ml)
    ensures IsBlanked(ml) ==> r == ml - BLANK_MASK
  {
    ml % 0x80
  }

  /** ml | BLANK_MASK: sets bit 7. */
  function Blanked(ml: MachineLetter): (r: MachineLetter)
    ensures IsBlanked(r)
    ensures Unblanked(r) == Unblanked(ml)
  {
    if IsBlanked(ml) then ml else ml + BLANK_MASK
  }

  /** A real letter 1..26 or the blank 0. */
  predicate IsLetter(ml: MachineLetter) { ml < ALPHABET_SIZE }

  function ToEighths(x: int): (r: int)
    ensures r / 8 == x && r % 8 == 0
  {
    x * 8
  }

  /** A set holds only bit positions of a 32-bit word. */
  predicate IsBitmap(s: CrossSet) { forall l :: l in s ==> l < 32 }

  /** The C cast of an int to int8_t: two's-complement wrap-around. */
  function ToInt8(x: int): (r: int)
    ensures -128 <= r < 128 && (r - x) % 256 == 0
    ensures -128 <= x < 128 ==> r == x
  {
    (x + 128) % 256 - 128
  }

  /** Wrapping after every addition is the same as wrapping once at the end. */
  lemma ToInt8Add(a: int, b: int)
    ensures ToInt8(ToInt8(a) + b) == ToInt8(a + b)
  {
    var q := (a + 128) / 256;
    assert ToInt8(a) == a - 256 * q;
    assert ToInt8(a) + b + 128 == (a + b + 128) - 256 * q;
  }

  /** Machine-letter facts the rest of the engine relies on. */
  lemma BlankFacts(ml: MachineLetter)
    ensures ml < 0x80 ==> Unblanked(Blanked(ml)) == ml && IsBlanked(Blanked(ml))
    ensures IsLetter(ml) ==> !IsBlanked(ml) && Unblanked(ml) == ml
    ensures IsBlanked(PLAYED_THROUGH) && Unblanked(PLAYED_THROUGH) == 0x7F
    ensures BLANK_ML == EMPTY_SQUARE == SEPARATOR == 0
  {
  }

  lemma TrivialCrossSetBits(l: MachineLetter)
    ensures l in TRIVIAL_CROSS_SET <==> 1 <= l < 32
    ensures IsBitmap(TRIVIAL_CROSS_SET)
  {
  }

  lemma ConstantFacts()
    ensures BOARD_SIZE == 225 && NON_OUTPLAY_CONSTANT_PENALTY == 80
    ensures forall x: int :: ToEighths(x) == 8 * x
  {
  }
}
