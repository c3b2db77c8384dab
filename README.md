# Scrabble for the Sega Genesis: a Dafny model of the engine and its tools

This project models, in Dafny, the core of a Scrabble game that runs as a
68000 ROM on the Sega Genesis, together with the host-side tools and
test-side readers built around it.

- **The engine** (`inc/scrabble.h`, `inc/equity.h`, `src/game.c`,
  `src/board.c`, `inc/kwg.h`, `src/kwg.c`, `inc/klv.h`, `src/klv.c`,
  `inc/anchor.h`, `src/movegen.c`). This covers:
  - machine letters and equity units;
  - racks, the bag, the xorshift generator and the game transitions;
  - the dual horizontal/vertical board with its cross sets;
  - KWG lexicon nodes with their DAWG and GADDAG scans;
  - KLV leave values and the leave-map bitmask;
  - the anchor max-heap;
  - the move-generation helpers: multipliers, descending score lists,
    tie-breaking, recording the best move, restore after backtracking,
    anchor detection, exchange enumeration and the final best-move swap.
- **The screen code** (`src/graphics.c`, `src/main.c`). This covers the text
  helpers, which write character cells to plane A, the letter-tile pixel
  rule, and the move history sidebar. Every write that would reach video
  memory is appended to an output trace instead.
- **The tools**:
  - the disassembly-listing splitter (`tools/split_asm.py`), a single-pass
    state machine over `objdump -d -S` lines;
  - the five-pixel font decompressor and glyph slicer;
  - the BDF/OTB font row placer;
  - the KWG and KLV binary-to-C-array serialisers.
- **The test-side code**:
  - the second KLV reader and rack string codec (`tests/gxtest/klv.cpp`);
  - the native KLV reader with memoised word counts (`tests/test_klv.c`);
  - the integer parts of the timing report
    (`tests/gxtest/scrabble_timing_report.cpp`).

Code that changes state in place is modelled as a Dafny `class` whose
fields are the source's own. These include the rack, the bag, the generator,
the board, the game state, the leave map, the anchor heap, the move
generator's state, the history buffer and the bucket statistics. Their
methods carry loop invariants and relate the new state to the old one or to a
specification function; a contract that says less than the source does is
listed under "Left out". Code that
only computes is modelled as datatypes, functions and lemmas. Fixed-width
integers are modelled explicitly where the width matters, for example the
int16 equity wrap and uint8 counters.

## Model

| member | source | states |
|---|---|---|
| Defs.Unblanked | inc/scrabble.h:38 | the result is below 0x80, equals the letter exactly when the letter is not blanked, and is the letter minus 0x80 when it is |
| Defs.Blanked | inc/scrabble.h:39 | the result is blanked and unblanks to the same letter as the input |
| Defs.ToEighths | inc/scrabble.h:70 | the result is a multiple of 8 whose eighth is the input |
| Defs.ToInt8 | src/kwg.c:125 | the int8_t cast: the result lies in -128..127, differs from the input by a multiple of 256, and is the input when it already fits |
| Defs.ToInt8Add | src/kwg.c:137-158 | wrapping the running cross score after every addition gives the same int8_t as wrapping the final sum once |
| Defs.BlankFacts | inc/scrabble.h:24-39 | BLANKED then UNBLANKED is the identity below 0x80 and the result counts as blanked; letters 0..26 are not blanked; PLAYED_THROUGH_MARKER counts as blanked and unblanks to 0x7F; the blank, the empty-square marker and the separator are all 0 |
| Defs.TrivialCrossSetBits | inc/scrabble.h:83 | TRIVIAL_CROSS_SET holds exactly bits 1..31 |
| Defs.ConstantFacts | inc/scrabble.h:12-13 | BOARD_SIZE is 225, NON_OUTPLAY_CONSTANT_PENALTY is 80 and TO_EIGHTHS is multiplication by 8 (also line 70, line 79) |
| Equity.ToInt16 | inc/equity.h:15 | the int16_t cast: the result fits 16 signed bits and is the input when it already fits |
| Equity.ToInt16Wraps | inc/equity.h:15 | the cast keeps the value modulo 2^16 |
| Equity.PointsToEquity | inc/equity.h:37 | POINTS_TO_EQUITY yields an int16 value that is 8 times the points whenever that fits |
| Equity.EquityToPoints | inc/equity.h:40 | EQUITY_TO_POINTS truncates toward zero: 8 times the result is within one eighth-step of the equity, on the zero side |
| Equity.PointsRoundTrip | inc/equity.h:37-44 | every point value between EQUITY_MIN_POINTS and EQUITY_MAX_POINTS survives the trip to equity and back |
| Equity.Sentinels | inc/equity.h:27-44 | UNDEFINED, INITIAL, PASS and MIN are consecutive from INT16_MIN; MAX is -MIN, which is 32765; the point limits are -4095 and 4095 |
| BoardTables.TileValue | src/kwg.c:137-158 | a tile on the board scores 0 when blanked and its TILE_SCORES entry otherwise, at most 10 |
| BoardTables.Fold | src/board.c:96-104 | the quarter index a board row or column mirrors onto is below 8 and is either the index or its mirror 14 - index |
| BoardTables.LayoutSymmetric | src/board.c:81-104 | the unfolded BONUS_LAYOUT is mirror-symmetric about both middle lines and (7, 7) is the centre star |
| Numerals.UpperHexChar | tools/kwg2c.py:41 | the digit character is a hexadecimal digit whose value is the input, written in upper case |
| Numerals.FixedHex | tools/kwg2c.py:41 | the zero-padded "%0wX" text has exactly w characters |
| Numerals.FixedHexValue | tools/kwg2c.py:41 | a value below 16^w is written in w hexadecimal digits that read back as the value |
| Numerals.DigitChar | src/graphics.c:589-626 | a decimal digit character whose value is the input |
| Numerals.Decimal | tools/kwg2c.py:48-49 | "%d" of a natural number is non-empty and starts with a digit |
| Numerals.DecimalValue | tools/kwg2c.py:48-49 | "%d" consists of decimal digits that read back as the number, with a leading 0 only for the number 0 |
| Numerals.SignedDecimal | src/graphics.c:589-626 | "%d" of any integer starts with '-' exactly when it is negative, followed by the digits of its magnitude |
| Anchors.BeatsOrder | inc/anchor.h:65-71 | anchor_compare is irreflexive, asymmetric and transitive, its incomparability is transitive, and it orders any two anchors with distinct scan orders |
| Anchors.Parent | inc/anchor.h:55 | HEAP_PARENT of a non-root index is a smaller index |
| Anchors.ParentOfChildren | inc/anchor.h:55-57 | HEAP_PARENT(HEAP_LEFT(i)) and HEAP_PARENT(HEAP_RIGHT(i)) are i, and these are i's only children |
| Anchors.RootIsMax | inc/anchor.h:77-104 | in a heap no stored anchor beats the root |
| Anchors.RootBeatsAll | inc/anchor.h:145-157 | in a heap nothing in the stored multiset beats the root |
| Anchors.RemoveRoot | inc/anchor.h:150-154 | moving the last anchor to the root removes exactly the root from the multiset and keeps the heap property below the root |
| Anchors.SwapPermutes | inc/anchor.h:95-100 | swapping two stored anchors keeps the multiset |
| Anchors.AnchorHeap.constructor | inc/anchor.h:50-52 | a new heap is empty and is a heap |
| Anchors.AnchorHeap.Init | inc/anchor.h:50-52 | anchor_heap_init empties the heap |
| Anchors.AnchorHeap.IsEmpty | inc/anchor.h:171-173 | true exactly when no anchor is stored |
| Anchors.AnchorHeap.Peek | inc/anchor.h:163-166 | none exactly on an empty heap; otherwise a stored anchor that no stored anchor beats |
| Anchors.AnchorHeap.Exchange | inc/anchor.h:95-100 | the two slots are swapped and the multiset is kept |
| Anchors.AnchorHeap.HeapifyDown | inc/anchor.h:77-104 | sifting down from i makes the heap property hold from i on and keeps the multiset |
| Anchors.AnchorHeap.HeapifyUp | inc/anchor.h:110-126 | sifting up restores the heap property and keeps the multiset |
| Anchors.AnchorHeap.Insert | inc/anchor.h:132-139 | fails with the heap unchanged when 200 anchors are stored; otherwise the count grows by one, the multiset gains the anchor, and the heap property holds |
| Anchors.AnchorHeap.ExtractMax | inc/anchor.h:145-157 | fails with the heap unchanged when empty; otherwise returns a stored anchor that no stored anchor beats, removes it from the multiset, lowers the count by one and keeps the heap property |
| Anchors.AnchorHeap.Build | inc/anchor.h:179-186 | rearranges any stored anchors into a heap with the same multiset |
| Board.Idx | src/board.c:141-142 | the row-major index of an on-board square is inside the 225-entry arrays |
| Board.LineIdx | src/board.c:210-219 | square k of a row or column has an index inside the board arrays (also lines 250-259) |
| Board.RunToMeaning | src/board.c:210-214 | the run ending at square k is exactly the occupied squares just before it in reading order, and the square before the run is empty or off the board (also lines 250-254) |
| Board.RunFromMeaning | src/board.c:215-219 | the run starting at square k is exactly the occupied squares from it in reading order, and the square after the run is empty or off the board (also lines 255-259) |
| Board.RunsScorable | src/board.c:233-241 | the runs on either side of a square hold only tiles that can be scored when the board does |
| Board.RunToIs | src/board.c:210-214 | the tiles collected walking away from a square up to an empty square or the edge, once reversed, are the run in reading order (also lines 228-232) |
| Board.RunFromIs | src/board.c:215-219 | the tiles collected walking forward up to an empty square or the edge are the run after the square |
| Board.IsolatedInColumn | src/board.c:221-226 | an empty square with no tile above or below gets a trivial horizontal cross set with cross score -1 and trivial vertical extension sets |
| Board.HCrossMeaning | src/board.c:233-235 | in a lexicon with distinct sibling tiles, a letter is in the horizontal cross set of an empty square with a tile above or below exactly when it is a letter 1..127 that completes a valid word with the runs above and below |
| Board.Placed | src/board.c:295-302 | applying the first n tiles of a move yields a full board of letters |
| Board.PlacedMeaning | src/board.c:290-303 | each square of the move gets its tile unless that tile is the played-through marker, and every other square keeps its letter |
| Board.Occupied | src/board.c:144-146 | the number of occupied squares is at most the number of squares |
| Board.OccupiedUpdate | src/board.c:144-148 | writing one square changes the occupied count by what that square gains or loses |
| Board.NewSquaresOccupied | src/board.c:144-148 | when a move places real tiles, the placements on empty squares are exactly the squares the move newly occupies (also lines 295-302) |
| Board.Board.constructor | src/board.c:109-135 | a new board satisfies the view invariant with all its arrays fresh |
| Board.Board.Init | src/board.c:109-135 | board_init leaves every square empty in both views with trivial sets and cross score -1, the bonuses equal to BONUS_LAYOUT, and no tiles counted |
| Board.Board.PlaceTile | src/board.c:140-149 | both views get the tile at (row, col) and at (col, row); the counter goes up, modulo 256, exactly when the square was empty; the two views stay transposed |
| Board.Board.GetTile | src/board.c:154-156 | the horizontal view's letter, which the vertical view holds at the transposed index |
| Board.Board.IsEmpty | src/board.c:161-163 | true exactly when the square is empty, in either view |
| Board.Board.ApplyMove | src/board.c:290-303 | the letters become Placed of the old letters and the whole move, with the views still transposed; the tile count goes up, modulo 256, by the placements that land on empty squares, and stays equal to the number of occupied squares when the move places no empty-square marker |
| Board.Board.PlaceMoveTile | src/board.c:296-301 | one round of the loop places tile i on its square unless it is played through, and keeps the count in step |
| Board.Board.UpdateCrossSets | src/board.c:180-285 | every square of the horizontal view and the transposed square of the vertical view get the sets HTarget and VTarget computed from the unchanged letters: cleared when occupied, the trivial sets when isolated, compute_cross_set and compute_extension_sets of the runs otherwise |
| Board.Board.UpdateSquare | src/board.c:183-283 | one square's sets in both views are recomputed and no other square changes |
| Board.Board.ScanLine | src/board.c:197-242 | the sets of one square along one line are those of the runs on both sides of it |
| Board.Board.GatherBefore | src/board.c:210-214 | the collected buffer, reversed, is the run before the square |
| Board.Board.GatherAfter | src/board.c:215-219 | the collected buffer is the run after the square |
| Board.IdxInjective | src/board.c:141-142 | distinct squares have distinct row-major indices |
| Board.InitBonusLayout | src/board.c:96-104 | init_bonus_layout writes BonusAt(r, c), the quarter entry of the folded row and column, on every square |
| Board.ReverseRun | src/board.c:228-232 | the swap loop reverses the first len entries of the buffer and leaves the rest alone |
| Game.Expand | src/game.c:60-72 | the letters of a count table in ascending order, as many as the counts add up to (also lines 77-86) |
| Game.ExpandCount | src/game.c:77-86 | each letter occurs in the expansion as often as its count says and no other value occurs |
| Game.ExpandSorted | src/game.c:62-63 | the expansion is in ascending machine-letter order and holds only letters of the table |
| Game.ExpandFacts | src/game.c:81-85 | the expansion of a 27-letter table has each letter's count, is ascending, and holds only letters |
| Game.SameCounts | src/game.c:43-53 | two count tables expand to the same multiset of tiles exactly when they are equal |
| Game.ExpandAt | src/game.c:81-83 | copy j of letter l sits at position (sum of the counts before l) + j |
| Game.LetterChar | src/game.c:64-68 | '?' exactly for the blank, and 'A' + l - 1 for letter l otherwise |
| Game.XorshiftRoundTrip | src/game.c:15-21 | the xorshift step is invertible, so it maps a non-zero state to a non-zero state |
| Game.HighHalfBelow | src/game.c:31-34 | the high half of a 16-bit value times n lies in [0, n) for n >= 1 |
| Game.Rng.constructor | src/game.c:13 | the state starts at 12345 |
| Game.Rng.Seed | src/game.c:23-28 | the state is the seed times 2654435761 plus 1, cut to 16 bits with the low bit forced: odd and never 0 |
| Game.Rng.Next | src/game.c:15-21 | the state becomes one xorshift step of the old state and is returned |
| Game.RangeOf | src/game.c:31-34 | the draw from a state is the next state's value times n divided by 0x10000, which lies in [0, n) for n >= 1 and is 0 for n = 0 |
| Game.Rng.Range | src/game.c:31-34 | advances the generator by one step and returns exactly RangeOf of the old state, so a value in [0, n) for n >= 1 (0 for n = 0) |
| Game.Rack.constructor | src/game.c:39-41 | a new rack is empty and consistent (total equals the sum of the counts) |
| Game.Rack.Init | src/game.c:39-41 | rack_init zeroes every count and the total |
| Game.Rack.AddTile | src/game.c:43-46 | the tile's count and the total each go up by one as uint8_t; the total stays the sum of the counts while it does not wrap |
| Game.Rack.RemoveTile | src/game.c:48-53 | fails with nothing changed exactly when the tile's count is 0; otherwise the count and the total go down by one, and the total stays the sum of the counts |
| Game.Rack.HasTile | src/game.c:55-57 | true exactly when the tile is in the rack's multiset |
| Game.Rack.ToString | src/game.c:60-72 | the buffer holds the rack's tiles in ascending machine-letter order, '?' for the blank and a capital for a letter, then a NUL, one character per tile |
| Game.Bag.constructor | src/game.c:77 | a new bag is valid and empty |
| Game.Bag.Init | src/game.c:77-86 | bag_init holds 100 tiles with exactly TILE_COUNTS[l] copies of each letter l, in ascending order |
| Game.Bag.FillFrom | src/game.c:80-85 | filling from a count table stores that many tiles, each letter as often as its count, ascending |
| Game.Bag.FillLetters | src/game.c:81-85 | the two nested loops store the expansion of the count table |
| Game.Bag.PutCopies | src/game.c:82-84 | the inner loop appends the copies of one letter and keeps what was stored |
| Game.Swap | src/game.c:92-94 | slots i and j trade their tiles and every other slot is unchanged |
| Game.SwapPermutes | src/game.c:92-94 | a swap keeps the same multiset of tiles |
| Game.FisherYates | src/game.c:88-96 | the shuffle as a function of the tiles and the generator state, from the top slot down to 1 with one draw from [0, i] per slot; keeps the length |
| Game.FisherYatesPermutes | src/game.c:88-96 | the shuffle's result is a permutation of its input |
| Game.FisherYatesState | src/game.c:88-96 | the shuffle of count tiles leaves the generator count - 1 xorshift steps on, whatever the tiles are |
| Game.Bag.SwapDrawn | src/game.c:91-94 | one round of the loop: the generator advances one step and slot i is swapped with slot RangeOf(old state, i + 1); slots past the count are unchanged |
| Game.Bag.Shuffle | src/game.c:88-96 | the undrawn tiles and the generator's final state are exactly FisherYates of the old tiles and the old state, so the bag's multiset is kept; slots past the count are unchanged |
| Game.Bag.Draw | src/game.c:98-101 | an empty bag returns 0 and is unchanged; otherwise the last tile is returned and the count goes down by one |
| Game.Bag.RefillRack | src/game.c:103-108 | the rack draws Drawn(total, count) tiles, the top tiles of the bag, and each letter's rack count plus bag count is conserved |
| Game.Bag.DrawOne | src/game.c:104-107 | one loop step moves the top tile of the bag onto the rack |
| Game.Bag.ReturnTiles | src/game.c:111-116 | the bag grows by the returned tiles and gains their multiset; the new order and the generator's new state are FisherYates of the old tiles followed by the returned ones, from the old state |
| Game.Bag.PushTiles | src/game.c:112-114 | the returned tiles are appended after the old ones, in order |
| Game.Drawn | src/game.c:104 | the refill stops at 7 tiles on the rack or an empty bag, whichever comes first, and draws nothing to a full rack |
| Game.Inc8 | src/game.c:44-45 | a uint8_t increment wraps modulo 256 |
| Game.Dec8 | src/game.c:50-51 | a uint8_t decrement wraps modulo 256 and is undone by the increment |
| Game.RackTilesMeaning | src/game.c:43-57 | the rack's multiset holds each letter as often as its count, and its size is the sum of the counts |
| Game.RackTilesAdd | src/game.c:43-46 | adding one to a letter's count adds that tile to the rack's multiset |
| Game.RackTilesHas | src/game.c:55-57 | a tile is in the rack exactly when its count is positive |
| Game.RackTilesRemove | src/game.c:48-53 | taking one from a positive count removes one copy of that tile from the multiset |
| Game.AddTilesCount | src/game.c:103-108 | adding a sequence of tiles to a count table adds each letter's number of occurrences |
| Game.DrawnConserves | src/game.c:103-108 | moving the top tiles of a bag onto the rack conserves each letter's rack-plus-bag total |
| Game.AddTilesSum | src/game.c:103-108 | the total grows by the number of tiles added |
| Scoring.LetterMult | src/game.c:123-129 | get_letter_mult is 1..3 and above 1 exactly on a double- or triple-letter square |
| Scoring.WordMult | src/game.c:132-142 | get_word_mult is 1..3 and above 1 exactly on a double-word, triple-word or centre square |
| Scoring.SquareIdx | src/game.c:158-160 | square i of an on-board move has an index inside the board |
| Scoring.TallyTo | src/game.c:157-194 | the running tally after n tiles counts at most n fresh tiles and keeps a word multiplier of at least 1 |
| Scoring.ScoresOf | src/board.c:233-235 | the cross-score table read off the per-square sets, square by square (also lines 273-275) |
| Scoring.TableCross | src/game.c:180-185 | the cross score read for each tile of the move, from the view of the move's direction at that view's own index; one per tile |
| Scoring.TableCrossAsWritten | src/game.c:180-185 | the cross score read for each tile as the source indexes it (row-major index in both views); one per tile |
| Scoring.PerpCross | src/board.c:233-235 | the cross score of the perpendicular word through each tile, computed from the letters; one per tile (also lines 273-275) |
| Scoring.UpdatedScoresCurrent | src/board.c:180-285 | after board_update_cross_sets both cross-score tables hold the scores of the perpendicular runs of every square |
| Scoring.LineScoreRange | src/kwg.c:125-169 | a cross score fits the int8_t it is stored in |
| Scoring.TallyCrossAtFresh | src/game.c:179-192 | the tally depends on the cross scores of fresh tiles only |
| Scoring.TableCrossIsPerpCross | src/game.c:148-204 | with the tables current and the move's fresh tiles on empty squares, scoring by the table equals scoring by the perpendicular words themselves |
| Scoring.TallyBonusAtFresh | src/game.c:170-177 | the tally depends on the bonuses of fresh tiles' squares only |
| Scoring.PlainTally | src/game.c:164-194 | with no bonuses and no cross words under fresh tiles the tally is the face value of the word with multiplier 1 |
| Scoring.PlainStep | src/game.c:164-193 | one tile without bonus or cross word adds its face value and counts it when fresh |
| Scoring.PlainScore | src/game.c:196-201 | with no bonuses and no cross words the score is the face value plus 50 when all 7 tiles are fresh |
| Scoring.FreshCount | src/game.c:171 | the number of fresh tiles among the first n is at most n |
| Scoring.TallyFresh | src/game.c:171 | tiles_played counts exactly the tiles that are not played-through markers |
| Scoring.Int16Shift | src/game.c:149-150 | adding a multiple of 2^16 does not change an int16 value |
| Scoring.Int16Scale | src/game.c:196 | wrapping the main word score before multiplying and adding gives the same int16 total as wrapping once |
| Scoring.Int16Add | src/game.c:168 | wrapping after every addition equals wrapping the final sum (also line 176, line 191) |
| Scoring.ScoreTile | src/game.c:162-193 | one loop step keeps the int16 accumulators equal to the wrapped tally with that tile added |
| Scoring.ScoreMove | src/game.c:148-204 | score_move is the int16 of (main word × product of word multipliers + cross words, + 50 when 7 tiles are fresh), with bonuses only under fresh tiles and each cross score read from the view of the move's direction |
| Scoring.ReadSquare | src/game.c:158-185 | the square index and cross score read for tile i are those of the move's square in the move's direction |
| Scoring.WrappedTotal | src/game.c:196-203 | the int16 accumulators give the int16 of the exact total |
| Scoring.CounterLineScores | src/board.c:221-235 | on the example board (T at row 5, column 1) the only cross word on column 0 is at (5, 0), with score 1 (also lines 261-275) |
| Scoring.CounterMoveScore | src/game.c:148-204 | the two-tile vertical move U, T down column 0 from (5, 0) scores 2 plus each tile's cross word |
| Scoring.CounterTables | src/board.c:233-235 | the vertical table stores the score 1 of (5, 0) at the transposed index (0, 5), and -1 at (5, 0) and (6, 0) (also lines 273-275) |
| Scoring.VerticalCrossMisread | src/game.c:184 | on that board the move scores 2 as written and 4 with the cross score read at the transposed index |
| Turns.ExpandLetters | src/game.c:268-270 | a rack spelled out tile by tile holds only letters, which can all be scored |
| Turns.ScoreSumAppend | src/game.c:268-270 | the face value of two tile sequences together is the sum of their face values |
| Turns.ScoreSumRepeat | src/game.c:269 | k copies of a letter are worth k times its TILE_SCORES entry |
| Turns.RackValue | src/game.c:267-270 | the loop's sum of count × TILE_SCORES over the 27 letters is the face value of the rack's tiles (also lines 293-296) |
| Turns.RackValueStep | src/game.c:268-270 | one more letter of the loop adds its count times its score |
| Turns.RackLetter | src/game.c:239 | the rack slot of a move tile is the blank for a blanked tile and the tile itself otherwise, always a letter |
| Turns.Used | src/game.c:236-239 | the rack letters a move uses, skipping played-through markers |
| Turns.UsedLetters | src/game.c:313-314 | a sequence of plain letters is a move's tile list that uses exactly those letters |
| Turns.Take | src/game.c:236-244 | the removal loop's result leaves a full count table |
| Turns.TakeMeaning | src/game.c:236-244 | the removal loop succeeds exactly when the rack holds every used letter with multiplicity; on success the new counts plus the used letters give the old counts; counts never grow |
| Turns.TakeStep | src/game.c:236-244 | one more tile of the loop keeps the three facts of TakeMeaning |
| Turns.TakeLetter | src/game.c:240-242 | removing letter l succeeds exactly when the rack still holds all used letters plus l |
| Turns.NoRollbackOnPlay | src/game.c:240-242 | with one A and no B on the rack, playing A then B fails with the A already removed |
| Turns.TakeTiles | src/game.c:236-244 | the rack's counts become Take of the old counts and the move's tiles; success is Take's; the rack stays consistent |
| Turns.TakeStops | src/game.c:241 | once a removal fails the loop returns, so later tiles are not removed |
| Turns.PutBack | src/game.c:316-318 | the rollback loop adds the removed tiles back, restoring the counts and the total |
| Turns.SwapTiles | src/game.c:312-327 | the exchange succeeds exactly when the rack holds all the tiles; on failure the rack and the bag are unchanged; on success the rack holds 7 tiles, the bag shrinks by 7 minus the old rack size, and each letter's rack-plus-bag total is conserved |
| Turns.TakeAll | src/game.c:312-321 | removes the tiles when the rack holds all of them, and otherwise rolls back to the old counts and total |
| Turns.MissingTile | src/game.c:314 | a tile whose copies are all taken by the earlier tiles is missing, so the rack does not hold the whole list |
| Turns.Restock | src/game.c:323-327 | draw to 7 tiles, then return the exchanged ones; each letter's rack-plus-bag total is conserved |
| Turns.EndScore | src/game.c:262-272 | on going out the mover gains twice the opponent's rack value, as int16; an int16 score stays int16 |
| Turns.GameState.constructor | src/game.c:221-223 | a new game state is valid with player 0 to move, no passes, not over |
| Turns.GameState.Init | src/game.c:209-224 | game_init leaves an empty board, both players at 0 with 7 tiles, 86 tiles in the bag, the racks and bag together holding TILE_COUNTS of each letter, player 0 to move, no passes |
| Turns.GameState.Start | src/game.c:210-219 | the board, bag and racks of game_init |
| Turns.GameState.Setup | src/game.c:210-212 | an empty board and a full shuffled bag with the standard distribution |
| Turns.GameState.ClearBoard | src/game.c:210 | board_init on the game's board: every square empty |
| Turns.GameState.FillBag | src/game.c:211-212 | bag_init then bag_shuffle: 100 tiles with TILE_COUNTS of each letter |
| Turns.GameState.Deal | src/game.c:214-219 | player p gets score 0 and 7 tiles from the bag, conserving each letter |
| Turns.GameState.PlayMove | src/game.c:230-275 | fails with nothing changed once the game is over; otherwise succeeds exactly when the rack holds the move's tiles, and a failed play leaves the earlier tiles removed and nothing else changed; a success places the tiles, adds the move's score as int16, refills the rack from its post-removal size k to k + Drawn(k, bag count) tiles (to 7 or until the bag is empty) with the bag losing as many, each letter's rack-plus-bag total conserved, resets the passes, switches player, ends the game exactly when the mover's rack and the bag are empty, and then adds twice the opponent's rack value |
| Turns.GameState.PlayTiles | src/game.c:233-275 | game_play_move past the game-over test, with the same outcome, including the refill to k + Drawn(k, bag count) tiles from the post-removal size k |
| Turns.GameState.Commit | src/game.c:245-272 | after the tiles leave the rack: the board gets the move, the rack grows from its size k to k + Drawn(k, bag count) tiles and the bag shrinks by as many, each letter's rack-plus-bag total is conserved, passes reset, the other player moves, the game ends exactly when the mover's rack and the bag are empty, and the mover's score is the int16 sum with the going-out bonus |
| Turns.GameState.Remove | src/game.c:236-244 | the mover's rack becomes Take of the move's tiles |
| Turns.GameState.Place | src/game.c:247-250 | the board gets the move and the mover's score goes up by the move's score as int16 |
| Turns.GameState.Refill | src/game.c:253-259 | the mover's rack gains Drawn(total, bag count) tiles, up to 7 or until the bag is empty, and the bag loses as many, conserving each letter; passes reset; the other player moves |
| Turns.GameState.GoOut | src/game.c:262-272 | the game ends exactly when the mover's rack and the bag are empty, and then the mover gains twice the opponent's rack value |
| Turns.GameState.Pass | src/game.c:280-300 | nothing changes once the game is over; otherwise the uint8 pass count goes up, the other player moves, and the game ends at 6 passes with each rack's value subtracted from its owner's score as int16 |
| Turns.GameState.DeductRacks | src/game.c:290-298 | each player's score loses that player's rack value, as int16 |
| Turns.GameState.Exchange | src/game.c:306-334 | succeeds exactly when the game is not over, the bag holds at least 7 tiles and the rack holds the tiles; on failure nothing changes; on success the rack has 7 tiles, each letter's rack-plus-bag total is conserved, the pass count goes up and the other player moves |
| Turns.GameState.IsOver | src/game.c:336-338 | true exactly when the game-over flag is set |
| KwgNode.ArcIndex | inc/kwg.h:29 | the arc index is at most the 22-bit mask (also line 35) |
| KwgNode.NodeFields | inc/kwg.h:26-35 | a node is its tile in bits 31-24, the accepts flag at bit 23, the is-end flag at bit 22 and the arc index in bits 21-0, nothing else |
| KwgNode.DawgRoot | inc/kwg.h:69-71 | the DAWG root is node 0's arc index, inside the lexicon |
| KwgNode.GaddagRoot | inc/kwg.h:74-76 | the GADDAG root is node 1's arc index, inside the lexicon |
| KwgNode.RunEnd | inc/kwg.h:90-93 | the sibling scan from i stops at the first is-end node at or after i, inside the lexicon |
| KwgNode.RunEndIsFirst | inc/kwg.h:90-93 | no node before the end of the run is an is-end node |
| KwgNode.Find | inc/kwg.h:85-94 | a found node lies in the sibling run and carries the letter |
| KwgNode.FindMeaning | inc/kwg.h:85-94 | the found node is the first in the run with that tile, and nothing is found exactly when no node of the run has it |
| KwgNode.ArcFor | inc/kwg.h:82-95 | a non-zero result comes from a found node and lies inside a well-formed lexicon |
| KwgNode.FollowArc | inc/kwg.h:82-95 | kwg_follow_arc returns the arc of the first node of the run with the letter, and 0 when the run has none |
| KwgNode.LetterAccepts | inc/kwg.h:100-113 | kwg_letter_accepts returns the accepts flag of that same node, and false when the run has none |
| KwgNode.ScanRun | inc/kwg.h:85-94 | the scanning loop finds a node exactly when Find does, and the same one |
| KwgNode.ExtSetMeaning | inc/kwg.h:124-139 | a letter is in the extension set exactly when it is non-zero and some node of the run carries it |
| KwgNode.LetterSetMeaning | inc/kwg.h:124-139 | a letter is in the letter set exactly when it is non-zero and some node of the run carries it with the accepts flag |
| KwgNode.LetterSetWithinExtSet | inc/kwg.h:119-143 | the letter set is a subset of the extension set, which never holds the separator 0 and fits 32 bits |
| KwgNode.GetLetterSets | inc/kwg.h:119-143 | kwg_get_letter_sets returns the letter set and the extension set of the sibling run |
| Kwg.Unblank | src/kwg.c:17 | each letter of the word with its blank bit cleared (also line 185) |
| Kwg.Reverse | src/kwg.c:101 | the letters in reverse order |
| Kwg.Walk | src/kwg.c:14-40 | following a word arc by arc from a node ends inside the lexicon, at a non-zero node after a non-empty word |
| Kwg.WalkAppend | src/kwg.c:16-40 | walking a + b is walking a, then b from where a ends |
| Kwg.WordAfterWalk | src/kwg.c:183-204 | p + rest is accepted from a node exactly when rest is accepted from the node p leads to |
| Kwg.IsValidWordScan | src/kwg.c:11-43 | kwg_is_valid_word is false for fewer than 2 letters, and otherwise true exactly when the unblanked letters walk from the DAWG root and the last one accepts |
| Kwg.SuffixAccepts | src/kwg.c:180-204 | the suffix loop accepts exactly when the unblanked suffix is a word continuation from the letter's arc |
| Kwg.AccumulateScore | src/kwg.c:137-147 | the int8_t cross score is the wrapped sum of the start and the face values of the tiles |
| Kwg.FollowArcs | src/kwg.c:153-159 | following the unblanked prefix succeeds exactly when the walk does, and ends at its node |
| Kwg.ComputeCrossSet | src/kwg.c:122-212 | compute_cross_set returns CrossSetOf(prefix, suffix) — trivial with no tiles, 0 for a prefix not in the DAWG, otherwise the letters of the prefix node's run that complete the suffix — and the cross score CrossScoreOf, -1 with no tiles and the face-value sum otherwise |
| Kwg.ScanCrossRun | src/kwg.c:165-209 | the run loop collects exactly the letters of the run that contribute |
| Kwg.CrossSetFromMeaning | src/kwg.c:165-209 | a letter is in the run's cross set exactly when a node of the run carries it and contributes |
| Kwg.CrossSetFromBits | src/kwg.c:169 | the separator 0 is never in the run's set, which fits 32 bits |
| Kwg.CrossSetBits | src/kwg.c:122-212 | bit 0 is never in a cross set, which fits 32 bits |
| Kwg.ValidWordSplit | src/kwg.c:11-43 | prefix + l + suffix is a valid word exactly when the prefix walks from the DAWG root and l's first node there carries the suffix to an accepting end (also lines 150-209) |
| Kwg.CrossSetComplete | src/kwg.c:122-212 | every letter 1..127 that makes prefix + l + suffix a valid word is in the cross set |
| Kwg.CrossSetSound | src/kwg.c:122-212 | in a lexicon with distinct sibling tiles every letter of the cross set makes prefix + l + suffix a valid word |
| Kwg.OnlyMatch | inc/kwg.h:82-95 | with distinct sibling tiles the node carrying the letter is the one the scan finds |
| Kwg.ComputeExtensionSets | src/kwg.c:62-120 | compute_extension_sets returns LeftExtOf of the right tiles (trivial when there are none, 0 when the GADDAG path or the separator fails) and RightExtOf of the left tiles (trivial when none, 0 when the DAWG path fails) |
| Kwg.RightExtMeaning | src/kwg.c:72-87 | with left tiles, l is a back hook exactly when l is non-zero, the left tiles walk from the DAWG root, and the run there has l |
| Kwg.LeftExtMeaning | src/kwg.c:96-119 | with right tiles, l is a front hook exactly when l is non-zero, the reversed right tiles and the separator walk from the GADDAG root, and the run there has l |
| Kwg.CrossSetWithinRightExt | src/kwg.c:72-87 | with an empty suffix the cross set is within the back hooks of the prefix (also lines 173-177) |
| Kwg.CrossSetIsLetterSet | src/kwg.c:173-177 | with an empty suffix bit L is set exactly when L's arc from the prefix node accepts, which is the run's letter set |
| Klv.ReadLe32 | src/klv.c:70-72 | read_le32 yields a 32-bit unsigned value |
| Klv.Le32 | src/klv.c:70-72 | the four little-endian bytes of a 32-bit value |
| Klv.Le32RoundTrip | src/klv.c:70-72 | read_le32 of the little-endian bytes of x is x |
| Klv.ReadLe32Bytes | src/klv.c:70-72 | the bytes read are the little-endian bytes of the value read, so read_le32 is injective |
| Klv.ReadLe16 | src/klv.c:75-77 | read_le16 yields an int16 value |
| Klv.Le16 | src/klv.c:75-77 | the two little-endian bytes of an int16 value in two's complement |
| Klv.Le16RoundTrip | src/klv.c:75-77 | read_le16 of the little-endian bytes of an int16 v is v |
| Klv.ReadLe16Bytes | src/klv.c:75-77 | the bytes read are the little-endian bytes of the value read |
| Klv.IndexedLeave | inc/klv.h:83-90 | klv_get_indexed_leave is 0 for the unfound index and otherwise the little-endian int16 at byte offset 2 × index |
| Klv.IndexedLeaveStored | inc/klv.h:83-90 | a value stored little-endian at entry i is what entry i reads back |
| Klv.NodeBytesAt | src/klv.c:94-97 | node i of an image sits at bytes 4i..4i+3 of the node block, little-endian |
| Klv.ImageFields | src/klv.c:86-107 | an image of kwg_size, the nodes, num_leaves and the leave bytes reads back, in that order, as those fields |
| Klv.ImageNode | src/klv.c:94-97 | node i of an image reads back at byte offset 4 + 4i |
| Klv.PassStep | src/klv.c:40-65 | one node of a pass gets the count of the equation over the counts the pass has written above it |
| Klv.FixpointRunDecreasing | src/klv.c:149 | at the fixpoint the counts never grow along a sibling run, so the skip in increment_to_letter is never negative |
| Klv.IndexStep | src/klv.c:193-219 | what increment_to_letter returns for the first letter decides the whole walk: unfound, the index after the last letter, or the walk on from the arc with the next index |
| Klv.LeaveValueZero | src/klv.c:173-176 | an empty rack has the unfound index, and an empty rack or an unfound index has leave value 0 (also lines 228-235) |
| Klv.LeaveValueByTiles | src/klv.c:181-212 | two racks with the same tiles have the same word index and leave value, because letters are walked in ascending order |
| Klv.SumToBelow | src/klv.c:247 | a sub-rack has no more tiles than the rack |
| Klv.IndexFromNonNegative | src/klv.c:149 | at the fixpoint a walk from a non-negative index never yields a negative index (also line 164) |
| Klv.Klv.constructor | src/klv.c:86 | an empty lexicon over the given buffers |
| Klv.Klv.Init | src/klv.c:86-111 | klv_init reads kwg_size, then kwg_size little-endian nodes into the buffer, then num_leaves; the leaves are the bytes after that; the word counts solve the word-count equation when the passes settle |
| Klv.Klv.ComputeWordCounts | src/klv.c:28-67 | when the passes settle, every count is accepts + child count (arc non-zero and inside) + next sibling's count (not is-end and inside) |
| Klv.Klv.ZeroCounts | src/klv.c:33 | the memset zeroes the first kwg_size counts and nothing else |
| Klv.Klv.Pass | src/klv.c:37-65 | one pass from the last node down sets every count from the counts above it as they now are and below it as they were, and reports a change exactly when a count moved; a pass that moves nothing leaves a fixpoint |
| Klv.Klv.IncrementToLetter | src/klv.c:125-152 | node 0 or a letter missing from the run gives 0 and the unfound index; otherwise the first node of the run with the letter and the index advanced by the counts of the siblings skipped |
| Klv.Klv.FollowArc | src/klv.c:157-167 | node 0 gives 0 and the unfound index; otherwise the node's arc and the index plus one |
| Klv.Klv.GetWordIndex | src/klv.c:173-223 | klv_get_word_index is WordIndexOf of the rack's counts: unfound for an empty rack, otherwise the walk of its letters in ascending order from the DAWG root |
| Klv.Klv.Visit | src/klv.c:195-200 | one increment_to_letter of the walk, and what the rest of the walk then comes to |
| Klv.Klv.UseLetter | src/klv.c:202-212 | using one tile of a letter moves to the next letter with tiles once its count runs out |
| Klv.Klv.NextLetter | src/klv.c:206-212 | the inner loop finds the next letter with a tile on the rack, or passes the alphabet when none is left |
| Klv.Klv.GetLeaveValue | src/klv.c:228-235 | klv_get_leave_value is 0 for an empty rack and otherwise the indexed leave of the rack's word index |
| LeaveMaps.Cleared | inc/klv.h:104-109 | clearing bit b of a uint8 index: the bit is dropped when it is one of the eight and set, otherwise the index is unchanged |
| LeaveMaps.Raised | inc/klv.h:114-119 | setting bit b of a uint8 index: the bit is added when it is one of the eight and clear, otherwise the index is unchanged |
| LeaveMaps.ClearedBits | inc/klv.h:104-109 | after the clear, bit p is set exactly when it was set and is not b |
| LeaveMaps.RaisedBits | inc/klv.h:114-119 | after the set, bit p is set exactly when it was set or is b |
| LeaveMaps.TakeAddRoundTrip | inc/klv.h:104-119 | take then add is add, add then take is take, and take then add restores the index exactly when the bit was set |
| LeaveMaps.FirstTakeKeepsWholeRack | src/klv.c:311 | clearing any bit of index 0 leaves 0, the full rack's entry (also inc/klv.h:104-109) |
| LeaveMaps.Slot | src/klv.c:285-291 | a letter's block of reversed_bit_map starts after the tiles of the letters below it and lies within the rack |
| LeaveMaps.BitOf | src/klv.c:261-264 | the bit of the copy of a letter that leaves count k is inside the letter's block (also lines 289-290) |
| LeaveMaps.BitOfInjective | src/klv.c:285-294 | different tiles of a rack have different bits |
| LeaveMaps.LayoutStep | src/klv.c:284-294 | laying out one more letter's base and reversed bits extends the layout of the letters below it |
| LeaveMaps.IndexTake | src/klv.c:255-264 | taking a copy of a letter off a leave adds exactly that copy's reversed bit to the leave's index |
| LeaveMaps.IndexBits | src/klv.c:253-267 | the index of a leave has the bit of a tile of the rack set exactly when the leave no longer holds that tile, and is below 2 to the rack size |
| LeaveMaps.IndexInjective | src/klv.c:244 | two leaves of a rack with the same index are the same leave, so no entry is shared |
| LeaveMaps.IndexInMap | src/klv.c:244 | the index of every leave of a rack of at most seven tiles is below LEAVE_MAP_SIZE (128) |
| LeaveMaps.VisitsBelow | src/klv.c:253-273 | the recursion from a leave and a start letter writes only sub-leaves that keep the counts of the letters below start |
| LeaveMaps.VisitsComplete | src/klv.c:253-273 | it writes every such sub-leave |
| LeaveMaps.StoredAt | src/klv.c:244 | once a leave is written, its entry holds its value whatever else is written |
| LeaveMaps.BestFacts | src/klv.c:247-250 | best_leaves only rises, each written leave leaves its size's entry at least its value, and each entry is its start value or the value of a written leave of that size |
| LeaveMaps.TableFilled | src/klv.c:311-312 | populating from the whole rack with start 0 writes the leave value of every sub-rack at its index |
| LeaveMaps.BestFilled | src/klv.c:311-312 | and leaves each best_leaves entry at the larger of its start value and the best value of a sub-rack of that size |
| LeaveMaps.CopyOf | src/klv.c:307-308 | memcpy of the rack: a fresh rack with the same counts and total |
| LeaveMaps.LeaveMap.constructor | inc/klv.h:49-57 | a LeaveMap with 128 leave values, 32 letter bases, 7 reversed bits and 8 best leaves |
| LeaveMaps.LeaveMap.BitIndex | inc/klv.h:106-107 | base plus count, as a uint8 (also lines 116-117) |
| LeaveMaps.LeaveMap.TakeLetter | inc/klv.h:104-109 | leave_map_take_letter clears the tile's bit of current_index and changes nothing else |
| LeaveMaps.LeaveMap.AddLetter | inc/klv.h:114-119 | leave_map_add_letter sets the tile's bit of current_index and changes nothing else |
| LeaveMaps.LeaveMap.GetCurrent | inc/klv.h:124-126 | leave_map_get_current is the leave value at current_index |
| LeaveMaps.LeaveMap.Init | src/klv.c:280-316 | leave_map_init lays out the bit maps for the rack, sets rack_size, leaves current_index at 0 with the full rack's value there, stores the leave value of every sub-rack at its index, and makes best_leaves[s] the larger of -32767 and the best value of a size-s sub-rack (TableFor, BestFor) |
| LeaveMaps.LeaveMap.Fill | src/klv.c:307-312 | copying the rack, index 0 and populate from letter 0 fill the tables as TableFor and BestFor state, from best_leaves all -32767 |
| LeaveMaps.LeaveMap.FilledTable | src/klv.c:244 | the written leaves of the whole rack put every sub-rack's value at its index, the full rack's at 0 |
| LeaveMaps.LeaveMap.FilledBest | src/klv.c:247-250 | from -32767, best_leaves[s] is at least every size-s sub-rack's value and equal to -32767 or one of them |
| LeaveMaps.LeaveMap.FirstTakeAsWritten | src/klv.c:311 | after leave_map_init, the first tile played clears a bit of index 0 and the current value is still the full rack's leave (also inc/klv.h:104-109) |
| LeaveMaps.LeaveMap.Prepare | src/klv.c:280-303 | the layout loop, rack_size, current_index = (1 << total) - 1 and best_leaves all -32767 |
| LeaveMaps.LeaveMap.ResetBest | src/klv.c:301-303 | every best_leaves entry 0..7 is -32767 |
| LeaveMaps.LeaveMap.BuildMaps | src/klv.c:284-297 | letter_base_index and reversed_bit_map as the layout of the rack: each letter's base is where its block starts (0 for absent letters) and each slot holds its reversed bit |
| LeaveMaps.LeaveMap.PlaceLetter | src/klv.c:285-296 | one letter's base and block are laid out after those below it |
| LeaveMaps.LeaveMap.FillBlock | src/klv.c:289-292 | slot base + j of reversed_bit_map holds 1 << (base + count - j - 1), and the slots below base are untouched |
| LeaveMaps.LeaveMap.Populate | src/klv.c:240-275 | populate_leave_values leaves leave_values and best_leaves exactly as if the sub-leaves of the current leave keeping the counts below start_ml were written in the recursion's order, and restores the leave and the index |
| LeaveMaps.LeaveMap.StoreCurrent | src/klv.c:242-250 | the current leave's value goes to its index and best_leaves of its size rises to it |
| LeaveMaps.LeaveMap.NextLetter | src/klv.c:253-274 | one round of the letter loop writes the leaves reached through that letter after those written before |
| LeaveMaps.LeaveMap.TryLetter | src/klv.c:254-273 | one branch writes exactly the leaves reached after taking one copy of the letter, and restores rack and index |
| LeaveMaps.LeaveMap.Descend | src/klv.c:267-272 | the recursive call writes the leaves of the smaller leave, then the tile is back and the bit is cleared |
| LeaveMaps.LeaveMap.TakeTile | src/klv.c:255-264 | the tile is taken from the leave and its clear bit is set in current_index, which is then the index of the smaller leave |
| LeaveMaps.LeaveMap.DropTile | src/klv.c:255-257 | counts[ml] and total go down by one |
| LeaveMaps.LeaveMap.RestoreTile | src/klv.c:270-272 | the bit is cleared again and counts[ml] and total are restored |
| MovegenScores.GetTileScore | src/movegen.c:289-317 | get_tile_score is 0 for a blank and a blanked letter and otherwise eight times the letter's face value, at most 80 (also lines 334-337) |
| MovegenScores.MultSmallIsProduct | src/movegen.c:276-282 | MULT_SMALL is v × m for the multipliers 1, 2 and 3 |
| MovegenScores.RackGetScore | src/movegen.c:345-351 | rack_get_score is the sum of count × tile score over the alphabet, eight times the rack's face value |
| MovegenScores.EighthsStep | src/movegen.c:348 | adding count × tile score keeps the running sum at eight times the face value so far |
| MovegenScores.StandardEndgameAdjustment | src/movegen.c:386-396 | a player who keeps tiles loses at least the constant penalty; one who goes out, or has no leave, gains a non-negative amount, and nothing with no opponent rack |
| MovegenScores.EndgameInPoints | src/movegen.c:376-383 | the outplay adjustment is twice the opponent's tile value and the non-outplay one is minus twice the player's tile value minus 10 points, in eighths |
| MovegenBest.LexIrreflexive | src/movegen.c:1400-1414 | no tile string is lexicographically before itself |
| MovegenBest.LexTransitive | src/movegen.c:1400-1414 | the lexicographic order on tile strings is transitive |
| MovegenBest.LexTotal | src/movegen.c:1400-1414 | two different tile strings are ordered one way or the other |
| MovegenBest.LexCons | src/movegen.c:1407-1411 | comparing at the first tile and then at the rest is the lexicographic order |
| MovegenBest.BetterByField | src/movegen.c:1349-1415 | the tie-breaking order is higher equity, then higher score, lower row, lower column, horizontal, fewer tiles played, shorter, lexicographically lower tiles |
| MovegenBest.BetterIsStrictOrder | src/movegen.c:1361-1415 | the tie-breaking order is irreflexive, asymmetric and transitive |
| MovegenBest.BetterIsTotal | src/movegen.c:1361-1415 | of two moves that differ in any compared field, one is better |
| MovegenBest.IsBetterMove | src/movegen.c:1361-1415 | with no best yet (EQUITY_INITIAL_VALUE) the new move wins; otherwise it wins exactly when it comes first in the tie-breaking order |
| MovegenBest.FindBestScore | src/movegen.c:2252-2261 | the first position among the first count moves with the highest score |
| MovegenBest.SortMovesByScore | src/movegen.c:2248-2268 | with at most one move nothing changes; otherwise the first highest-scoring move is swapped with position 0 |
| MovegenBest.SwapBestFirst | src/movegen.c:2263-2267 | after the swap position 0 holds a highest score, the moves are a permutation and the others stay where they were |
| MovegenBest.SwappedSame | src/movegen.c:2263-2267 | the swap is a permutation |
| MovegenBest.PickedCount | src/movegen.c:1916-1927 | no more copies of a letter are exchanged than the rack holds |
| MovegenBest.ExchangeLeave | src/movegen.c:1916-1927 | the leave of a mask has a count per letter |
| MovegenBest.ExchangedToCount | src/movegen.c:1916-1927 | the exchanged tiles hold each letter as many times as the mask picked copies of it |
| MovegenBest.ExchangeSplitsRack | src/movegen.c:1916-1927 | leave and exchanged tiles together are the rack, letter by letter |
| MovegenBest.NothingAfter | src/movegen.c:1917 | the scan may stop once bit_pos reaches the rack size: the letters after it have no tiles |
| MovegenBest.SplitByMask | src/movegen.c:1911-1928 | the loop over letters and copies yields the mask's leave and its exchanged tiles in ascending letter order |
| MovegenBest.ExchangedRest | src/movegen.c:1917 | stopping the scan early yields the same exchanged tiles |
| MovegenBest.GenerateExchangeMoves | src/movegen.c:1888-1953 | with no bag, fewer than 7 tiles in it or no KLV nothing changes; otherwise the stored equity is the highest leave value over masks 1 .. 2^n - 1 and the stored exchange is the first mask reaching it |
| MovegenBest.TryMask | src/movegen.c:1930-1951 | one mask keeps the best-so-far invariant one mask further |
| MovegenBest.ExchangeKeeps | src/movegen.c:1933 | a mask whose leave is not higher keeps the best |
| MovegenBest.ExchangeImproves | src/movegen.c:1933-1950 | a mask whose leave is higher becomes the best, recorded as an exchange of its tiles |
| MovegenBest.ExchangedSize | src/movegen.c:1912-1925 | an exchange has no more tiles than the rack |
| MovegenBest.ExchangedToSize | src/movegen.c:1912-1925 | the tiles exchanged from the letters below n are no more than the rack holds of them |
| ShadowLists.InsertPosFacts | src/movegen.c:520-524 | the insertion point has every entry before it at least the key and every entry from it to n below the key |
| ShadowLists.InsertedAt | src/movegen.c:520-527 | after the shifting insertion the key is at the insertion point, entries before it stay, entries up to n move up one place and the rest stay |
| ShadowLists.IsInserted | src/movegen.c:520-527 | a list agreeing with that description is the inserted list |
| ShadowLists.InsertedPerm | src/movegen.c:520-527 | the first n + 1 entries are the first n plus the key, and the entries past n + 1 stay |
| ShadowLists.InsertedSorted | src/movegen.c:520-527 | inserting at the insertion point keeps a descending list descending |
| ShadowLists.InsertSorted | src/movegen.c:518-539 | sorted insertion into a descending list of n entries gives a descending list of n + 1 entries holding the old ones and the key, with the rest untouched |
| ShadowLists.TileScoresOf | src/movegen.c:454 | the tile score of each tile, in order |
| ShadowLists.FirstTiles | src/movegen.c:452-456 | the rack's letters in ascending order, cut at RACK_SIZE |
| ShadowLists.FirstTilesAll | src/movegen.c:452-456 | a rack of at most seven tiles is collected whole |
| ShadowLists.LastIndex | src/movegen.c:505-506 | the rightmost slot below the limit holding the score, or none when no slot does |
| ShadowLists.DroppedAt | src/movegen.c:508-511 | the slots before the match stay, the later ones up to count move down one place, slot count becomes 0 and the rest stay |
| ShadowLists.DroppedPerm | src/movegen.c:508-511 | the first count entries after the drop are the first count + 1 without the dropped score |
| ShadowLists.DroppedSorted | src/movegen.c:508-511 | dropping an entry keeps the list descending |
| ShadowLists.RemoveScoreRemovesOne | src/movegen.c:503-515 | searching all count + 1 scores the list holds removes exactly one copy of a score it holds and keeps it descending |
| ShadowLists.RemoveMissesLastSlot | src/movegen.c:503-515 | with total decremented before the call, a score held only in the last slot is not removed: [80, 8] with count 1 and score 8 is left unchanged (also lines 611-621) |
| ShadowLists.MultipliersInserted | src/movegen.c:518-528 | the multipliers of the inserted cross-word list are the multiplier list with the new multiplier inserted |
| ShadowLists.EffsOfAppend | src/movegen.c:551-557 | the effective multipliers of a concatenation are those of the parts |
| ShadowLists.EffsOfInserted | src/movegen.c:564-581 | inserting a square adds its effective multiplier to the multiset of effective multipliers |
| ShadowLists.EffsOfSplit | src/movegen.c:564-581 | a square in the middle contributes its effective multiplier once |
| ShadowLists.OnRowSplit | src/movegen.c:551-552 | the columns of both parts of a list on the row are on the row |
| ShadowLists.EffsOfSnoc | src/movegen.c:551-557 | the recalculation loop's effective multipliers grow one square at a time |
| ShadowLists.EffsPrefixStep | src/movegen.c:551-557 | one iteration of the recalculation loop keeps the first i effective multipliers those of the first i squares, sorted |
| ShadowLists.ListsOfInsert | src/movegen.c:564-581 | inserting a square into both lists keeps the cross-word list descending and the effective list the sorted effective multipliers of its squares |
| ShadowLists.CrossWordMultOf | src/movegen.c:568-574 | a square's cross-word multiplier is 0 when no cross word forms there and between 1 and 9 otherwise |
| ShadowLists.ShadowState.constructor | src/movegen.c:564-581 | empty unrestricted lists, and both word multipliers 1 |
| ShadowLists.ShadowState.BuildDescendingTileScores | src/movegen.c:448-474 | build_descending_tile_scores: the tile scores of the rack's first seven tiles in descending order, a permutation of them, then zeros |
| ShadowLists.ShadowState.CopyPadded | src/movegen.c:470-473 | the sorted scores then zeros up to RACK_SIZE |
| ShadowLists.ShadowState.RemoveScoreFromDescending | src/movegen.c:503-515 | remove_score_from_descending as written: the rightmost match among the first rack.total slots is dropped, later ones move down and slot total becomes 0 |
| ShadowLists.ShadowState.InsertCrossWordMult | src/movegen.c:518-528 | insert_unrestricted_cross_word_mult inserts multiplier and column at the first place whose predecessor is not smaller |
| ShadowLists.ShadowState.InsertEffLetterMult | src/movegen.c:530-539 | insert_unrestricted_eff_letter_mult inserts at the first place whose predecessor is not smaller |
| ShadowLists.ShadowState.RecalcEffectiveMultipliers | src/movegen.c:543-560 | maybe_recalc_effective_multipliers leaves the lists consistent with the current word multiplier, keeps their length and changes nothing when the multiplier has not changed |
| ShadowLists.ShadowState.InsertUnrestrictedMultipliers | src/movegen.c:564-581 | insert_unrestricted_multipliers adds the square's cross-word multiplier and column to the list, one more square, with both lists consistent |
| ShadowLists.ShadowState.InsertSquare | src/movegen.c:566-580 | the insertions of one square once the effective multipliers are current |
| ShadowLists.SortedScoresFrom | src/movegen.c:448-474 | collected, sorted and zero-padded scores make the descending score list |
| ShadowLists.CollectTileScores | src/movegen.c:452-457 | the collection loop yields the scores of the rack's first seven tiles, as many as the rack has up to seven |
| ShadowLists.ScoresOfPrefixStep | src/movegen.c:454-456 | one more collected tile extends the collected scores by its score |
| ShadowLists.ScoresOfPrefixFirst | src/movegen.c:452-457 | the loop's collected scores are the scores of the rack's first tiles |
| ShadowLists.SortDescending | src/movegen.c:459-468 | the insertion sort leaves the first n scores descending and a permutation of themselves, the rest untouched |
| ShadowLists.PlaceKey | src/movegen.c:460-467 | one pass places the key so the first i + 1 entries are descending, a permutation of the array |
| ShadowLists.PlacedKey | src/movegen.c:460-467 | the shifted list with the key written at the stop point is descending up to i and a permutation |
| MovegenGen.EmptyBoardAnchors | src/movegen.c:1846-1866 | on an empty board the only anchor is the centre, and only while no tile has been played |
| MovegenGen.GoStepIsTally | src/movegen.c:1542-1565 | go_on's update of the sums for one square is score_move's tally step in eighths: a fresh tile on an empty square, or a tile played through |
| MovegenGen.RecordedScoreInEighths | src/movegen.c:1425-1438 | record_move's score from the sums is eight times score_move's main word × word multiplier + cross words + 50 for a bingo |
| MovegenGen.RecordedScore | src/movegen.c:1425-1438 | with non-negative sums and a word multiplier of at least 1 the recorded score is at least the main word plus the cross words, and a seven-tile play adds exactly the 50-point bingo in eighths |
| MovegenGen.PlacementSplit | src/movegen.c:355-373 | placement_adjustment of a word is the sum over any split of its tiles |
| MovegenGen.PlacementWithoutVowels | src/movegen.c:355-373 | a word without vowels costs nothing on the opening move |
| MovegenGen.RecordReplaces | src/movegen.c:1480-1512 | a move that is the first or is preferred becomes the best, which then beats or ties every move recorded |
| MovegenGen.RecordKeeps | src/movegen.c:1483-1494 | a move that is not preferred leaves the best, which still beats or ties every move recorded |
| MovegenGen.RecordStep | src/movegen.c:1480-1512 | whichever way the comparison goes the best stays maximal among the recorded moves, and a new best carries the move's key |
| MovegenGen.MoveGen.constructor | src/movegen.c:1993-2212 | a generator over the given lexicon, KLV, racks, bag count and board counts, with no best move (EQUITY_INITIAL_VALUE) and nothing recorded |
| MovegenGen.MoveGen.CacheRow | src/movegen.c:1778-1872 | cache_row sets the row and direction and copies the line's letters, cross sets, cross scores, extension sets and bonuses from the board, with each anchor flag the anchor test of its square (the centre counts while the board's tiles_played field is 0), changing nothing else |
| MovegenGen.MoveGen.FillRow | src/movegen.c:1807-1813 | the line's letters and square sets copied from the board |
| MovegenGen.MoveGen.CopyRow | src/movegen.c:1807-1813 | the line's letters and square sets copied from the board |
| MovegenGen.MoveGen.CopyLetters | src/movegen.c:1807-1810 | square c of the line holds the letter at board square (row, c) or, vertically, (c, row) |
| MovegenGen.MoveGen.CopySquares | src/movegen.c:1807-1813 | the line's cross sets, cross scores and extension sets are those of its squares |
| MovegenGen.MoveGen.MarkAnchors | src/movegen.c:1834-1870 | the line's bonuses are those of its board squares and each anchor flag is the anchor test of its square |
| MovegenGen.MoveGen.CopyBonuses | src/movegen.c:1834-1848 | the bonus of square c is the bonus of the board square it stands for |
| MovegenGen.MoveGen.FlagAnchors | src/movegen.c:1834-1870 | each anchor flag is the anchor test of its board square, read against the board's tiles_played field |
| MovegenGen.MoveGen.AnchorAt | src/movegen.c:1851-1869 | an empty square with a tile above, below, left or right, or the centre while the board's tiles_played field (src/movegen.c:1867) is 0 |
| MovegenGen.MoveGen.PlacementAdjustment | src/movegen.c:355-373 | the sum of the opening penalties of the squares under the move's vowels, played-through tiles excluded |
| MovegenGen.MoveGen.CopyStrip | src/movegen.c:1452-1455 | the strip between leftstrip and rightstrip (also lines 1487-1490) |
| MovegenGen.MoveGen.MainContribution | src/movegen.c:1425-1432 | the switch over the word multiplier is the main word score times the multiplier |
| MovegenGen.MoveGen.RecordMove | src/movegen.c:1420-1513 | record_move counts the move and keeps it as the best, with its equity and key, exactly when there is no best yet or it is preferred; otherwise the best is unchanged, and the best stays maximal among all moves recorded |
| MovegenGen.MoveGen.Record | src/movegen.c:1481-1512 | the early exit and the comparison: the move replaces the best exactly when is_better_move prefers it |
| MovegenGen.MoveGen.BuildCandidate | src/movegen.c:1425-1478 | the score from the sums with the bingo bonus, the line's start, the tiles of the strip, and the equity of score plus adjustments |
| MovegenGen.MoveGen.Adjustments | src/movegen.c:1441-1478 | the placement adjustment on the opening move, plus the leave value while tiles remain in the bag and there is a KLV, or the endgame adjustment once the bag is empty |
| MovegenGen.MoveGen.CurrentLeave | src/movegen.c:1462-1465 | the leave value is that of the tiles still on the rack |
| MovegenGen.MoveGen.EndgameAdjustment | src/movegen.c:1466-1475 | standard_endgame_adjustment of the rack as it stands against the opponent's rack |
| MovegenGen.MoveGen.Accumulate | src/movegen.c:1536-1565 | a fresh tile goes into the strip and scores with the square's bonuses, a played-through one is marked; the sums take go_on's step and nothing else changes |
| MovegenGen.MoveGen.GoOn | src/movegen.c:1533-1616 | go_on restores the sums, rack and tile count, keeps the best maximal and only adds recorded moves |
| MovegenGen.MoveGen.RestoreSums | src/movegen.c:1612-1615 | the sums are back to what they were before the square |
| MovegenGen.MoveGen.GoLeft | src/movegen.c:1567-1593 | left of the anchor: record, continue left and cross the separator as go_on allows, restoring everything |
| MovegenGen.MoveGen.CrossSeparator | src/movegen.c:1587-1593 | follow the separator arc and continue right of the anchor, restoring everything |
| MovegenGen.MoveGen.GoRight | src/movegen.c:1594-1609 | right of the anchor: record when no tile follows, continue right, restoring everything |
| MovegenGen.MoveGen.RecursiveGen | src/movegen.c:1625-1743 | recursive_gen leaves rack, sums and tile count as it found them, keeps the best maximal among recorded moves and only adds to them |
| MovegenGen.MoveGen.FollowPlayed | src/movegen.c:1647-1662 | the scan for the letter already on the square, restoring everything |
| MovegenGen.MoveGen.TryRackTiles | src/movegen.c:1663-1742 | the scan trying each rack tile and the blank the cross set allows, restoring everything |
| MovegenGen.MoveGen.TryTile | src/movegen.c:1683-1732 | take a tile, go on, put it back: the rack is as it was |
| MovegenGen.MoveGen.TakeTile | src/movegen.c:1685-1687 | one copy leaves the rack and one more tile is played |
| MovegenGen.MoveGen.ReturnTile | src/movegen.c:1704-1706 | the copy comes back and one fewer tile is played |
| MovegenGen.MoveGen.GenForAnchor | src/movegen.c:1958-1991 | gen_for_anchor searches from the anchor with nothing played, empty sums and a word multiplier of 1, and leaves the rack as it was |
| MovegenGen.MoveGen.StartAnchor | src/movegen.c:1959-1967 | the anchor is set with trivial extension sets |
| MovegenGen.MoveGen.ResetSums | src/movegen.c:1960-1963 | nothing played, main and cross scores 0 and word multiplier 1 |
| MovegenGen.MoveGen.Unrestricted | src/movegen.c:1966-1967 | TRIVIAL_CROSS_SET |
| AsmListing.Seal | tools/split_asm.py:130-131 | files[current_file].append: the function goes at the end of that file's list, the other files' lists are unchanged and keys stay distinct (also lines 150-152, lines 221-222) |
| AsmListing.TailPaths | tools/split_asm.py:95 | the keys after the first are distinct and differ from it |
| AsmListing.ConsDistinct | tools/split_asm.py:95 | a new key in front of distinct keys keeps them distinct |
| AsmListing.NotKeyLookup | tools/split_asm.py:95 | a file that is not a key has no functions |
| AsmListing.Classify | tools/split_asm.py:114-206 | the loop's tests in order: a blank line is skipped, a header is exactly what func_pattern matched, and an instruction or a text line occurs only while a function is open; a text line is the stripped line and never empty |
| AsmListing.IsSourcePath | tools/split_asm.py:148 | the path ends in one of ".c", ".s", ".S" |
| AsmListing.OnHeader | tools/split_asm.py:127-138 | a function header seals the open function and opens a new one with no block and nothing pending |
| AsmListing.OnRef | tools/split_asm.py:141-161 | a file:line reference queues its path, line and scrubbed text, and a C or assembly file moves current_file |
| AsmListing.OnAsm | tools/split_asm.py:164-201 | an instruction opens a block for the last pending reference, or joins the current block, or starts an orphan block of current_file at line 0 |
| AsmListing.OnText | tools/split_asm.py:206-218 | a source line extends the last pending reference, or gives the current block its text when it has none |
| AsmListing.Step | tools/split_asm.py:112-218 | one line of the listing keeps the parser state consistent |
| AsmListing.Run | tools/split_asm.py:110-218 | the parser state after every line of the listing is consistent |
| AsmListing.Parse | tools/split_asm.py:89-224 | parse_objdump yields each file once |
| AsmListing.ParseObjdump | tools/split_asm.py:89-224 | the loop over the listing's lines is Parse |
| AsmListing.ParseLine | tools/split_asm.py:112-218 | one iteration of the loop is Step |
| AsmListing.HeaderLine | tools/split_asm.py:127-138 | the header branch is OnHeader |
| AsmListing.RefLine | tools/split_asm.py:141-161 | the reference branch is OnRef |
| AsmListing.InstrLine | tools/split_asm.py:164-201 | the instruction branch is OnAsm |
| AsmListing.TextLine | tools/split_asm.py:206-218 | the source-text branch is OnText |
| AsmListing.FuncsAsmAppend | tools/split_asm.py:131 | appending a function appends its instructions |
| AsmListing.SealHolds | tools/split_asm.py:131 | sealing a function adds exactly its instructions to those filed (also line 152) |
| AsmListing.AppendToLastHolds | tools/split_asm.py:190-191 | an instruction joining the current block adds it to the function's instructions |
| AsmListing.TextKeepsAsm | tools/split_asm.py:216-218 | giving a block text changes no instruction |
| AsmListing.NewBlockHolds | tools/split_asm.py:178-187 | a new block adds its instructions (also lines 193-200) |
| AsmListing.HeaderHolds | tools/split_asm.py:127-138 | a header loses and adds no instruction |
| AsmListing.RefHolds | tools/split_asm.py:141-161 | a reference loses and adds no instruction |
| AsmListing.AsmHolds | tools/split_asm.py:164-201 | an instruction line adds exactly that instruction |
| AsmListing.TextHolds | tools/split_asm.py:206-218 | a source line loses and adds no instruction |
| AsmListing.ApplyHolds | tools/split_asm.py:112-218 | each kind of line adds its instruction, if it is one, and nothing else |
| AsmListing.ClosedKind | tools/split_asm.py:165 | with no open function no line is an instruction or text, and headers are recognised either way (also line 206) |
| AsmListing.StepHolds | tools/split_asm.py:112-218 | a step adds the line's instruction exactly when a function is open |
| AsmListing.StepOpened | tools/split_asm.py:127-138 | a function is open after a step exactly when one was or the line is a header |
| AsmListing.RunOpened | tools/split_asm.py:110-218 | a function is open exactly when some header has been read |
| AsmListing.RunHolds | tools/split_asm.py:110-218 | the state holds exactly the instruction lines read after the first header |
| AsmListing.InstructionsConserved | tools/split_asm.py:89-224 | every instruction line after the first header ends up in exactly one block of the result, and nothing else does |
| AsmListing.LastReferenceWins | tools/split_asm.py:178-187 | of several pending references only the last becomes the instruction's block, and the queue is emptied |
| AsmListing.FileSwitchReopens | tools/split_asm.py:148-154 | a reference to another C or assembly file files the open function under the old file and reopens an empty one with the same name and address |
| AsmListing.FooIsNormal | tools/split_asm.py:62-81 | "foo.c" is its own normal path and a C source |
| AsmListing.RunStep | tools/split_asm.py:111-112 | the lines are processed one after another |
| AsmListing.WorkedRef | tools/split_asm.py:141-161 | after a header, the reference foo.c:10 moves the function to foo.c and leaves an empty copy under _unknown_ |
| AsmListing.WorkedAsm | tools/split_asm.py:164-187 | the instruction after the pending reference opens the block foo.c:10 with its text |
| AsmListing.WorkedSeal | tools/split_asm.py:221-224 | the end of the listing files the open function under foo.c |
| AsmListing.ShortLine | tools/split_asm.py:115-124 | a short line that starts with a non-blank passes the blank, annotation and section tests |
| AsmListing.NotHeader | tools/split_asm.py:103 | a line whose address run is not followed by whitespace is no function header |
| AsmListing.NotRef | tools/split_asm.py:104 | a line that is not absolute and has no source name before a ':' is no file reference |
| AsmListing.ClassifyText | tools/split_asm.py:206-218 | a non-blank line that matches no pattern is source text, stripped, while a function is open |
| AsmListing.ClassifyAsm | tools/split_asm.py:164-168 | a line that is only an instruction match is classified as that instruction while a function is open |
| AsmListing.ClassifyHeaderLine | tools/split_asm.py:127-138 | the line "100 <add>:" is the header of add at 0x100 |
| AsmListing.ClassifyRefLine | tools/split_asm.py:141-145 | the line "foo.c:10" is a reference to line 10 of foo.c with no text |
| AsmListing.ClassifyTextLine | tools/split_asm.py:206-218 | the line "return a+b;" matches no pattern and is source text |
| AsmListing.AsmOperandsLine | tools/split_asm.py:105 | in "100:\t4e75\trts" the greedy hex group is 4e75 and the text starts after the second tab |
| AsmListing.AsmMatchLine | tools/split_asm.py:105 | "100:\t4e75\trts" matches as rts at 0x100 with hex bytes 4e75 (also lines 164-168) |
| AsmListing.ClassifyAsmLine | tools/split_asm.py:164-168 | the line "100:\t4e75\trts" is the instruction rts at 0x100 with hex bytes 4e75 |
| AsmListing.WorkedRun1 | tools/split_asm.py:127-138 | on the four-line listing, the header line opens the function add |
| AsmListing.WorkedRun2 | tools/split_asm.py:141-161 | the reference line foo.c:10 then moves it to foo.c |
| AsmListing.WorkedRun3 | tools/split_asm.py:209-215 | the source line then becomes the reference's text |
| AsmListing.WorkedText | tools/split_asm.py:209-215 | a source line after a pending reference becomes its text |
| AsmListing.WorkedRun4 | tools/split_asm.py:164-201 | the instruction line then opens the block foo.c:10 with rts in it |
| AsmListing.WorkedListing | tools/split_asm.py:89-224 | the four concrete lines (header, reference, text, instruction) parse to an empty add under _unknown_ and add with its one block under foo.c |
| AsmListing.BlockJsonRoundTrip | tools/split_asm.py:245-258 | the JSON of a block reads back as the block without its raw lines |
| AsmListing.FunctionJsonRoundTrip | tools/split_asm.py:242-263 | the JSON of a function, its address as eight hex digits, reads back as the function without raw lines |
| AsmListing.FunctionsJson | tools/split_asm.py:242-263 | the loop yields one JSON entry per function, in order |
| AsmListing.BlocksJson | tools/split_asm.py:244-258 | one JSON entry per block, in order |
| AsmListing.AsmData | tools/split_asm.py:246-252 | one JSON entry per instruction, in order |
| AsmText.Span | tools/split_asm.py:103-108 | a greedy run of a character class: every character in it is of the class and the next one is not |
| AsmText.SpanOfRun | tools/split_asm.py:103-108 | a run of the class followed by a character outside it spans exactly the run |
| AsmText.SpanIs | tools/split_asm.py:103-108 | a prefix of the class ending at a character outside it is the span |
| AsmText.TrailingSpaceRun | tools/split_asm.py:115 | the trailing run of whitespace is all whitespace and is preceded by a character that is not (also line 207) |
| AsmText.StripMeaning | tools/split_asm.py:115 | str.strip yields the part between the leading and trailing whitespace, which neither begins nor ends with whitespace, and is empty exactly when the line is all whitespace (also line 157, line 167, line 207) |
| AsmText.StripFacts | tools/split_asm.py:207 | the slice between the leading and trailing whitespace is trimmed |
| AsmText.StripIdempotent | tools/split_asm.py:115 | stripping a stripped string changes nothing (also lines 157, 167) |
| AsmText.RStripNewlines | tools/split_asm.py:112 | rstrip('\n') keeps a prefix not ending in a newline and drops only newlines |
| AsmText.LStripDotSlash | tools/split_asm.py:75 | lstrip('./') drops a leading run of dots and slashes and keeps a suffix that starts with neither |
| AsmText.FindFrom | tools/split_asm.py:71-72 | the first occurrence from index i, or -1 when none (also lines 77-78) |
| AsmText.Find | tools/split_asm.py:71-72 | str.find is -1 exactly when the pattern does not occur, and otherwise its first occurrence (also lines 77-78) |
| AsmText.NotFoundWithoutFirstChar | tools/split_asm.py:71 | a pattern whose first character is not in the string does not occur in it (also line 77) |
| AsmText.Basename | tools/split_asm.py:86 | os.path.basename: the suffix after the last '/', with no '/' in it |
| AsmText.NormalizePath | tools/split_asm.py:62-81 | normalize_path yields a suffix of the path |
| AsmText.DisplayName | tools/split_asm.py:84-86 | get_display_name yields a name with no '/' in it |
| AsmText.DisplayNameSuffix | tools/split_asm.py:84-86 | get_display_name yields a suffix of the path |
| AsmText.CutSuffix | tools/split_asm.py:70-74 | the prefix loop keeps a suffix of the path |
| AsmText.CutSuffixMarker | tools/split_asm.py:76-80 | the marker loop keeps a suffix of the path |
| AsmText.FirstPrefixWins | tools/split_asm.py:70-74 | the first build prefix in the list that occurs cuts the path after its first occurrence, and the loop stops there |
| AsmText.NoPrefixKeepsPath | tools/split_asm.py:70-74 | with no build prefix in the path it is unchanged |
| AsmText.FirstMarkerWins | tools/split_asm.py:76-80 | the first of /src/, /inc/, /build/ that occurs cuts the path after the marker's '/', so the result starts with the marker's directory |
| AsmText.NoMarkerKeepsPath | tools/split_asm.py:76-80 | with no marker the path is unchanged |
| AsmText.NormalizePlainPath | tools/split_asm.py:62-81 | a path with no build prefix and no marker is only lstrip('./')-ed |
| AsmText.HexDigitValue | tools/split_asm.py:133 | a hex digit's value is below 16 (also line 166) |
| AsmText.LowerHexChar | tools/split_asm.py:249 | the lower-case digit of a value below 16 reads back as that value (also line 261) |
| AsmText.HexDigits | tools/split_asm.py:249 | the hex digits of n read back as n (also line 261) |
| AsmText.Zeros | tools/split_asm.py:249 | n zero digits (also line 261) |
| AsmText.LeadingZeros | tools/split_asm.py:249 | leading zeros do not change the value int(s, 16) reads (also line 261) |
| AsmText.ZerosValue | tools/split_asm.py:249 | zeros read as 0 (also line 261) |
| AsmText.Hex08 | tools/split_asm.py:249 | the '08x' format has at least eight hex digits (also line 261) |
| AsmText.Hex08RoundTrip | tools/split_asm.py:133 | int(f'{n:08x}', 16) == n: the address format round-trips (also line 166, line 249, line 261) |
| AsmText.DiscriminatorAt | tools/split_asm.py:108 | a match of the discriminator annotation is non-empty and inside the string (also line 159) |
| AsmText.Scrub | tools/split_asm.py:159 | the discriminator substitution never lengthens the text |
| AsmText.ScrubKeepsPlainText | tools/split_asm.py:159 | text without '(' is left whole by the substitution |
| AsmText.IsDiscriminatorLine | tools/split_asm.py:108 | a discriminator line is neither a function header nor a file reference, so skipping it first (line 119) takes nothing from the later tests |
| AsmText.IsSectionLine | tools/split_asm.py:106 | a section line is neither a function header nor a file reference, so skipping it first (line 123) takes nothing from the later tests |
| AsmText.MatchFuncHeader | tools/split_asm.py:103 | a header match starts with a hex digit, and its name is non-empty with no '>' in it |
| AsmText.HeaderLine | tools/split_asm.py:103 | a line "<hex> <name>:" is a header with the hex address and the name between the angle brackets (also lines 127-134) |
| AsmText.LineTail | tools/split_asm.py:104 | the `:(\d+)(\s.*)?$` part: the path is all of the line before the colon, a digit follows it, and the rest is empty or starts with whitespace |
| AsmText.AbsoluteRef | tools/split_asm.py:104 | the first alternative: a path of at least two characters that starts with '/' and has no ':' |
| AsmText.SourceRef | tools/split_asm.py:104 | the second alternative: a path with no ':' that ends in '.' and one of c, h, s, S |
| AsmText.MatchFileRef | tools/split_asm.py:104 | the absolute alternative wins whenever it matches; any match has a path of at least two characters with no ':', and a path not starting with '/' comes from the second alternative |
| AsmText.SourceRefLine | tools/split_asm.py:104 | a relative "<name>.c:<n>" line is a reference to that path and line with no rest (also lines 141-145) |
| AsmText.Tail | tools/split_asm.py:105 | the `\s+(.+)$` tail starts after e and before the end of the line |
| AsmText.LazyGroup | tools/split_asm.py:105 | the lazy hex-bytes group, when it matches, ends after its start and before the tail |
| AsmText.GreedyGroup | tools/split_asm.py:105 | the greedy hex-bytes group, when it matches, ends after its start and before the tail |
| AsmText.Operands | tools/split_asm.py:105 | the whitespace, group and tail after the colon are in order inside the line |
| AsmText.AllSlice | tools/split_asm.py:105 | a slice is all of a class exactly when each of its characters is |
| AsmText.StripTrimmed | tools/split_asm.py:167 | a string without leading or trailing whitespace is its own strip |
| AsmText.TailAfterOneSpace | tools/split_asm.py:105 | one whitespace character then non-blank text is a tail starting after it |
| AsmText.AsmHead | tools/split_asm.py:105 | a match found after the address gives the hex address, the stripped group and the text (also lines 164-168) |
| AsmText.AsmSpans | tools/split_asm.py:105 | the spans of an unindented instruction line |
| AsmText.AsmMatch | tools/split_asm.py:105 | a match, with the lazy or the greedy hex group, has a non-empty instruction text |
| AsmText.MatchAsmAsWritten | tools/split_asm.py:105 | the pattern as written, with the lazy hex group: a match has a non-empty instruction text |
| AsmText.MatchAsm | tools/split_asm.py:105 | the pattern with a greedy hex group: a match has a non-empty instruction text |
| AsmText.LazyGroupSkips | tools/split_asm.py:105 | the lazy search skips lengths after which no tail matches |
| AsmText.LazyGroupOneWord | tools/split_asm.py:105 | the lazy group stops after the first hex word when a blank follows it |
| AsmText.HexOrBlankRun | tools/split_asm.py:105 | the run of hex digits and blanks covers both words and the blank between |
| AsmText.TwoWordRun | tools/split_asm.py:105 | the two hex words and the blank between are all of the group's class |
| AsmText.GreedyGroupAt | tools/split_asm.py:105 | the greedy group takes the whole run when a tail follows it |
| AsmText.LazyOperandsOne | tools/split_asm.py:105 | with one whitespace character after the colon, the lazy operands are the first word and the rest |
| AsmText.GreedyOperandsOne | tools/split_asm.py:105 | with one whitespace character after the colon, the greedy operands are the whole run and the rest |
| AsmText.LazyHead | tools/split_asm.py:105 | the lazy match of a line whose group ends at e (also lines 164-168) |
| AsmText.LazyGroupSplitsHexWords | tools/split_asm.py:105 | as written, a line with two hex words ("100:\t4e56 0000\tlinkw …") keeps only the first word as hex bytes and reads the second as part of the instruction (also lines 164-168) |
| AsmText.GreedyGroupKeepsHexWords | tools/split_asm.py:105 | with a greedy group both hex words are the hex bytes and the instruction is the text after the tab (also lines 164-168) |
| FivePixelFont.Blank | tools/extract_five_pixel_font.py:44 | n zero pixels (also lines 58-61) |
| FivePixelFont.BitPixels | tools/extract_five_pixel_font.py:64-67 | a non-zero byte encodes eight pixels, bit 7 first, each 0xFF when its bit is set and 0 otherwise |
| FivePixelFont.Fit | tools/extract_five_pixel_font.py:44 | the 64×64 atlas is the decoded stream cut at 4096 pixels and zero after its end (also line 49) |
| FivePixelFont.DecompressFont | tools/extract_five_pixel_font.py:42-69 | decompress_font returns the pixel stream the bytes encode (a 0 then n is 8n zero pixels, any other byte its bits), cut to 4096 pixels and zero-filled |
| FivePixelFont.DecodeRun | tools/extract_five_pixel_font.py:50-67 | one byte or zero-run decoded: the atlas so far followed by the rest of the stream is unchanged, and the pixels past the write position are still zero |
| FivePixelFont.Filled | tools/extract_five_pixel_font.py:49 | once 4096 pixels are written the rest of the stream is ignored |
| FivePixelFont.Advance | tools/extract_five_pixel_font.py:49-67 | writing the decoded pixels from the position moves them from the stream into the atlas |
| FivePixelFont.ZeroRun | tools/extract_five_pixel_font.py:56-61 | a run writes 8n zero pixels from the position, stopping at the end of the atlas, and nothing else |
| FivePixelFont.ByteRun | tools/extract_five_pixel_font.py:64-67 | a byte writes its eight pixels from the position, stopping at the end of the atlas, and nothing else |
| FivePixelFont.TrailingZeroEmitsNothing | tools/extract_five_pixel_font.py:55 | a 0 with no count after it decodes to nothing |
| FivePixelFont.PackedBits | tools/extract_five_pixel_font.py:64-66 | the packed byte has bit 7 - i set exactly when flag i is set |
| FivePixelFont.PackUnpack | tools/extract_five_pixel_font.py:64-66 | eight pixels packed into a byte decode back to themselves, and a group with a lit pixel packs to a non-zero byte |
| FivePixelFont.PackedBit | tools/extract_five_pixel_font.py:64-66 | bit 7 - i of the packed byte is set exactly when pixel i is lit |
| FivePixelFont.StreamShift | tools/extract_five_pixel_font.py:49-67 | decoding from after a prefix is decoding the rest |
| FivePixelFont.StreamShiftFrom | tools/extract_five_pixel_font.py:49-67 | decoding from any index past a prefix is decoding the rest from there |
| FivePixelFont.DecodeEncode | tools/extract_five_pixel_font.py:42-69 | the run-length encoding of any whole-byte pixel sequence decodes back to it |
| FivePixelFont.ExtractGlyph | tools/extract_five_pixel_font.py:71-97 | extract_glyph is None outside codes 32..127, and otherwise the six rows of the glyph's cell |
| FivePixelFont.GlyphRow | tools/extract_five_pixel_font.py:88-95 | one row byte: pixel x of the cell row sets bit 0x80 >> x |
| FivePixelFont.CellInAtlas | tools/extract_five_pixel_font.py:78-83 | the cell of each of the 96 glyphs lies inside the atlas, so the bounds test never fails (also line 92) |
| FivePixelFont.SetPixel | tools/extract_five_pixel_font.py:94 | or-ing 0x80 >> w sets pixel w and keeps the others and the two low bits clear |
| FivePixelFont.RowBitsMeaning | tools/extract_five_pixel_font.py:88-95 | pixel x of a row byte is set exactly when x is within the width and the atlas pixel is lit, and the two low bits stay clear |
| FivePixelFont.GlyphMeaning | tools/extract_five_pixel_font.py:71-97 | for codes 32..127 the glyph has six rows and pixel (x, y) of its cell is lit exactly when bit 0x80 >> x of row y is set |
| FivePixelFont.TableShape | tools/extract_five_pixel_font.py:116-127 | each table entry has 8 rows with a zero row above and below the glyph when padding, and is the glyph otherwise |
| FontExtract.MaskRow | tools/font_extract.py:215-218 | a glyph row is cut to one byte: always below 256 |
| FontExtract.MaskedRows | tools/font_extract.py:244-254 | generate_json writes one masked byte per bitmap row of the glyph, in order |
| FontExtract.GlyphRows | tools/font_extract.py:199-221 | the C table row for a glyph has out_height bytes; byte r is the masked source row r - top_pad when that row exists and 0 otherwise |
| FontExtract.FontTable | tools/font_extract.py:199-227 | the C table has 96 entries for codes 32..127, each out_height bytes long; a code without a glyph is all zeros, one with a glyph holds its placed rows |
| FontExtract.Centred | tools/font_extract.py:204-212 | a glyph no taller than the output is centred: top_pad blank rows above, then every masked row in order, then blank rows, as many below as above or one more |
| FontExtract.Cropped | tools/font_extract.py:204-212 | a glyph taller than the output is cropped to its middle out_height rows, the odd extra row being dropped at the top |
| FontExtract.TableMatchesJson | tools/font_extract.py:208-218 | when the glyph exactly fills the output height the C table and the JSON hold the same bytes (also lines 248-253) |
| FontExtract.ShrDrops | tools/font_extract.py:216 | Python's right shift by k drops the last k pixels of a row |
| FontExtract.LowByte | tools/font_extract.py:216 | masking with 0xFF keeps the last eight pixels of a row |
| FontExtract.MaskWindow | tools/font_extract.py:215-216 | for a glyph wider than 8 the mask as written keeps pixels StoredBits(w) - w .. StoredBits(w) - w + 7 of the stored row, not pixels 0..7 |
| FontExtract.LeftmostByte | tools/font_extract.py:214-216 | the intended cut, shifting by the stored width minus 8: always a byte |
| FontExtract.LeftmostKeepsFirstPixels | tools/font_extract.py:214-216 | the intended cut keeps exactly the eight leftmost pixels of every stored row, whatever the width |
| FontExtract.AlignedWidthsAgree | tools/font_extract.py:215-218 | when the width is a multiple of 8 the written and the intended cuts give the same byte |
| FontExtract.TenPixelRowLosesLeftPixels | tools/font_extract.py:215-216 | a width-10 row with its ten pixels set (0xFFC0) is cut to 0xF0 as written, where its leftmost eight pixels are 0xFF |
| FontExtract.LastPart | tools/font_extract.py:172 | the text after the last '/' holds no '/' and is no longer than the path |
| FontExtract.LastPartEnds | tools/font_extract.py:172 | that text ends the path, right after a '/' unless it is the whole path |
| FontExtract.BaseName | tools/font_extract.py:172 | Path(path).name: the last component that is neither empty nor "."; it holds no '/' and is never "." |
| FontExtract.LastDot | tools/font_extract.py:173 | the position found is a '.' with no '.' after it, and none is found only when the name has no '.' |
| FontExtract.Lower | tools/font_extract.py:173 | lower-casing ASCII capitals keeps the length |
| FontExtract.LastDotAt | tools/font_extract.py:173 | a '.' followed only by non-dots is the one the suffix starts at |
| FontExtract.LowerBdf | tools/font_extract.py:173 | a four-character text lower-casing to ".bdf" starts with its only '.' |
| FontExtract.BdfExactly | tools/font_extract.py:170-176 | extract_font_bitmaps uses the BDF reader exactly when pathlib's file name is longer than four characters and ends in ".bdf" in any case, and the OTB reader otherwise |
| FontExtract.NoSlashLastPart | tools/font_extract.py:172 | a path without '/' is its own last part |
| FontExtract.NoSlashBaseName | tools/font_extract.py:172 | a path without '/' is its own file name, except ".", whose name is empty |
| FontExtract.LastPartAfter | tools/font_extract.py:172 | the last part is what follows the last '/' |
| FontExtract.BaseNameAfter | tools/font_extract.py:172 | the file name is what follows the last '/' when that is neither empty nor "." |
| FontExtract.TrailingSeparators | tools/font_extract.py:172 | a trailing "/" or "/." leaves the file name unchanged |
| FontExtract.TrailingSeparatorBdf | tools/font_extract.py:172-174 | "f/a.bdf", "f/a.bdf/" and "f/a.bdf/." all go to the BDF reader |
| FontExtract.NameBdfExactly | tools/font_extract.py:173-176 | a file name is read as BDF exactly when it is longer than four characters and ends in ".bdf" in any case |
| FontExtract.UpperCaseSuffix | tools/font_extract.py:173-174 | "f/a.BDF" goes to the BDF reader: the comparison ignores case |
| FontExtract.HiddenNameHasNoSuffix | tools/font_extract.py:173-176 | ".bdf" alone has no suffix and goes to the OTB reader |
| KwgToC.Node | tools/kwg2c.py:36 | a node read little-endian from four bytes is a 32-bit value |
| KwgToC.Nodes | tools/kwg2c.py:19 | the nodes written are the len(data) // 4 whole nodes of the file (also lines 30-32) |
| KwgToC.LineBreaks | tools/kwg2c.py:38-46 | the byte-offset tests of the loop: a line opens at every eighth node and breaks after every eighth |
| KwgToC.Entry | tools/kwg2c.py:38-46 | one entry is its indent, "0x%08X," and a separator: twelve characters plus the indent |
| KwgToC.Value | tools/kwg2c.py:41 | "0x%08X," of a value is eleven characters |
| KwgToC.ConvertKwg | tools/kwg2c.py:13-49 | convert_kwg writes the header, every whole node's entry, the closing brace and kwg_data_size |
| KwgToC.WriteNodes | tools/kwg2c.py:30-46 | the loop four bytes at a time writes exactly the entries of the whole nodes, stopping before a part node |
| KwgToC.WriteNode | tools/kwg2c.py:31-46 | one pass of the loop appends node j's entry to what was written |
| KwgToC.EntriesLength | tools/kwg2c.py:38-46 | the entries of the first k nodes fill up to where entry k starts |
| KwgToC.EntriesPrefix | tools/kwg2c.py:30-46 | the output for the first j nodes is a prefix of the output for the first k |
| KwgToC.EntryAt | tools/kwg2c.py:30-46 | entry j lies at its start offset in the array text |
| KwgToC.EntryDigits | tools/kwg2c.py:41 | the eight hexadecimal digits of an entry read back as its value |
| KwgToC.NodeReadsBack | tools/kwg2c.py:30-46 | node j is written in the array as digits that read back as the node, and the node stored little-endian is the file's bytes 4j..4j+3 |
| KwgToC.SizeReadsBack | tools/kwg2c.py:19 | the file ends with kwg_data_size written in decimal digits reading back as len(data) // 4 (also line 49) |
| KwgToC.TrailingBytesIgnored | tools/kwg2c.py:19 | up to three bytes past the last whole node change nothing written (also lines 31-32) |
| KlvToC.ByteText | tools/klv2c.py:36 | "0x%02X" of a byte is four characters |
| KlvToC.Join | tools/klv2c.py:36 | ", ".join of n byte texts is 6n - 2 characters |
| KlvToC.ConvertKlv16 | tools/klv2c.py:17-43 | convert_klv16 writes the header, the byte lines, the closing brace and klv_data_size |
| KlvToC.WriteLines | tools/klv2c.py:33-40 | the loop sixteen bytes at a time writes exactly the lines of the data |
| KlvToC.LineCountBound | tools/klv2c.py:33 | a line starts at 16m exactly when m is below ceil(len(data) / 16) |
| KlvToC.WriteLine | tools/klv2c.py:34-40 | one pass of the loop appends the line starting at byte i |
| KlvToC.JoinAt | tools/klv2c.py:36 | byte t of a chunk is written six characters after byte t - 1 |
| KlvToC.FullLine | tools/klv2c.py:34-40 | every line before the last holds sixteen bytes and a comma: 100 characters |
| KlvToC.LinesLength | tools/klv2c.py:33-40 | the first m full lines are 100m characters |
| KlvToC.LinesPrefix | tools/klv2c.py:33-40 | the output for the first m lines is a prefix of the output for the first k |
| KlvToC.ByteInLine | tools/klv2c.py:34-37 | byte k is written in its line four characters in, six per byte before it |
| KlvToC.LineInBody | tools/klv2c.py:33-40 | line i starts 100i characters into the array |
| KlvToC.ByteReadsBack | tools/klv2c.py:33-40 | every byte of the file is written at its offset as "0x" and two hexadecimal digits reading back as the byte |
| KlvToC.LineEndings | tools/klv2c.py:38-40 | a line ends in ",\n" exactly when more data follows it |
| KlvToC.SizeReadsBack | tools/klv2c.py:43 | the file ends with klv_data_size written in decimal digits reading back as len(data) |
| KlvReader.Code | tests/gxtest/klv.cpp:39-47 | FromString's reading of a character: '?' the blank, a letter of either case its machine letter, anything else nothing; always below ALPHABET_SIZE |
| KlvReader.Added | tests/gxtest/klv.cpp:21-26 | AddTile on the counts keeps 27 counts |
| KlvReader.Removed | tests/gxtest/klv.cpp:28-35 | RemoveTile on the counts keeps 27 counts |
| KlvReader.AddThenRemove | tests/gxtest/klv.cpp:21-35 | adding a tile and removing it restores the counts, unless the count was about to wrap |
| KlvReader.RemoveThenAdd | tests/gxtest/klv.cpp:21-35 | removing a tile on the rack and adding it back restores the counts |
| KlvReader.TallyOnto | tests/gxtest/klv.cpp:37-49 | the counts FromString reaches keep 27 entries |
| KlvReader.Recognised | tests/gxtest/klv.cpp:39-47 | no more tiles are counted than the string has characters |
| KlvReader.CodeOfLetter | tests/gxtest/klv.cpp:40-45 | the character ToString writes for a letter reads back as that letter (also lines 55-58) |
| KlvReader.TallyAppend | tests/gxtest/klv.cpp:39-47 | reading s then t counts what reading s + t counts |
| KlvReader.TallyCopies | tests/gxtest/klv.cpp:39-47 | reading k copies of a letter's character adds k to that letter's count (also lines 54-59) |
| KlvReader.TallySpell | tests/gxtest/klv.cpp:37-63 | reading what ToString writes for the letters below n gives back their counts, and counts as many tiles as they hold |
| KlvReader.StringRoundTrip | tests/gxtest/klv.cpp:37-63 | FromString(ToString()) gives back the rack's counts, and the same total modulo 256 |
| KlvReader.ByteCount | tests/gxtest/klv.h:25 | counting in a uint8_t total is counting modulo 256 |
| KlvReader.TallySum | tests/gxtest/klv.cpp:37-49 | for fewer than 256 tiles the counts FromString reaches sum to the number of tile characters |
| KlvReader.Rack.constructor | tests/gxtest/klv.h:23-25 | a default Rack has every count and its total zero |
| KlvReader.Rack.AddTile | tests/gxtest/klv.cpp:21-26 | a letter of the alphabet goes up by one in its count and in the uint8_t total; any other value changes nothing; the total stays the sum of the counts while it is below 255 |
| KlvReader.Rack.RemoveTile | tests/gxtest/klv.cpp:28-35 | returns true exactly when the letter is in the alphabet and on the rack, and then takes one off its count and off the total; otherwise changes nothing |
| KlvReader.Rack.FromString | tests/gxtest/klv.cpp:37-49 | a new rack whose counts are one AddTile per recognised character and whose total is their number modulo 256 |
| KlvReader.Rack.ToString | tests/gxtest/klv.cpp:51-63 | the rack's tiles in letter order, '?' for a blank |
| KlvReader.NodesOf | tests/gxtest/klv.cpp:72-76 | the n nodes read little-endian after the node count (also lines 89-93) |
| KlvReader.LeavesOf | tests/gxtest/klv.cpp:79-83 | the m leave values read as little-endian int16 (also lines 100-104) |
| KlvReader.ParseImage | tests/gxtest/klv.cpp:67-105 | a KLV16 image with counts within the limits loads back as its nodes, and as the leave values the ROM's klv_get_indexed_leave reads from the same image |
| KlvReader.TrailingBytesIgnored | tests/gxtest/klv.cpp:67-105 | bytes after the last leave value change nothing Load reads |
| KlvReader.Resized | tests/gxtest/klv.cpp:115 | resize(n, 0) keeps the first n counts and fills the rest with zeros |
| KlvReader.ScanFinds | tests/gxtest/klv.cpp:166-188 | on a lexicon whose last node ends a run, the scan finds the letter the ROM's scan finds, with the word index moved past the counts of the siblings before it |
| KlvReader.IncrementMatchesRom | tests/gxtest/klv.cpp:157-189 | on a lexicon whose last node ends a run, IncrementToLetter returns what the ROM's increment_to_letter returns, or 0 and the unfound index when the letter is not in the run |
| KlvReader.SkipReadsInBounds | tests/gxtest/klv.cpp:179-187 | on a lexicon whose last node ends a run, every word count the scan reads exists |
| KlvReader.OverReadExample | tests/gxtest/klv.cpp:181-187 | as written, on nodes [arc to 1, tile 1 without an end flag] a search for letter 2 from node 1 reads word_counts_[2] of a two-element vector |
| KlvReader.CheckedReadsInBounds | tests/gxtest/klv.cpp:179-187 | with the bounds test before the reads every count read exists, on any lexicon |
| KlvReader.WalkStep | tests/gxtest/klv.cpp:224-251 | one step of GetWordIndex's walk agrees with the ROM's index computation: not found, the last letter found, or the rest of the walk from the child run |
| KlvReader.LeaveMatchesRom | tests/gxtest/klv.cpp:256-266 | on an image the ROM also reads, the test reader's leave value for a rack equals the ROM's klv_get_leave_value |
| KlvReader.Klv.constructor | tests/gxtest/klv.h:41 | a new reader holds no nodes, leave values or counts (also lines 70-72) |
| KlvReader.Klv.Load | tests/gxtest/klv.cpp:67-111 | Load succeeds exactly when the bytes parse, and then holds the parsed nodes and leave values; when the count computation settles the counts are its fixpoint |
| KlvReader.Klv.ReadNodes | tests/gxtest/klv.cpp:89-94 | the node loop reads exactly NodesOf |
| KlvReader.Klv.ReadLeaves | tests/gxtest/klv.cpp:100-105 | the leave loop reads exactly LeavesOf |
| KlvReader.Klv.ComputeWordCounts | tests/gxtest/klv.cpp:113-150 | the nodes and leave values are untouched, and when the loop stops the counts are the ROM's fixpoint: accept flag plus child's count plus next sibling's count |
| KlvReader.Klv.Pass | tests/gxtest/klv.cpp:119-148 | one pass from the last node down sets every count from the counts after it, and reports a change exactly when a count changed; no change means the fixpoint |
| KlvReader.Klv.GetDawgRoot | tests/gxtest/klv.cpp:152-155 | 0 when nothing is loaded, otherwise node 0's arc, the ROM's DAWG root |
| KlvReader.Klv.IncrementToLetter | tests/gxtest/klv.cpp:157-189 | the node of the letter in node n's run and the word index there, or 0 and the unfound index |
| KlvReader.Klv.FollowArc | tests/gxtest/klv.cpp:191-202 | node 0 or past the end gives 0 and the unfound index; otherwise the child run and the index one further on |
| KlvReader.Klv.GetWordIndex | tests/gxtest/klv.cpp:204-254 | the unfound index for an empty rack; for a consistent rack on a well-formed lexicon the ROM's word index of the rack's letters in ascending order |
| KlvReader.Klv.FirstLetter | tests/gxtest/klv.cpp:212-220 | the lowest letter on the rack and its count, or past the alphabet with count 0 for an empty rack |
| KlvReader.Klv.Walk | tests/gxtest/klv.cpp:222-253 | the walk from node start computes the ROM's index of the rack's spelling from that node |
| KlvReader.Klv.NextLetter | tests/gxtest/klv.cpp:236-243 | once the current letter is used up, moves to the next letter on the rack or past the alphabet, keeping the walk's position |
| KlvReader.Klv.GetLeaveValue | tests/gxtest/klv.cpp:256-266 | 0 for an empty rack; otherwise the leave value at the rack's word index, 0 when it is unfound or past the last leave |
| KlvReader.Klv.GetLeaveValueOf | tests/gxtest/klv.cpp:268-270 | the value of the rack FromString reads from the text |
| KlvNative.RackFromString | tests/test_klv.c:46-67 | the rack is cleared and then counts one tile per '?' or letter of either case, in wrapping bytes; below 256 recognised characters its total is the sum of its counts |
| KlvNative.TallyChar | tests/test_klv.c:57-65 | one pass of the loop tallies character i onto the rack |
| KlvNative.LoadReadsImage | tests/test_klv.c:252-258 | on a KLV16 image the header arithmetic finds the image's own node count, nodes, leave count and leave bytes |
| KlvNative.WordsSolve | tests/test_klv.c:69-102 | the words below every node (itself if it accepts, its child run's words, its later siblings' words) solve the equation the ROM's passes stop at |
| KlvNative.FixpointIsWords | tests/test_klv.c:69-102 | on an acyclic lexicon every solution of the word-count equation gives each node its words |
| KlvNative.FixpointUnique | tests/test_klv.c:104-113 | on an acyclic lexicon the word-count equation has one solution, so the native recursion and the ROM's passes compute the same counts |
| KlvNative.ZerosNoMore | tests/test_klv.c:75-80 | a filled slot is never emptied again, so unfilled slots only become fewer (also line 100) |
| KlvNative.ZerosDrop | tests/test_klv.c:82 | filling an unfilled slot leaves fewer unfilled slots, which bounds the recursion (also line 100) |
| KlvNative.Count | tests/test_klv.c:70-102 | count_words_at over the counts as a value never changes a filled slot |
| KlvNative.Fresh | tests/test_klv.c:82-101 | an unfilled slot ends up holding the count the call returns |
| KlvNative.CountCorrect | tests/test_klv.c:70-102 | on an acyclic lexicon whose counts fit, count_words_at returns node i's words, keeps every filled slot and fills only slots with their words |
| KlvNative.FreshCorrect | tests/test_klv.c:82-101 | the unfilled-slot part of count_words_at returns node i's words and stores them |
| KlvNative.FreshChild | tests/test_klv.c:82-94 | the call on the child run, made with node i marked in progress, returns the child run's words |
| KlvNative.FreshSibling | tests/test_klv.c:96-98 | the call on the next sibling returns that sibling's words |
| KlvNative.Finish | tests/test_klv.c:87-101 | storing accept plus child plus sibling counts in slot i keeps the memo correct and ends node i's in-progress mark |
| KlvNative.SettledStep | tests/test_klv.c:109-112 | each call of the descending loop settles one more node |
| KlvNative.SettledAll | tests/test_klv.c:104-113 | once all nodes are settled the counts are every node's words and the ROM's fixpoint |
| KlvNative.NativeKlv.constructor | tests/test_klv.c:37-43 | an empty KLV with no nodes |
| KlvNative.NativeKlv.Load | tests/test_klv.c:250-266 | load_klv16 reads the node count at offset 0, the nodes from offset 4, the leave count after the nodes and the leave bytes after it, and starts with zeroed counts |
| KlvNative.NativeKlv.CountWordsAt | tests/test_klv.c:70-102 | count_words_at returns and stores what Count computes |
| KlvNative.NativeKlv.CountFresh | tests/test_klv.c:82-101 | the unfilled-slot part returns and stores what Fresh computes |
| KlvNative.NativeKlv.ChildCount | tests/test_klv.c:91-94 | the child run's count, 0 when the arc is 0 |
| KlvNative.NativeKlv.SiblingCount | tests/test_klv.c:96-98 | the next sibling's count, 0 when the node ends its run |
| KlvNative.NativeKlv.ComputeWordCounts | tests/test_klv.c:104-113 | on an acyclic lexicon whose counts fit below the sentinel, every count is its node's words and the counts are the ROM's fixpoint |
| TimingReport.ToUpper | tests/gxtest/scrabble_timing_report.cpp:145 | toupper in the C locale: a lower-case letter moves 32 down, anything else is kept |
| TimingReport.VowelLetters | tests/gxtest/scrabble_timing_report.cpp:144-147 | IsVowel holds exactly for A, E, I, O, U in either case |
| TimingReport.ReadLength | tests/gxtest/scrabble_timing_report.cpp:158 | Analyze reads up to rack_size characters, stopping at the first NUL |
| TimingReport.Analyze | tests/gxtest/scrabble_timing_report.cpp:156-172 | RackAnalysis::Analyze gives the analysis of the rack characters before rack_size or the first NUL, read in order |
| TimingReport.AnalysisCounts | tests/gxtest/scrabble_timing_report.cpp:156-172 | the analysis counts the '?' blanks, the vowels and the other letters (S included), has_s holds exactly when an S of either case is present, and the three counts sum to at most the characters read |
| TimingReport.Insert | tests/gxtest/scrabble_timing_report.cpp:126 | inserting one value lengthens the list by one |
| TimingReport.Sort | tests/gxtest/scrabble_timing_report.cpp:126 | the sorted copy has as many values (also line 133) |
| TimingReport.InsertPerm | tests/gxtest/scrabble_timing_report.cpp:126 | insertion adds exactly the value inserted |
| TimingReport.InsertSorted | tests/gxtest/scrabble_timing_report.cpp:126 | insertion into an ascending list keeps it ascending |
| TimingReport.SortFacts | tests/gxtest/scrabble_timing_report.cpp:125-126 | std::sort of a copy gives the same values in ascending order (also lines 132-133) |
| TimingReport.SortCounts | tests/gxtest/scrabble_timing_report.cpp:126 | sorting keeps how many values lie below and at or below any bound |
| TimingReport.SortedRank | tests/gxtest/scrabble_timing_report.cpp:127 | in ascending values entry k has at most k values below it and more than k at or below it (also line 134) |
| TimingReport.SelectRank | tests/gxtest/scrabble_timing_report.cpp:125-127 | sorted[k] is one of the values and is their (k + 1)-th smallest (also lines 132-134) |
| TimingReport.P90InRange | tests/gxtest/scrabble_timing_report.cpp:134 | size * 90 / 100 indexes a non-empty list |
| TimingReport.MaxOf | tests/gxtest/scrabble_timing_report.cpp:139 | std::max_element over a non-empty list is one of the values and no value exceeds it |
| TimingReport.BucketStats.constructor | tests/gxtest/scrabble_timing_report.cpp:108-112 | a new bucket holds no values and a zero count |
| TimingReport.BucketStats.Add | tests/gxtest/scrabble_timing_report.cpp:114-119 | Add appends the value and counts it |
| TimingReport.BucketStats.Median | tests/gxtest/scrabble_timing_report.cpp:123-128 | 0 for an empty bucket, otherwise a value of the bucket with at most n / 2 values below it and more than n / 2 at or below it |
| TimingReport.BucketStats.P90 | tests/gxtest/scrabble_timing_report.cpp:130-135 | 0 for an empty bucket, otherwise a value with at most n * 90 / 100 values below it and more at or below it |
| TimingReport.BucketStats.Max | tests/gxtest/scrabble_timing_report.cpp:137-140 | 0 for an empty bucket, otherwise the largest value |
| TimingReport.SpanDigits | tests/gxtest/scrabble_timing_report.cpp:711-712 | a run of digits followed by a slash or the end is read whole by %d |
| TimingReport.FieldOf | tests/gxtest/scrabble_timing_report.cpp:336-338 | std::to_string of n and a slash read back as n and the rest of the key (also lines 711-712) |
| TimingReport.LastOf | tests/gxtest/scrabble_timing_report.cpp:338 | std::to_string of n at the end of the key reads back as n (also lines 711-712) |
| TimingReport.VcbRoundTrip | tests/gxtest/scrabble_timing_report.cpp:336-338 | sscanf "%d/%d/%d" of a "v/c/b" key gives back the vowels, consonants and blanks it was made from (also lines 711-712) |
| TimingReport.VcbOrder | tests/gxtest/scrabble_timing_report.cpp:713-715 | the comparator on parsed keys is irreflexive, transitive and total, the strict weak order std::sort requires |
| TimingReport.KeyOrder | tests/gxtest/scrabble_timing_report.cpp:709-716 | two keys compare as their analyses' (blanks, vowels, consonants) in lexicographic order |
| Graphics.VramAddr | src/graphics.c:557 | put_tile's address is cut to uint16_t |
| Graphics.CellAddress | src/graphics.c:556-557 | on the 64 × 32 plane cell (x, y) has the even two-byte slot 0xC000 + 2(64y + x) below 0xD000, from which x and y read back |
| Graphics.CellsDistinct | src/graphics.c:556-557 | two different cells of the plane never share an address |
| Graphics.AttrFields | src/graphics.c:558 | a tile below 0x2000 and a palette below 8 read back out of the attribute word tile \| (pal << 13) |
| Graphics.Write | src/graphics.c:555-562 | one put_tile call writes the cell's address and then the attribute word |
| Graphics.Codes | src/graphics.c:582-585 | the character codes of a string, one per character |
| Graphics.CodesAppend | src/graphics.c:582-585 | the codes of a joined string are the joined codes |
| Graphics.RowAppend | src/graphics.c:582-585 | drawing one more character puts it one column after the others |
| Graphics.PrintableRow | src/graphics.c:575-585 | a row of printable codes puts code i at column x + i and nothing else |
| Graphics.RowConcat | src/graphics.c:582-585 | a row of a + b is the row of a followed by the row of b, |a| columns on |
| Graphics.RowBounds | src/graphics.c:575-585 | whatever the codes, a row stays on its line, within its columns, in its palette, and only characters 32..127 are drawn |
| Graphics.CString | src/graphics.c:583 | draw_string reads the characters before the first NUL |
| Graphics.Power | src/graphics.c:603 | the table of powers is positive and ends with 1 |
| Graphics.Nth | src/graphics.c:605-615 | a decimal digit is below 10 |
| Graphics.StepFacts | src/graphics.c:606-610 | the subtraction loop at step i counts how often the power fits in what is left, and leaves the remainder |
| Graphics.StepsRun | src/graphics.c:605-615 | after the first step the steps store the digits of the lower positions once one was nonzero |
| Graphics.RunBack | src/graphics.c:605-615 | the digits of n are those of n / 10 followed by its units, once a nonzero digit was met |
| Graphics.RunDecimal | src/graphics.c:599-615 | a positive number that fits the positions is stored as its decimal digits without leading zeros |
| Graphics.NumberDecimal | src/graphics.c:589-626 | for -100000 < num < 100000 draw_number writes num in decimal, with a '-' when it is negative |
| Graphics.NumberOverflow | src/graphics.c:603-615 | from 100000 on the first digit overflows past '9': 100000 is written ":0000" |
| Graphics.Clamp999 | src/graphics.c:663-664 | draw_number_3d clamps to 0..999 and keeps a number already in range |
| Graphics.ThreeDigits | src/graphics.c:665-674 | the two subtraction loops give the hundreds and the tens, and the units are what is left |
| Graphics.Number3dText | src/graphics.c:662-687 | draw_number_3d writes the clamped number right-aligned in three cells, spaces in front |
| Graphics.Row3 | src/graphics.c:676-686 | three characters written at x, x + 1 and x + 2 form one row |
| Graphics.SkipZeros | src/graphics.c:640-643 | the skip stops at the first digit that is not '0', or at the last digit |
| Graphics.SkipZerosAt | src/graphics.c:640-643 | the skip stops exactly there |
| Graphics.HexTextValue | src/graphics.c:629-649 | draw_hex writes one to eight upper-case hexadecimal digits reading back as num, with no leading zero unless num is 0 |
| Graphics.SkippedZeros | src/graphics.c:640-643 | the skipped digits are zeros, so dropping them keeps the value |
| Graphics.HexNCells | src/graphics.c:652-658 | draw_hex_n writes the n-digit zero-padded form of num, its rightmost digit first, digit k at column x + k |
| Graphics.HexNNext | src/graphics.c:654-657 | one pass of the loop puts the low digit at column x + i and goes on with num >> 4 |
| Graphics.HexNValue | src/graphics.c:652-658 | the n digits read back as num modulo 16^n: what they leave out is num >> 4n |
| Graphics.WordCellsFrom | src/graphics.c:851-862 | the word cells from j on: cell k is the word's character k in palette 1 when blank bit k is set and 0 otherwise, or a space once the word has ended |
| Graphics.WordCellsText | src/graphics.c:851-862 | the nine word cells of a history row, each as WordCell states |
| Graphics.WordCellsBounds | src/graphics.c:851-862 | the word cells lie in columns HISTORY_COL + 1 .. HISTORY_COL + 9 of their row, in palette 0 or 1 |
| Graphics.HexNBounds | src/graphics.c:652-658 | draw_hex_n stays within its n columns |
| Graphics.EntryInSidebar | src/graphics.c:847-872 | an entry row is drawn within columns 18..39 of its own row, in palette 0 or 1 |
| Graphics.LeftInSidebar | src/graphics.c:849-866 | the mark, the word and the score take columns 18..31 |
| Graphics.RightInSidebar | src/graphics.c:866-872 | the equity and frame digits take columns 32..39, in palette 0 |
| Graphics.RowInSidebar | src/graphics.c:843-878 | sidebar row i is drawn within columns 18..39 of line i |
| Graphics.SidebarBounds | src/graphics.c:842-879 | draw_history writes only rows 0..27, columns 18..39, palettes 0 and 1, printable characters |
| Graphics.HistoryWindow | src/graphics.c:837-878 | row i shows entry count - 28 + i when there are more than 28 entries, entry i while there is one, and is cleared otherwise |
| Graphics.ClearedCells | src/graphics.c:874-877 | a cleared row writes a space in palette 0 in each column 18..39 |
| Graphics.PlaneA.constructor | src/graphics.c:555-562 | a new trace of plane A writes is empty |
| Graphics.PlaneA.PutTile | src/graphics.c:555-562 | put_tile adds one write of the tile and palette at the cell |
| Graphics.PlaneA.DrawChar | src/graphics.c:575-579 | draw_char adds one write for a character 32..127 and none otherwise |
| Graphics.PlaneA.DrawString | src/graphics.c:582-586 | draw_string draws the characters before the NUL, one column apart |
| Graphics.PlaneA.DrawNumber | src/graphics.c:589-626 | draw_number draws what NumberCodes gives: the sign, then the digits found by repeated subtraction |
| Graphics.PlaneA.PrintBuf | src/graphics.c:622-625 | the print loop draws the first pos characters of the buffer |
| Graphics.PlaneA.DrawNumber3d | src/graphics.c:662-687 | draw_number_3d draws the three cells Number3dCodes gives |
| Graphics.PlaneA.DrawHex | src/graphics.c:629-649 | draw_hex draws HexText of num |
| Graphics.PlaneA.PrintChars | src/graphics.c:645-648 | the print loop draws the buffer from start on |
| Graphics.PlaneA.DrawHexN | src/graphics.c:652-658 | draw_hex_n draws the n digits, rightmost first |
| Graphics.PlaneA.DrawHistory | src/graphics.c:836-880 | draw_history draws the 28 sidebar rows top to bottom |
| Graphics.PlaneA.DrawRow | src/graphics.c:843-878 | one pass of the row loop draws row i |
| Graphics.PlaneA.DrawEntry | src/graphics.c:847-872 | one entry: mark, word, score, equity and frames |
| Graphics.PlaneA.DrawEntryLeft | src/graphics.c:849-866 | the mark ('>' for player 0, '<' otherwise), the word, the three-digit score and a space |
| Graphics.PlaneA.DrawEntryRight | src/graphics.c:868-872 | three hex digits of the equity cut to uint16_t, a space and four hex digits of the frame count |
| Graphics.PlaneA.DrawWord | src/graphics.c:851-862 | the nine word cells |
| Graphics.PlaneA.ClearRow | src/graphics.c:874-877 | spaces from column 18 to 39 |
| Graphics.Subtract | src/graphics.c:606-610 | the subtraction loop gives the step's digit and what is left |
| Graphics.Store | src/graphics.c:611-614 | a digit is stored once it or an earlier one was nonzero |
| Graphics.FillHex | src/graphics.c:634-637 | the buffer holds the eight-digit zero-padded hexadecimal of num |
| Graphics.FillNumber | src/graphics.c:590-616 | the sign and the stored digits are NumberCodes(num) |
| Graphics.SignedRow | src/graphics.c:618-625 | the '-' is drawn first and the digits one column further on |
| Graphics.Digits | src/graphics.c:599-616 | the buffer holds the digits the five steps store |
| Graphics.StepsNext | src/graphics.c:605-615 | one step of the digit loop stores its digit when due and leaves the rest to the later steps |
| LetterTile.GlyphIndex | src/graphics.c:398-404 | a character 32..127 gets its own glyph, code - 32; any other the space's; always one of the 96 |
| LetterTile.Bit | src/graphics.c:424-425 | column col of the glyph area reads bit 0x80 >> (col - 1) |
| LetterTile.Colour | src/graphics.c:412-430 | every pixel is transparent (0), cream (7) or black (8) |
| LetterTile.RowColours | src/graphics.c:411-432 | a row has eight colours |
| LetterTile.RowPacked | src/graphics.c:409-432 | the row's 32-bit pixel word is its eight colours packed four bits each, column 0 on top |
| LetterTile.Halves | src/graphics.c:433-434 | the high 16 bits of the word hold columns 0..3 and the low 16 bits columns 4..7 |
| LetterTile.WordNibble | src/graphics.c:431 | a nibble of a 16-bit word is below 16 |
| LetterTile.HalfNibbles | src/graphics.c:431-434 | each nibble of a written word is the colour put there |
| LetterTile.TileWords | src/graphics.c:408-435 | n rows write 2n data words |
| LetterTile.TilePrefix | src/graphics.c:408-435 | the words of the rows already written stay at the front of the tile |
| LetterTile.RowInTile | src/graphics.c:408-435 | words 2·row and 2·row + 1 of the tile are the high and low halves of the row's pixel word |
| LetterTile.TileColours | src/graphics.c:396-436 | every data word fits 16 bits, and nibble col % 4 of word 2·row + col / 4 is the colour of pixel (row, col): transparent on row 7 and column 7, cream on columns 0 and 6, black where the glyph bit is set and cream elsewhere |
| LetterTile.PixelColour | src/graphics.c:412-430 | the colour chosen inside the loops is Colour(row, col) |
| LetterTile.RowPixels | src/graphics.c:409-432 | the inner loop builds the row's pixel word |
| LetterTile.LoadLetterTile | src/graphics.c:396-436 | load_letter_tile sets the VRAM address tile_index * 32 cut to 16 bits and writes the 16 data words of the glyph's tile |
| History.EmptyEntry | src/main.c:153 | a zero-initialised entry of the static array has its 16-character word buffer |
| History.BitsAbove | src/main.c:173 | a mask below 1 << i has no bit from i up (also lines 201-203) |
| History.BitAdd | src/main.c:202 | setting bit i of a mask below 1 << i sets that bit and keeps the others |
| History.LetterChar | src/main.c:198-206 | a letter 1..26 is written 'A' + (letter - 1), anything else '?'; never a NUL |
| History.WordLen | src/main.c:176-177 | the recorded length is tiles_length, at most 15 |
| History.MaskBits | src/main.c:173 | after n letters the blanks mask is below 1 << n, and bit j is set exactly when letter j is a valid blanked letter (also lines 198-203) |
| History.Stamp | src/main.c:199-208 | writing the characters and the NUL keeps the 16-character buffer |
| History.StampedString | src/main.c:199-208 | read as a C string the buffer holds exactly the characters written |
| History.CStringPrefix | src/main.c:208 | a buffer with a NUL at k and none before reads as its first k characters |
| History.ExchangeLen | src/main.c:296-297 | an exchange records tiles_played letters, at most 14 |
| History.Exchanged | src/main.c:298-306 | one character per exchanged tile |
| History.RecordedWord | src/main.c:168-208 | the recorded word reads back as the move's letters, taken from the tile or, where the tile is not a letter, from the board square it plays through |
| History.RecordedBlanks | src/main.c:173 | bit j of the recorded blanks mask is set exactly when letter j is a blank, and the mask fits in 15 bits (also lines 198-206) |
| History.Pow2Grows | src/main.c:202 | 1 << i grows with i |
| History.SpellingChars | src/main.c:178-207 | the spelled word's characters are the LetterChar of each position's letter, none a NUL |
| History.ExchangeWord | src/main.c:294-312 | an exchange entry reads back as '-' followed by the first (at most 14) exchanged letters, with no blanks and a score of 0 |
| History.ExchangedChars | src/main.c:298-306 | each exchanged character is the LetterChar of its tile, none a NUL |
| History.SidebarWord | src/main.c:168-208 | what draw_history then shows for a recorded move: word cell j holds letter j, grey exactly when it is a blank, then spaces |
| History.SidebarExchange | src/main.c:294-312 | what draw_history then shows for an exchange: '-', the exchanged letters, none grey, then spaces |
| History.Log.constructor | src/main.c:153-154 | an empty history of 28 zeroed entries |
| History.Log.ShiftDown | src/main.c:161-166 | a full history moves every entry down one slot and keeps 27 |
| History.Log.AddToHistory | src/main.c:159-209 | add_to_history fills the next slot, or shifts a full history down and fills the last slot, with the recorded entry; every other slot is kept |
| History.Log.AddExchange | src/main.c:294-312 | the exchange entry fills the next slot while there is room; on a full history it overwrites the last slot without shifting |
| History.WriteNext | src/main.c:302-304 | writing one character extends what was written and keeps the rest of the buffer |
| History.SpellExchange | src/main.c:295-307 | the exchange loop writes '-', the letters and a NUL |
| History.Lookup | src/main.c:179-196 | the letter spelled at position i: the tile, or the board's letter where the tile is not a letter |
| History.Spell | src/main.c:176-208 | add_to_history's letter loop gives the word buffer and the blanks mask |

## Left out

- Hardware I/O is not modelled. This covers VDP register, port and palette writes, tile uploads, `read_controller`, `wait_vblank` and the main game loop with its restart in `src/main.c`. Plane A writes are modelled only as a trace of cells, and the history entries are produced only by the modelled `add_to_history` and exchange entry.
- Floating point is left out: `BucketStats::Mean`, `KLV::GetAverage6TileLeave`, histogram widths, speedups, and the tools that round floating-point leave values.
- The timing report's benchmark driver, HTML and JSON output are left out, and so are the emulator test drivers. These are process and emulator glue.
- The page templates and JavaScript views of `tools/split_asm.py` are left out. The parser never fills a Function's `asm_blocks` list, so that field is left out as well.
- The fontTools OTB reader and the BDF text regex in `tools/font_extract.py` are not modelled. Their output, a map from character code to bitmap, is taken as an input. Writing the C and JSON files is modelled as the produced rows.
- File reading and writing and `printf` in the native harnesses and in the converters are left out. The converters' output is modelled as the produced text.
- `Rack::Clear` in `tests/gxtest/klv.cpp` is not modelled separately. `KlvReader.Rack.FromString` starts from an empty rack, which is its only use.
- The leave-lookup walk that `tests/test_klv.c` repeats (its `klv_get_word_index` and `klv_get_leave_value`) is the same code as `src/klv.c`, so it is modelled once, by `Klv.Klv`. Only its loader and its memoised word counts are modelled on their own, in `KlvNative`.
- The shadow bound is not proved sound, and the anchor-heap cutoff is not proved correct. The source itself warns that the bound may underestimate.
- Kwg members assume a well-formed lexicon, `KwgNode.WellFormed`: at least two nodes, every arc inside the array, and a last node marked IS_END. Some lemmas also assume `Kwg.DistinctRuns`, which says that no tile repeats within a sibling run. The C code checks neither.
- Klv.Klv.Init: requires that the image holds every byte its header announces, and that kwg_size fits the 2500-node ROM buffer. `klv_init` checks neither and would read past the image or overflow the buffer.
- Klv.Klv.ComputeWordCounts: takes a `fuel` bound on the number of passes. It promises the fixpoint equation only when it reports settled. The C do-while has no bound.
- KlvReader.Klv.ComputeWordCounts: like Klv.Klv.ComputeWordCounts, it takes a `fuel` bound and promises the fixpoint only when settled.
- KlvReader.Klv.Load: passes its `fuel` bound on to ComputeWordCounts, with the same weakening.
- LeaveMaps.LeaveMap.TakeLetter: requires the bit index to be below 31, because a shift by 31 or more of a C `int` is undefined.
- LeaveMaps.LeaveMap.AddLetter: requires the bit index to be below 31, for the same reason.
- Game.Rng.Seed: requires the seed to fit in 32 bits, which is the width of the C parameter.
- Game.Rng.Range: requires n below 0x10000, which is the width of the C parameter.
- Game.Rack.AddTile: preserves `total == Σ counts` only while the total is below 255. A uint8 wrap beyond that is modelled but not proved harmless.
- Turns.Restock: states the bag's multiset and count, not the order of its tiles or the generator's state after the shuffle; Game.Bag.Shuffle and Game.Bag.ReturnTiles state those.
- Turns.SwapTiles: states the bag's multiset and count, not the order of its tiles or the generator's state after the shuffle; Game.Bag.Shuffle and Game.Bag.ReturnTiles state those.
- Turns.GameState.Exchange: states the bag's multiset and count, not the order of its tiles or the generator's state after the shuffle; Game.Bag.Shuffle and Game.Bag.ReturnTiles state those.
- Turns.GameState.FillBag: states the bag's multiset and count, not the order of its tiles or the generator's state after the shuffle; Game.Bag.Shuffle and Game.Bag.ReturnTiles state those.
- Turns.PutBack: requires the rack total plus the returned tiles to stay below 256, so that no uint8 counter wraps.
- KlvReader.AddThenRemove: requires the letter's count to be below 255, so that the uint8 counter does not wrap.
- KlvReader.TallySum: requires the string to hold fewer than 256 recognised letters, so that no uint8 counter wraps.
- History.Log.AddToHistory: requires the frame count to fit the entry's 16-bit field.
- Graphics.PlaneA.DrawNumber: requires |num| < 2^31, because negating INT_MIN is undefined in C.
- MovegenGen.RecordedScore: does not wrap the recorded score, word contribution or equity to int16. The ROM's own ranges keep them far below 32767.
- AsmListing.Classify: tests instruction lines with the greedy hex group, AsmText.MatchAsm, not the lazy group as written at tools/split_asm.py:105 (see Findings). On a line with two or more hex words the script as written puts every word after the first into the instruction text.
- AsmListing.Step: classifies with AsmListing.Classify, so it uses the greedy hex group too.
- AsmListing.Run: classifies with AsmListing.Classify, so it uses the greedy hex group too.
- AsmListing.Parse: classifies with AsmListing.Classify, so it uses the greedy hex group too.
- AsmListing.ParseObjdump: classifies with AsmListing.Classify, so it uses the greedy hex group too.
- AsmListing.ParseLine: classifies with AsmListing.Classify, so it uses the greedy hex group too.
- AsmListing.InstrOf: reads an instruction line with the greedy hex group as AsmListing.Classify does, so the instructions it collects follow the corrected pattern too.
- FontExtract.Lower: lower-cases the ASCII capitals only. Python's `str.lower()` also lower-cases other Unicode letters and can lengthen the text ('İ' becomes two characters). No non-ASCII character lowers to '.', 'b', 'd' or 'f', so the comparison with ".bdf" comes out the same.
- AsmText.IsDigit: accepts only the ASCII digits. Python's `\d` in a str pattern also matches the other Unicode decimal digits, which objdump does not print.
- KlvNative.NativeKlv.Load: requires the image to hold the header and the kwg_size words its first field announces. `load_klv` in `tests/test_klv.c` checks neither and would read past the buffer. Its sizes are unbounded naturals, where the C fields are uint32.
- MovegenScores.StandardEndgameAdjustment: its contract gives the sign and the bounds of the adjustment, not the exact value.
- MovegenGen.MoveGen.CurrentLeave: reads the leave of the tiles still on the rack, which is the corrected reading (see Findings). The leave-map index arithmetic as the C code drives it is modelled in LeaveMaps.
- Scoring.ScoreMove: reads the vertical cross scores at the transposed index, which is the corrected reading (see Findings).
- Turns.GameState.constructor: does not state that its arrays are fresh. The constructor builds them itself.
- The native harnesses `test_native.c`, `test_batch.c` and `test_gamepairs.c` are not part of this model. They do not match the current headers.
- Tests that depend on the real NWL23 lexicon and leave data cannot be stated without that data.

## Findings

| source | as written | input that shows it | evidently intended | confidence | as-written member | corrected member |
|---|---|---|---|---|---|---|
| src/game.c:180-185 | for a vertical move, `score_move` reads the perpendicular cross score at `v_cross_scores[row*15+col]`, but `src/board.c` stores it at `[col*15+row]` | a T at (5,1); U,T played down column 0 from (5,0) | the cross word UT counts, so the move scores 4 | high, not executed | Scoring.TableCrossAsWritten, Scoring.VerticalCrossMisread (scores 2) | Scoring.ScoreMove, Scoring.TableCrossIsPerpCross |
| src/movegen.c:611-621 | `remove_score_from_descending` (lines 503-515) is called after `rack.total--`, so it searches only the first `count` slots of a list that has `count+1` | list [80, 8], count 1, score 8 | the 8 is removed | high, not executed | ShadowLists.RemoveAsWritten, ShadowLists.RemoveMissesLastSlot (list unchanged) | ShadowLists.RemoveScore, ShadowLists.RemoveScoreRemovesOne |
| tools/split_asm.py:105 | the instruction pattern's hex-bytes group is lazy, so only the first hex word is taken as the bytes | `100:\t4e56 0000\tlinkw` | bytes `4e56 0000`, instruction `linkw` | high, not executed | AsmText.MatchAsmAsWritten, AsmText.LazyGroupSplitsHexWords | AsmText.MatchAsm, AsmText.GreedyGroupKeepsHexWords |
| tools/font_extract.py:215-216 | for a glyph wider than 8 the row is shifted right by `width-8` and then masked, which keeps the 8 stored pixels from StoredBits(w) - w on (pixels 6..13 of the 16 stored bits for width 10) instead of pixels 0..7 whenever w is not a multiple of 8 | width 10, row 0xFFC0 | the first 8 pixels, 0xFF | medium, not executed | FontExtract.MaskWindow, FontExtract.TenPixelRowLosesLeftPixels (gives 0xF0) | FontExtract.LeftmostByte, FontExtract.LeftmostKeepsFirstPixels |
| tests/gxtest/klv.cpp:181-187 | `IncrementToLetter` reads `word_counts_[node_index+1]` before it checks that `node_index+1` is in range | nodes [1, 0x01000000], letter 2 from node 1 | no read beyond the last node | high, not executed | KlvReader.OverReadExample (reads index 2 of a 2-element vector) | KlvReader.CheckedReadsInBounds |
| src/klv.c:311 | `leave_map_init` leaves `current_index` at 0, and `leave_map_take_letter` (inc/klv.h:104-109) clears a bit, so the first tile taken leaves the index at 0, which is the whole rack's slot | rack AB, play A | the leave value of B | medium, not executed | LeaveMaps.FirstTakeKeepsWholeRack, LeaveMaps.LeaveMap.FirstTakeAsWritten | MovegenGen.MoveGen.CurrentLeave |
