// The move generator's row cache, best-move recording and backtracking
// search of src/movegen.c: cache_row, record_move, go_on, recursive_gen and
// gen_for_anchor over the state they share in MoveGenState.
module MovegenGen {
  import opened Defs
  import opened Equity
  import opened Wrappers
  import opened KwgNode
  import opened Scoring
  import opened MovegenScores
  import opened MovegenBest
  import B = Board
  import opened BoardTables
  import K = Klv

  // ---------------------------------------------------------------------
  // Anchors

  /** Square col of line `row` in board coordinates: the vertical lines are
    * the board's columns. */
  function SquareRow(dir: int, row: int, col: int): int { if dir == DIR_H then row else col }
  function SquareCol(dir: int, row: int, col: int): int { if dir == DIR_H then col else row }

  predicate OccupiedAt(L: seq<MachineLetter>, r: int, c: int)
    requires |L| == BOARD_SIZE
  {
    B.OnBoard(r, c) && L[B.Idx(r, c)] != EMPTY_SQUARE
  }

  /** An anchor: an empty square with a tile above, below, left or right of
    * it, or the centre square while no tile has been played. */
  predicate IsAnchor(L: seq<MachineLetter>, tilesPlayed: int, r: int, c: int)
    requires |L| == BOARD_SIZE && B.OnBoard(r, c)
  {
    L[B.Idx(r, c)] == EMPTY_SQUARE &&
    (OccupiedAt(L, r - 1, c) || OccupiedAt(L, r + 1, c) || OccupiedAt(L, r, c - 1) ||
     OccupiedAt(L, r, c + 1) || (r == 7 && c == 7 && tilesPlayed == 0))
  }

  /** On an empty board the only anchor is the centre, and only before the
    * first tile is counted. */
  lemma EmptyBoardAnchors(L: seq<MachineLetter>, tilesPlayed: int, r: int, c: int)
    requires |L| == BOARD_SIZE && B.OnBoard(r, c)
    requires forall p :: 0 <= p < BOARD_SIZE ==> L[p] == EMPTY_SQUARE
    ensures IsAnchor(L, tilesPlayed, r, c) <==> r == 7 && c == 7 && tilesPlayed == 0
  {
    assert !OccupiedAt(L, r - 1, c) && !OccupiedAt(L, r + 1, c);
    assert !OccupiedAt(L, r, c - 1) && !OccupiedAt(L, r, c + 1);
  }

  // ---------------------------------------------------------------------
  // Running sums

  /** main_word_score, cross_score and word_multiplier. */
  datatype Sums = Sums(main: int, cross: int, wordMult: int)

  /** The sums in eighths that score_move's tally in points corresponds to. */
  function InEighths(t: Tally): Sums
  {
    Sums(ToEighths(t.main), ToEighths(t.cross), t.wordMult)
  }

  /** What go_on adds for one square: a fresh tile counts its score times the
    * letter multiplier, multiplies the word, and when the square's cross
    * score x is not negative adds the cross word times the word multiplier;
    * a played-through tile counts its score once. */
  function GoStep(s: Sums, letter: MachineLetter, isFresh: bool, b: Bonus, x: int): Sums
    requires IsBlanked(letter) || IsLetter(letter)
  {
    var lm := if isFresh then LetterMult(b) else 1;
    var wm := if isFresh then WordMult(b) else 1;
    var v := MultSmall(GetTileScore(letter), lm);
    Sums(s.main + v, s.cross + (if isFresh && x >= 0 then MultSmall(v + x, wm) else 0), MultSmall(s.wordMult, wm))
  }

  /** The generator's step is score_move's AddTile in eighths: a fresh tile
    * is AddTile of the letter on an empty square, a played-through one is
    * AddTile of the marker over the letter already there. */
  lemma GoStepIsTally(t: Tally, letter: MachineLetter, isFresh: bool, b: Bonus, x: int)
    requires IsBlanked(letter) || IsLetter(letter)
    requires letter != PLAYED_THROUGH
    ensures GoStep(InEighths(t), letter, isFresh, b, ToEighths(x)) ==
      InEighths(if isFresh then AddTile(t, letter, EMPTY_SQUARE, b, x) else AddTile(t, PLAYED_THROUGH, letter, b, x))
  {
    var lm := if isFresh then LetterMult(b) else 1;
    var wm := if isFresh then WordMult(b) else 1;
    var tv := TileValue(letter);
    MultSmallIsProduct(8 * tv, lm);
    MultSmallIsProduct(t.wordMult, wm);
    var v := 8 * tv * lm;
    assert v == 8 * (tv * lm);
    MultSmallIsProduct(v + 8 * x, wm);
    assert (v + 8 * x) * wm == 8 * ((tv * lm + x) * wm);
  }

  /** A move's score from the sums, as record_move forms it: the main word
    * times the word multiplier, the cross words, and the 50-point bingo in
    * eighths when all seven tiles are played. */
  function RecordedScore(s: Sums, tilesPlayed: int): (r: int)
    ensures s.main >= 0 && s.cross >= 0 && s.wordMult >= 1 ==> r >= s.main + s.cross
    ensures tilesPlayed == RACK_SIZE ==> r - ToEighths(BINGO_BONUS) == s.main * s.wordMult + s.cross
  {
    s.main * s.wordMult + s.cross + (if tilesPlayed == RACK_SIZE then ToEighths(BINGO_BONUS) else 0)
  }

  /** In eighths, the recorded score is eight times score_move's score. */
  lemma RecordedScoreInEighths(t: Tally)
    ensures RecordedScore(InEighths(t), t.placed) ==
      ToEighths(t.main * t.wordMult + t.cross + (if t.placed == RACK_SIZE then BINGO_BONUS else 0))
  {
    assert ToEighths(t.main) * t.wordMult == ToEighths(t.main * t.wordMult);
  }

  // ---------------------------------------------------------------------
  // Equity adjustments

  /** The KLV the leave map is built from: its DAWG, word counts and leave
    * values. */
  datatype LeaveTable = LeaveTable(nodes: seq<Node>, wordCounts: seq<nat>, leaves: seq<Byte>)

  /** leave_map_get_current: the leave map caches the KLV's leave value of
    * every sub-rack of the rack it was built from, so the current value is
    * that of the rack that is left. A table that cannot index the rack
    * gives 0. */
  function LeaveOf(t: LeaveTable, counts: seq<nat>): int
    requires |counts| == ALPHABET_SIZE
  {
    if KwgNode.WellFormed(t.nodes) && |t.wordCounts| == |t.nodes| &&
       K.LeaveInRange(t.leaves, K.WordIndexOf(t.nodes, t.wordCounts, counts))
    then K.LeaveValueOf(t.nodes, t.wordCounts, t.leaves, counts)
    else 0
  }

  /** The penalty of the square at index `at` of the penalty table when tile
    * goes there: only vowels are penalised, played-through tiles never. */
  function PenaltyFor(penalties: seq<int>, isVowel: seq<bool>, at: int, tile: MachineLetter): int
    requires |isVowel| == ALPHABET_SIZE && 0 <= at < |penalties|
  {
    if tile != PLAYED_THROUGH && Unblanked(tile) < ALPHABET_SIZE && isVowel[Unblanked(tile)]
    then penalties[at] else 0
  }

  /** placement_adjustment of the tiles laid from index `base` of the penalty
    * table on. */
  function Placement(penalties: seq<int>, isVowel: seq<bool>, base: int, tiles: seq<MachineLetter>): int
    requires |isVowel| == ALPHABET_SIZE && 0 <= base && base + |tiles| <= |penalties|
    decreases |tiles|
  {
    if |tiles| == 0 then 0
    else (Placement(penalties, isVowel, base, tiles[..|tiles| - 1]) +
          PenaltyFor(penalties, isVowel, base + |tiles| - 1, tiles[|tiles| - 1]))
  }

  /** The adjustment of a word is the sum over any split of its tiles. */
  lemma {:induction false} PlacementSplit(penalties: seq<int>, isVowel: seq<bool>, base: int,
                                          a: seq<MachineLetter>, b: seq<MachineLetter>)
    requires |isVowel| == ALPHABET_SIZE && 0 <= base && base + |a| + |b| <= |penalties|
    ensures Placement(penalties, isVowel, base, a + b) ==
      Placement(penalties, isVowel, base, a) + Placement(penalties, isVowel, base + |a|, b)
    decreases |b|
  {
    if |b| == 0 {
      assert a + b == a;
    } else {
      var b' := b[..|b| - 1];
      assert (a + b)[..|a + b| - 1] == a + b';
      PlacementSplit(penalties, isVowel, base, a, b');
    }
  }

  /** A word without vowels costs nothing on the opening move. */
  lemma {:induction false} PlacementWithoutVowels(penalties: seq<int>, isVowel: seq<bool>, base: int,
                                                  tiles: seq<MachineLetter>)
    requires |isVowel| == ALPHABET_SIZE && 0 <= base && base + |tiles| <= |penalties|
    requires forall i :: 0 <= i < |tiles| && Unblanked(tiles[i]) < ALPHABET_SIZE ==> !isVowel[Unblanked(tiles[i])]
    ensures Placement(penalties, isVowel, base, tiles) == 0
    decreases |tiles|
  {
    if |tiles| > 0 {
      PlacementWithoutVowels(penalties, isVowel, base, tiles[..|tiles| - 1]);
    }
  }

  // ---------------------------------------------------------------------
  // The best move so far

  /** The stored best beats or ties every recorded move whose equity is above
    * the INITIAL sentinel; while the sentinel stands there is none. */
  ghost predicate BestOver(recorded: seq<Move>, bestEquity: int, best: Move)
  {
    (bestEquity != INITIAL ==> WellFormedMove(best) && best.equity == bestEquity) &&
    forall m :: m in recorded ==> (WellFormedMove(m) &&
      (m.equity > INITIAL ==> bestEquity != INITIAL && !Better(m, best)))
  }

  /** Recording a move that is preferred (or the first) keeps the best maximal. */
  lemma RecordReplaces(recorded: seq<Move>, bestEquity: int, best: Move, cand: Move, best': Move)
    requires BestOver(recorded, bestEquity, best) && WellFormedMove(cand) && WellFormedMove(best')
    requires bestEquity == INITIAL || Better(cand, best)
    requires Key(best') == Key(cand) && best'.equity == cand.equity
    ensures BestOver(recorded + [cand], cand.equity, best')
  {
    forall m | m in recorded + [cand] && m.equity > INITIAL
      ensures cand.equity != INITIAL && !Better(m, best')
    {
      if m == cand {
        LexIrreflexive(Key(cand));
      } else {
        assert m in recorded;
        assert bestEquity != INITIAL && !Better(m, best);
        BetterByField(m, best);
        if cand.equity == INITIAL {
          BetterByField(cand, best);
          assert false;
        }
        if Better(m, best') {
          BetterIsStrictOrder(m, cand, best);
        }
      }
    }
  }

  /** Recording a move that is not preferred leaves the best maximal. */
  lemma RecordKeeps(recorded: seq<Move>, bestEquity: int, best: Move, cand: Move)
    requires BestOver(recorded, bestEquity, best) && WellFormedMove(cand)
    requires bestEquity != INITIAL && !Better(cand, best)
    ensures BestOver(recorded + [cand], bestEquity, best)
  {
  }

  /** One step of record_move keeps the best maximal, whichever way the
    * comparison went. */
  lemma RecordStep(recorded: seq<Move>, bestEquity: int, best: Move, m: Move, better: bool, best': Move)
    requires BestOver(recorded, bestEquity, best) && WellFormedMove(m) && m.tilesLength == |m.tiles|
    requires |best.tiles| == MAX_MOVE_TILES && m.tilesLength <= MAX_MOVE_TILES
    requires better == (bestEquity == INITIAL || Better(m, best))
    requires best' == if better then m.(tiles := m.tiles + best.tiles[m.tilesLength..]) else best
    ensures BestOver(recorded + [m], if better then m.equity else bestEquity, best')
    ensures |best'.tiles| == MAX_MOVE_TILES
    ensures better ==> WellFormedMove(best') && Key(best') == Key(m)
  {
    if better {
      assert TilesOf(best') == m.tiles;
      RecordReplaces(recorded, bestEquity, best, m, best');
    } else {
      RecordKeeps(recorded, bestEquity, best, m);
    }
  }

  // ---------------------------------------------------------------------
  // The generator state

  /** The fields the search reads but never changes. */
  datatype Config = Config(anchorCol: int, lastAnchorCol: int, currentRow: int, dir: int,
                           leftExtSet: CrossSet, rightExtSet: CrossSet)

  /** The fields every tried tile restores. */
  datatype Acc = Acc(rackTotal: nat, tilesPlayed: nat, sums: Sums)

  /** rank of a column in the order the search visits it: leftwards from the
    * anchor, then rightwards after it. */
  function Rank(anchorCol: int, col: int): int
  {
    if col <= anchorCol then anchorCol - col else BOARD_DIM + col
  }

  class MoveGen {
    /** The lexicon, whether there is a KLV (it may be NULL) and its leave
      * table, the opponent's rack, the tiles in the bag, and the board's
      * tiles_played field, which the anchor test and the opening placement
      * read (a field apart from the tile count the board keeps). */
    const kwg: seq<Node>
    const hasKlv: bool
    const klv: LeaveTable
    const oppRack: Option<RackCounts>
    const tilesInBag: int
    const boardTilesPlayed: int
    /** The board's opening_move_penalties, the horizontal line's squares
      * then the vertical line's, and the IS_VOWEL table. */
    const openingPenalties: seq<int>
    const isVowel: seq<bool>

    const rackCounts: array<nat>
    var rackTotal: nat
    const strip: array<MachineLetter>
    var tilesPlayed: nat
    var mainWordScore: int
    var crossScore: int
    var wordMultiplier: int

    const rowLetters: array<MachineLetter>
    const rowCrossSets: array<CrossSet>
    const rowCrossScores: array<int>
    const rowLeftx: array<CrossSet>
    const rowRightx: array<CrossSet>
    const rowBonuses: array<Bonus>
    const rowIsAnchor: array<bool>
    var currentRow: int
    var dir: int
    var anchorCol: int
    var lastAnchorCol: int
    var leftExtSet: CrossSet
    var rightExtSet: CrossSet

    var moveCount: nat
    var bestEquity: int
    var best: Move
    /** Every move record_move has been handed. */
    ghost var recorded: seq<Move>

    ghost function Cfg(): Config
      reads this`anchorCol, this`lastAnchorCol, this`currentRow, this`dir, this`leftExtSet, this`rightExtSet
    {
      Config(anchorCol, lastAnchorCol, currentRow, dir, leftExtSet, rightExtSet)
    }

    ghost function Accs(): Acc
      reads this`rackTotal, this`tilesPlayed, this`mainWordScore, this`crossScore, this`wordMultiplier
    {
      Acc(rackTotal, tilesPlayed, Sums(mainWordScore, crossScore, wordMultiplier))
    }

    ghost predicate Shapes()
    {
      rackCounts.Length == ALPHABET_SIZE && strip.Length == BOARD_DIM &&
      rowLetters.Length == BOARD_DIM && rowCrossSets.Length == BOARD_DIM &&
      rowCrossScores.Length == BOARD_DIM && rowLeftx.Length == BOARD_DIM &&
      rowRightx.Length == BOARD_DIM && rowBonuses.Length == BOARD_DIM &&
      rowIsAnchor.Length == BOARD_DIM && strip != rowLetters &&
      rowCrossSets != rowLeftx && rowCrossSets != rowRightx && rowLeftx != rowRightx &&
      |openingPenalties| == 2 * BOARD_DIM && |isVowel| == ALPHABET_SIZE &&
      (oppRack.Some? ==> MovegenScores.WellFormed(oppRack.value))
    }

    /** The lexicon's scans end in bounds and its tiles are letters. */
    ghost predicate Lexicon()
    {
      KwgNode.WellFormed(kwg) && forall i :: 0 <= i < |kwg| ==> Tile(kwg[i]) < ALPHABET_SIZE
    }

    /** The cached squares hold letters. */
    ghost predicate RowOk()
      reads rowLetters
    {
      forall c :: 0 <= c < rowLetters.Length ==> IsBlanked(rowLetters[c]) || IsLetter(rowLetters[c])
    }

    /** The line and the anchor are on the board. */
    ghost predicate LineOk()
      reads this`dir, this`currentRow, this`anchorCol, this`lastAnchorCol
    {
      (dir == DIR_H || dir == DIR_V) && 0 <= currentRow < BOARD_DIM &&
      0 <= anchorCol < BOARD_DIM && 0 <= lastAnchorCol <= BOARD_DIM
    }

    /** The best move is maximal among those recorded. */
    ghost predicate BestOk()
      reads this`best, this`recorded, this`bestEquity
    {
      |best.tiles| == MAX_MOVE_TILES && BestOver(recorded, bestEquity, best)
    }

    /** What the search needs. */
    ghost predicate Ready()
      reads this`dir, this`currentRow, this`anchorCol, this`lastAnchorCol
      reads this`best, this`recorded, this`bestEquity, rowLetters
    {
      Shapes() && Lexicon() && RowOk() && LineOk() && BestOk()
    }

    constructor (kwg: seq<Node>, hasKlv: bool, klv: LeaveTable, oppRack: Option<RackCounts>,
                 tilesInBag: int, boardTilesPlayed: int,
                 openingPenalties: seq<int>, isVowel: seq<bool>,
                 rack: seq<nat>, rackTotal: nat, bestMove: Move)
      requires |rack| == ALPHABET_SIZE && |bestMove.tiles| == MAX_MOVE_TILES
      requires |openingPenalties| == 2 * BOARD_DIM && |isVowel| == ALPHABET_SIZE
      requires oppRack.Some? ==> MovegenScores.WellFormed(oppRack.value)
      ensures Shapes() && rackCounts[..] == rack && this.rackTotal == rackTotal
      ensures bestEquity == INITIAL && best == bestMove && moveCount == 0 && recorded == []
      ensures this.kwg == kwg && this.hasKlv == hasKlv && this.klv == klv && this.oppRack == oppRack
      ensures fresh(rackCounts) && fresh(strip) && fresh(rowLetters) && fresh(rowBonuses)
    {
      this.kwg := kwg;
      this.hasKlv := hasKlv;
      this.klv := klv;
      this.oppRack := oppRack;
      this.tilesInBag := tilesInBag;
      this.boardTilesPlayed := boardTilesPlayed;
      this.openingPenalties := openingPenalties;
      this.isVowel := isVowel;
      rackCounts := new nat[ALPHABET_SIZE](i requires 0 <= i < ALPHABET_SIZE => rack[i]);
      this.rackTotal := rackTotal;
      strip := new MachineLetter[BOARD_DIM](_ => EMPTY_SQUARE);
      rowLetters := new MachineLetter[BOARD_DIM](_ => EMPTY_SQUARE);
      rowCrossSets := new CrossSet[BOARD_DIM](_ => TRIVIAL_CROSS_SET);
      rowCrossScores := new int[BOARD_DIM](_ => 0);
      rowLeftx := new CrossSet[BOARD_DIM](_ => TRIVIAL_CROSS_SET);
      rowRightx := new CrossSet[BOARD_DIM](_ => TRIVIAL_CROSS_SET);
      rowBonuses := new Bonus[BOARD_DIM](_ => BONUS_NONE);
      rowIsAnchor := new bool[BOARD_DIM](_ => false);
      tilesPlayed := 0;
      mainWordScore := 0;
      crossScore := 0;
      wordMultiplier := 1;
      currentRow := 0;
      dir := DIR_H;
      anchorCol := 0;
      lastAnchorCol := BOARD_DIM;
      leftExtSet := TRIVIAL_CROSS_SET;
      rightExtSet := TRIVIAL_CROSS_SET;
      moveCount := 0;
      bestEquity := INITIAL;
      best := bestMove;
      recorded := [];
    }

    // -------------------------------------------------------------------
    // cache_row

    /**
     * cache_row: the line's letters, cross sets, cross scores and extension
     * sets from the board's view for the direction, the bonuses read through
     * the transpose, and an anchor flag per square.
     */
    method CacheRow(board: B.Board, row: int, d: int)
      requires Shapes() && board.Valid() && 0 <= row < BOARD_DIM && (d == DIR_H || d == DIR_V)
      requires rowLetters != board.hLetters && rowLetters != board.vLetters && rowBonuses != board.bonuses
      modifies this`currentRow, this`dir, rowLetters, rowCrossSets, rowCrossScores, rowLeftx, rowRightx, rowBonuses, rowIsAnchor
      ensures currentRow == row && dir == d
      ensures anchorCol == old(anchorCol) && lastAnchorCol == old(lastAnchorCol)
      ensures leftExtSet == old(leftExtSet) && rightExtSet == old(rightExtSet)
      ensures Accs() == old(Accs()) && bestEquity == old(bestEquity) && best == old(best)
      ensures recorded == old(recorded) && moveCount == old(moveCount)
      ensures forall c :: 0 <= c < BOARD_DIM ==>
        rowLetters[c] == board.hLetters[B.Idx(SquareRow(d, row, c), SquareCol(d, row, c))]
      ensures forall c :: 0 <= c < BOARD_DIM ==>
        var sq := if d == DIR_H then board.hSquares[B.Idx(row, c)] else board.vSquares[B.Idx(row, c)];
        rowCrossSets[c] == sq.cross && rowCrossScores[c] == sq.score &&
        rowLeftx[c] == sq.leftx && rowRightx[c] == sq.rightx
      ensures forall c :: 0 <= c < BOARD_DIM ==>
        rowBonuses[c] == board.bonuses[B.Idx(SquareRow(d, row, c), SquareCol(d, row, c))]
      ensures forall c :: 0 <= c < BOARD_DIM ==>
        rowIsAnchor[c] == IsAnchor(board.hLetters[..], boardTilesPlayed, SquareRow(d, row, c), SquareCol(d, row, c))
    {
      FillRow(board, row, d);
      currentRow, dir := row, d;
    }

    /** The arrays of the row cache filled for the line. */
    method FillRow(board: B.Board, row: int, d: int)
      requires Shapes() && board.Valid() && 0 <= row < BOARD_DIM && (d == DIR_H || d == DIR_V)
      requires rowLetters != board.hLetters && rowLetters != board.vLetters && rowBonuses != board.bonuses
      modifies rowLetters, rowCrossSets, rowCrossScores, rowLeftx, rowRightx, rowBonuses, rowIsAnchor
      ensures forall c :: 0 <= c < BOARD_DIM ==>
        rowLetters[c] == board.hLetters[B.Idx(SquareRow(d, row, c), SquareCol(d, row, c))]
      ensures forall c :: 0 <= c < BOARD_DIM ==>
        var sq := if d == DIR_H then board.hSquares[B.Idx(row, c)] else board.vSquares[B.Idx(row, c)];
        rowCrossSets[c] == sq.cross && rowCrossScores[c] == sq.score &&
        rowLeftx[c] == sq.leftx && rowRightx[c] == sq.rightx
      ensures forall c :: 0 <= c < BOARD_DIM ==>
        rowBonuses[c] == board.bonuses[B.Idx(SquareRow(d, row, c), SquareCol(d, row, c))]
      ensures forall c :: 0 <= c < BOARD_DIM ==>
        rowIsAnchor[c] == IsAnchor(board.hLetters[..], boardTilesPlayed, SquareRow(d, row, c), SquareCol(d, row, c))
    {
      CopyRow(board, row, d);
      MarkAnchors(board, row, d);
    }

    /** The USE_ROW_CACHE copy loop of cache_row. */
    method CopyRow(board: B.Board, row: int, d: int)
      requires Shapes() && board.Valid() && 0 <= row < BOARD_DIM && (d == DIR_H || d == DIR_V)
      requires rowLetters != board.hLetters && rowLetters != board.vLetters
      modifies rowLetters, rowCrossSets, rowCrossScores, rowLeftx, rowRightx
      ensures forall c :: 0 <= c < BOARD_DIM ==>
        rowLetters[c] == board.hLetters[B.Idx(SquareRow(d, row, c), SquareCol(d, row, c))]
      ensures forall c :: 0 <= c < BOARD_DIM ==>
        var sq := if d == DIR_H then board.hSquares[B.Idx(row, c)] else board.vSquares[B.Idx(row, c)];
        rowCrossSets[c] == sq.cross && rowCrossScores[c] == sq.score &&
        rowLeftx[c] == sq.leftx && rowRightx[c] == sq.rightx
    {
      CopyLetters(board, row, d);
      var squares := if d == DIR_H then board.hSquares else board.vSquares;
      CopySquares(squares, row);
    }

    /** The letters of the line, read from the view for the direction. */
    method CopyLetters(board: B.Board, row: int, d: int)
      requires rowLetters.Length == BOARD_DIM && board.Valid() && 0 <= row < BOARD_DIM && (d == DIR_H || d == DIR_V)
      requires rowLetters != board.hLetters && rowLetters != board.vLetters
      modifies rowLetters
      ensures forall c :: 0 <= c < BOARD_DIM ==>
        rowLetters[c] == board.hLetters[B.Idx(SquareRow(d, row, c), SquareCol(d, row, c))]
    {
      var letters := if d == DIR_H then board.hLetters else board.vLetters;
      var c := 0;
      while c < BOARD_DIM
        invariant 0 <= c <= BOARD_DIM
        invariant forall k :: 0 <= k < c ==>
          rowLetters[k] == board.hLetters[B.Idx(SquareRow(d, row, k), SquareCol(d, row, k))]
      {
        var idx := B.Idx(row, c);
        rowLetters[c] := letters[idx];
        assert letters[idx] == board.hLetters[B.Idx(SquareRow(d, row, c), SquareCol(d, row, c))];
        c := c + 1;
      }
    }

    /** The cross sets, cross scores and extension sets of the line. */
    method CopySquares(squares: array<B.SquareSets>, row: int)
      requires Shapes() && squares.Length == BOARD_SIZE && 0 <= row < BOARD_DIM
      modifies rowCrossSets, rowCrossScores, rowLeftx, rowRightx
      ensures forall c :: 0 <= c < BOARD_DIM ==>
        rowCrossSets[c] == squares[B.Idx(row, c)].cross && rowCrossScores[c] == squares[B.Idx(row, c)].score &&
        rowLeftx[c] == squares[B.Idx(row, c)].leftx && rowRightx[c] == squares[B.Idx(row, c)].rightx
    {
      var c := 0;
      while c < BOARD_DIM
        invariant 0 <= c <= BOARD_DIM
        invariant forall k :: 0 <= k < c ==>
          rowCrossSets[k] == squares[B.Idx(row, k)].cross && rowCrossScores[k] == squares[B.Idx(row, k)].score &&
          rowLeftx[k] == squares[B.Idx(row, k)].leftx && rowRightx[k] == squares[B.Idx(row, k)].rightx
      {
        var sq := squares[B.Idx(row, c)];
        rowCrossSets[c] := sq.cross;
        rowCrossScores[c] := sq.score;
        rowLeftx[c] := sq.leftx;
        rowRightx[c] := sq.rightx;
        c := c + 1;
      }
    }

    /** The per-column loops of cache_row: the transposed bonus and the
      * anchor test, which reads the four neighbours in the horizontal view. */
    method MarkAnchors(board: B.Board, row: int, d: int)
      requires Shapes() && board.Valid() && 0 <= row < BOARD_DIM && (d == DIR_H || d == DIR_V)
      requires rowBonuses != board.bonuses
      modifies rowBonuses, rowIsAnchor
      ensures forall c :: 0 <= c < BOARD_DIM ==>
        rowBonuses[c] == board.bonuses[B.Idx(SquareRow(d, row, c), SquareCol(d, row, c))]
      ensures forall c :: 0 <= c < BOARD_DIM ==>
        rowIsAnchor[c] == IsAnchor(board.hLetters[..], boardTilesPlayed, SquareRow(d, row, c), SquareCol(d, row, c))
    {
      CopyBonuses(board, row, d);
      FlagAnchors(board, row, d);
    }

    /** The bonuses of the line, read through the transpose. */
    method CopyBonuses(board: B.Board, row: int, d: int)
      requires rowBonuses.Length == BOARD_DIM && board.Valid() && 0 <= row < BOARD_DIM && (d == DIR_H || d == DIR_V)
      requires rowBonuses != board.bonuses
      modifies rowBonuses
      ensures forall c :: 0 <= c < BOARD_DIM ==>
        rowBonuses[c] == board.bonuses[B.Idx(SquareRow(d, row, c), SquareCol(d, row, c))]
    {
      var c := 0;
      while c < BOARD_DIM
        invariant 0 <= c <= BOARD_DIM
        invariant forall k :: 0 <= k < c ==>
          rowBonuses[k] == board.bonuses[B.Idx(SquareRow(d, row, k), SquareCol(d, row, k))]
      {
        rowBonuses[c] := board.bonuses[B.Idx(SquareRow(d, row, c), SquareCol(d, row, c))];
        c := c + 1;
      }
    }

    /** The anchor flags of the line. */
    method FlagAnchors(board: B.Board, row: int, d: int)
      requires rowIsAnchor.Length == BOARD_DIM && board.Valid() && 0 <= row < BOARD_DIM && (d == DIR_H || d == DIR_V)
      modifies rowIsAnchor
      ensures forall c :: 0 <= c < BOARD_DIM ==>
        rowIsAnchor[c] == IsAnchor(board.hLetters[..], boardTilesPlayed, SquareRow(d, row, c), SquareCol(d, row, c))
    {
      var letters := if d == DIR_H then board.hLetters else board.vLetters;
      var c := 0;
      while c < BOARD_DIM
        invariant 0 <= c <= BOARD_DIM
        invariant forall k :: 0 <= k < c ==>
          rowIsAnchor[k] == IsAnchor(board.hLetters[..], boardTilesPlayed, SquareRow(d, row, k), SquareCol(d, row, k))
      {
        var anchor := AnchorAt(board, letters, boardTilesPlayed, B.Idx(row, c), SquareRow(d, row, c), SquareCol(d, row, c));
        rowIsAnchor[c] := anchor;
        c := c + 1;
      }
    }

    /** The anchor test of cache_row for one square: empty in the view being
      * cached, with a tile next to it in the horizontal view, or the centre
      * when the board's tiles_played count (tilesPlayed) is 0. */
    static method AnchorAt(board: B.Board, letters: array<MachineLetter>, tilesPlayed: int, idx: int, r: int, c: int)
      returns (anchor: bool)
      requires board.Valid() && B.OnBoard(r, c) && letters.Length == BOARD_SIZE
      requires 0 <= idx < BOARD_SIZE && letters[idx] == board.hLetters[B.Idx(r, c)]
      ensures anchor == IsAnchor(board.hLetters[..], tilesPlayed, r, c)
    {
      anchor := false;
      if letters[idx] == EMPTY_SQUARE {
        var hasNeighbor := false;
        if r > 0 && board.hLetters[B.Idx(r - 1, c)] != EMPTY_SQUARE { hasNeighbor := true; }
        if r < BOARD_DIM - 1 && board.hLetters[B.Idx(r + 1, c)] != EMPTY_SQUARE { hasNeighbor := true; }
        if c > 0 && board.hLetters[B.Idx(r, c - 1)] != EMPTY_SQUARE { hasNeighbor := true; }
        if c < BOARD_DIM - 1 && board.hLetters[B.Idx(r, c + 1)] != EMPTY_SQUARE { hasNeighbor := true; }
        if hasNeighbor {
          anchor := true;
        }
        if r == 7 && c == 7 && tilesPlayed == 0 {
          anchor := true;
        }
      }
    }

    // -------------------------------------------------------------------
    // record_move

    /** The move record_move forms from the strip between leftstrip and
      * rightstrip: its score from the running sums, its equity with the
      * rack's leave value while tiles remain in the bag (when there is a
      * leave table), the endgame adjustment once the bag is empty, and the
      * placement adjustment on the opening move. */
    ghost function Candidate(l: int, r: int): Move
      requires Shapes() && 0 <= l <= r < BOARD_DIM && (dir == DIR_H || dir == DIR_V)
      reads this, strip, rackCounts
    {
      var score := RecordedScore(Sums(mainWordScore, crossScore, wordMultiplier), tilesPlayed);
      var row := if dir == DIR_H then currentRow else l;
      var col := if dir == DIR_H then l else currentRow;
      var tiles := strip[l..r + 1];
      Move(score, score + Adjustment(l, tiles), TilePlacement, row, col, tilesPlayed, r - l + 1, dir, tiles)
    }

    /** The equity adjustments of a move laid from square l: the rack's leave
      * value while tiles remain in the bag (when there is a KLV), the endgame
      * adjustment once the bag is empty, and the placement adjustment on the
      * opening move. */
    ghost function Adjustment(l: int, tiles: seq<MachineLetter>): int
      requires Shapes() && 0 <= l && l + |tiles| <= BOARD_DIM && (dir == DIR_H || dir == DIR_V)
      reads this, rackCounts
    {
      var leave := if tilesInBag > 0 && hasKlv then LeaveOf(klv, rackCounts[..]) else 0;
      var opening := if boardTilesPlayed == 0 then Placement(openingPenalties, isVowel, dir * BOARD_DIM + l, tiles) else 0;
      var endgame := if tilesInBag > 0 then 0
        else StandardEndgameAdjustment(Some(RackCounts(rackCounts[..], rackTotal)), oppRack);
      leave + opening + endgame
    }

    /** placement_adjustment: the loop over the move's squares from the
      * line's start, at offset dir * BOARD_DIM in the penalty table. */
    method PlacementAdjustment(start: int, tiles: seq<MachineLetter>) returns (penalty: int)
      requires Shapes() && (dir == DIR_H || dir == DIR_V) && 0 <= start && start + |tiles| <= BOARD_DIM
      ensures penalty == Placement(openingPenalties, isVowel, dir * BOARD_DIM + start, tiles)
    {
      var offset := dir * BOARD_DIM;
      penalty := 0;
      var i := 0;
      while i < |tiles|
        invariant 0 <= i <= |tiles|
        invariant penalty == Placement(openingPenalties, isVowel, offset + start, tiles[..i])
      {
        assert tiles[..i + 1][..i] == tiles[..i];
        var tile := tiles[i];
        if tile != PLAYED_THROUGH {
          var ml := Unblanked(tile);
          if ml < ALPHABET_SIZE && isVowel[ml] {
            penalty := penalty + openingPenalties[offset + start + i];
          }
        }
        i := i + 1;
      }
      assert tiles[..i] == tiles;
    }

    /** The tiles between leftstrip and rightstrip, copied out of the strip. */
    method CopyStrip(l: int, r: int) returns (tiles: seq<MachineLetter>)
      requires Shapes() && 0 <= l <= r < BOARD_DIM
      ensures tiles == strip[l..r + 1]
    {
      tiles := [];
      var i := l;
      while i <= r
        invariant l <= i <= r + 1 && tiles == strip[l..i]
      {
        tiles := tiles + [strip[i]];
        i := i + 1;
      }
    }

    /** The main word times the word multiplier: the common multipliers as
      * additions, the rest as a product. */
    method MainContribution() returns (contrib: int)
      ensures contrib == mainWordScore * wordMultiplier
    {
      var mws := mainWordScore;
      if wordMultiplier == 1 {
        contrib := mws;
      } else if wordMultiplier == 2 {
        contrib := mws + mws;
      } else if wordMultiplier == 3 {
        contrib := mws + mws + mws;
      } else {
        contrib := mws * wordMultiplier;
      }
    }

    /**
     * record_move: counts the move, then keeps it as the best exactly when
     * is_better_move prefers it. A move whose equity is below the best's is
     * dropped early, which is_better_move would have refused anyway.
     */
    method RecordMove(l: int, r: int)
      requires Ready() && 0 <= l <= r < BOARD_DIM
      modifies this
      ensures Ready() && Cfg() == old(Cfg()) && Accs() == old(Accs())
      ensures moveCount == old(moveCount) + 1
      ensures recorded == old(recorded) + [old(Candidate(l, r))]
      ensures old(bestEquity) == INITIAL || Better(old(Candidate(l, r)), old(best)) ==>
        bestEquity == old(Candidate(l, r)).equity && WellFormedMove(best) &&
        Key(best) == Key(old(Candidate(l, r)))
      ensures old(bestEquity) != INITIAL && !Better(old(Candidate(l, r)), old(best)) ==>
        bestEquity == old(bestEquity) && best == old(best)
    {
      var m := BuildCandidate(l, r);
      Record(m);
    }

    /** The counting and comparison of record_move for the formed move m. */
    method Record(m: Move)
      requires Ready() && WellFormedMove(m) && m.tilesLength == |m.tiles| <= MAX_MOVE_TILES
      modifies this
      ensures Ready() && Cfg() == old(Cfg()) && Accs() == old(Accs())
      ensures moveCount == old(moveCount) + 1
      ensures recorded == old(recorded) + [m]
      ensures old(bestEquity) == INITIAL || Better(m, old(best)) ==>
        bestEquity == m.equity && WellFormedMove(best) && Key(best) == Key(m)
      ensures old(bestEquity) != INITIAL && !Better(m, old(best)) ==>
        bestEquity == old(bestEquity) && best == old(best)
    {
      var better: bool;
      if bestEquity != INITIAL && m.equity < bestEquity {
        BetterByField(m, best);
        better := false;
      } else {
        better := IsBetterMove(m, bestEquity, best);
      }
      var newBest := if better then m.(tiles := m.tiles + best.tiles[m.tilesLength..]) else best;
      RecordStep(recorded, bestEquity, best, m, better, newBest);
      moveCount, recorded := moveCount + 1, recorded + [m];
      bestEquity, best := if better then m.equity else bestEquity, newBest;
    }

    /** The computation of record_move up to the comparison: the score, the
      * line's start, the adjustments and the tiles copied from the strip. */
    method BuildCandidate(l: int, r: int) returns (m: Move)
      requires Ready() && 0 <= l <= r < BOARD_DIM
      ensures m == Candidate(l, r) && WellFormedMove(m) && m.tilesLength == |m.tiles| <= MAX_MOVE_TILES
    {
      var contrib := MainContribution();
      var score := contrib + crossScore;
      if tilesPlayed == RACK_SIZE {
        score := score + ToEighths(BINGO_BONUS);
      }
      var newRow := if dir == DIR_H then currentRow else l;
      var newCol := if dir == DIR_H then l else currentRow;
      var tiles := CopyStrip(l, r);
      var adjustment := Adjustments(l, tiles);
      m := Move(score, score + adjustment, TilePlacement, newRow, newCol, tilesPlayed, r - l + 1, dir, tiles);
    }

    /** The adjustments record_move adds to the score: the leave, the opening
      * placement and the endgame. */
    method Adjustments(l: int, tiles: seq<MachineLetter>) returns (adjustment: int)
      requires Shapes() && 0 <= l && l + |tiles| <= BOARD_DIM && (dir == DIR_H || dir == DIR_V)
      ensures adjustment == Adjustment(l, tiles)
    {
      var leaveAdjustment := 0;
      var otherAdjustments := 0;
      if boardTilesPlayed == 0 {
        var penalty := PlacementAdjustment(l, tiles);
        otherAdjustments := otherAdjustments + penalty;
      }
      if tilesInBag > 0 {
        if hasKlv {
          leaveAdjustment := CurrentLeave();
        }
      } else {
        var endgame := EndgameAdjustment();
        otherAdjustments := otherAdjustments + endgame;
      }
      adjustment := leaveAdjustment + otherAdjustments;
    }

    /** leave_map_get_current for the rack as it now stands. */
    method CurrentLeave() returns (v: int)
      requires Shapes()
      ensures v == LeaveOf(klv, rackCounts[..])
    {
      v := LeaveOf(klv, rackCounts[..]);
    }

    /** standard_endgame_adjustment of the rack as it now stands against the
      * opponent's. */
    method EndgameAdjustment() returns (v: int)
      requires Shapes()
      ensures v == StandardEndgameAdjustment(Some(RackCounts(rackCounts[..], rackTotal)), oppRack)
    {
      v := StandardEndgameAdjustment(Some(RackCounts(rackCounts[..], rackTotal)), oppRack);
    }

    // -------------------------------------------------------------------
    // go_on and recursive_gen

    /** The square update at the start of go_on: a fresh tile goes into the
      * strip and is scored with the square's bonus; a square already holding
      * a tile is marked as played through. */
    method Accumulate(col: int, letter: MachineLetter)
      requires Shapes() && 0 <= col < BOARD_DIM && (IsBlanked(letter) || IsLetter(letter))
      modifies this, strip
      ensures Cfg() == old(Cfg()) && rackTotal == old(rackTotal) && tilesPlayed == old(tilesPlayed)
      ensures bestEquity == old(bestEquity) && best == old(best) && recorded == old(recorded)
      ensures moveCount == old(moveCount) && rowLetters[..] == old(rowLetters[..])
      ensures Sums(mainWordScore, crossScore, wordMultiplier) ==
        GoStep(old(Sums(mainWordScore, crossScore, wordMultiplier)), letter,
               rowLetters[col] == EMPTY_SQUARE, rowBonuses[col], rowCrossScores[col])
      ensures strip[..] == old(strip[..])[col := if rowLetters[col] == EMPTY_SQUARE then letter else PLAYED_THROUGH]
    {
      var bonus := rowBonuses[col];
      var letterMult := 1;
      var wordMult := 1;
      var freshTile := false;
      if rowLetters[col] == EMPTY_SQUARE {
        strip[col] := letter;
        freshTile := true;
        letterMult := LetterMult(bonus);
        wordMult := WordMult(bonus);
      } else {
        strip[col] := PLAYED_THROUGH;
      }
      wordMultiplier := MultSmall(wordMultiplier, wordMult);
      mainWordScore := mainWordScore + MultSmall(GetTileScore(letter), letterMult);
      if freshTile && rowCrossScores[col] >= 0 {
        var crossWordScore := MultSmall(GetTileScore(letter), letterMult) + rowCrossScores[col];
        crossScore := crossScore + MultSmall(crossWordScore, wordMult);
      }
    }

    /**
     * go_on: score the square, then record the move when the word may end
     * here, and carry on leftwards, across the separator to the right of the
     * anchor, or rightwards. The running sums are restored at the end, and
     * the calls beneath it restore the rack and the tile count, so everything
     * the search accumulates is as it was.
     */
    method GoOn(col: int, letter: MachineLetter, nextNode: nat, accepts: bool, l: int, r: int)
      requires Ready() && 0 <= col < BOARD_DIM && nextNode < |kwg|
      requires IsBlanked(letter) || IsLetter(letter)
      requires 0 <= l <= anchorCol <= r < BOARD_DIM
      modifies this, strip, rackCounts
      ensures Ready() && Cfg() == old(Cfg()) && Accs() == old(Accs()) && rackCounts[..] == old(rackCounts[..])
      ensures moveCount >= old(moveCount) && old(recorded) <= recorded
      decreases 2 * BOARD_DIM - Rank(anchorCol, col), 2
    {
      var prev := Sums(mainWordScore, crossScore, wordMultiplier);
      Accumulate(col, letter);
      if col <= anchorCol {
        GoLeft(col, nextNode, accepts, r);
      } else {
        GoRight(col, nextNode, accepts, l);
      }
      RestoreSums(prev);
    }

    /** The running sums go back to what they were before the square. */
    method RestoreSums(prev: Sums)
      requires Ready()
      modifies this
      ensures Ready() && Cfg() == old(Cfg()) && rackTotal == old(rackTotal) && tilesPlayed == old(tilesPlayed)
      ensures moveCount == old(moveCount) && recorded == old(recorded)
      ensures Sums(mainWordScore, crossScore, wordMultiplier) == prev
    {
      mainWordScore, crossScore, wordMultiplier := prev.main, prev.cross, prev.wordMult;
    }

    /** go_on left of the anchor: record when no tile lies left of the word
      * and none right of the anchor, continue left unless the previous
      * anchor is next, and try the separator when nothing lies to the left. */
    method GoLeft(col: int, nextNode: nat, accepts: bool, r: int)
      requires Ready() && 0 <= col <= anchorCol <= r < BOARD_DIM && nextNode < |kwg|
      modifies this, strip, rackCounts
      ensures Ready() && Cfg() == old(Cfg()) && Accs() == old(Accs()) && rackCounts[..] == old(rackCounts[..])
      ensures moveCount >= old(moveCount) && old(recorded) <= recorded
      decreases 2 * BOARD_DIM - Rank(anchorCol, col), 1
    {
      var l := col;
      var noLetterLeft := col == 0 || rowLetters[col - 1] == EMPTY_SQUARE;
      var noLetterRightOfAnchor := anchorCol == BOARD_DIM - 1 || rowLetters[anchorCol + 1] == EMPTY_SQUARE;
      if accepts && noLetterLeft && noLetterRightOfAnchor && tilesPlayed > 0 {
        RecordMove(l, r);
      }
      if nextNode != 0 && col > 0 && col - 1 != lastAnchorCol {
        RecursiveGen(col - 1, nextNode, l, r);
      }
      if nextNode != 0 && noLetterLeft {
        CrossSeparator(nextNode, l, r);
      }
    }

    /** The turn of go_on at the left end of a word: follow the separator arc
      * and continue right of the anchor. */
    method CrossSeparator(nextNode: nat, l: int, r: int)
      requires Ready() && 0 <= l <= anchorCol <= r < BOARD_DIM && nextNode < |kwg|
      modifies this, strip, rackCounts
      ensures Ready() && Cfg() == old(Cfg()) && Accs() == old(Accs()) && rackCounts[..] == old(rackCounts[..])
      ensures moveCount >= old(moveCount) && old(recorded) <= recorded
      decreases 2 * BOARD_DIM - Rank(anchorCol, l), 0
    {
      var sepNode := FollowArc(kwg, nextNode, SEPARATOR);
      if sepNode != 0 && anchorCol < BOARD_DIM - 1 {
        RecursiveGen(anchorCol + 1, sepNode, l, r);
      }
    }

    /** go_on right of the anchor: record when no tile follows the word, and
      * continue right while the board goes on. */
    method GoRight(col: int, nextNode: nat, accepts: bool, l: int)
      requires Ready() && 0 <= l <= anchorCol < col < BOARD_DIM && nextNode < |kwg|
      modifies this, strip, rackCounts
      ensures Ready() && Cfg() == old(Cfg()) && Accs() == old(Accs()) && rackCounts[..] == old(rackCounts[..])
      ensures moveCount >= old(moveCount) && old(recorded) <= recorded
      decreases 2 * BOARD_DIM - Rank(anchorCol, col), 1
    {
      var r := col;
      var noLetterRight := col == BOARD_DIM - 1 || rowLetters[col + 1] == EMPTY_SQUARE;
      if accepts && noLetterRight && tilesPlayed > 0 {
        RecordMove(l, r);
      }
      if nextNode != 0 && col < BOARD_DIM - 1 {
        RecursiveGen(col + 1, nextNode, l, r);
      }
    }

    /**
     * recursive_gen: on an occupied square follow the arc of the letter
     * already there; on an empty square try every rack tile, and the blank,
     * that the node's run offers and the square's cross set (narrowed by the
     * extension sets) allows. Everything a try changes is put back.
     */
    method RecursiveGen(col: int, nodeIndex: nat, l: int, r: int)
      requires Ready() && 0 <= col < BOARD_DIM && nodeIndex < |kwg|
      requires 0 <= l <= anchorCol <= r < BOARD_DIM
      modifies this, strip, rackCounts
      ensures Ready() && Cfg() == old(Cfg()) && Accs() == old(Accs()) && rackCounts[..] == old(rackCounts[..])
      ensures moveCount >= old(moveCount) && old(recorded) <= recorded
      decreases 2 * BOARD_DIM - Rank(anchorCol, col), 5
    {
      var currentLetter := rowLetters[col];
      var crossSet := rowCrossSets[col];
      if col <= anchorCol {
        crossSet := crossSet * leftExtSet;
      }
      if tilesPlayed == 0 && col == anchorCol + 1 {
        crossSet := crossSet * rightExtSet;
      }
      if currentLetter != EMPTY_SQUARE {
        FollowPlayed(col, nodeIndex, currentLetter, l, r);
      } else if rackTotal > 0 {
        TryRackTiles(col, nodeIndex, crossSet, l, r);
      }
    }

    /** The scan of the node's run for the letter already on the square. */
    method FollowPlayed(col: int, nodeIndex: nat, current: MachineLetter, l: int, r: int)
      requires Ready() && 0 <= col < BOARD_DIM && nodeIndex < |kwg| && current == rowLetters[col]
      requires 0 <= l <= anchorCol <= r < BOARD_DIM
      modifies this, strip, rackCounts
      ensures Ready() && Cfg() == old(Cfg()) && Accs() == old(Accs()) && rackCounts[..] == old(rackCounts[..])
      ensures moveCount >= old(moveCount) && old(recorded) <= recorded
      decreases 2 * BOARD_DIM - Rank(anchorCol, col), 4
    {
      var raw := Unblanked(current);
      var i := nodeIndex;
      while true
        invariant nodeIndex <= i < |kwg| && RunEnd(kwg, i) == RunEnd(kwg, nodeIndex)
        invariant Ready() && Cfg() == old(Cfg()) && Accs() == old(Accs()) && rackCounts[..] == old(rackCounts[..])
        invariant moveCount >= old(moveCount) && old(recorded) <= recorded
        decreases |kwg| - i
      {
        var node := kwg[i];
        if Tile(node) == raw {
          GoOn(col, current, ArcIndex(node), Accepts(node), l, r);
          break;
        }
        if IsEnd(node) {
          break;
        }
        i := i + 1;
      }
    }

    /** The scan of the node's run for the tiles the rack can place. */
    method TryRackTiles(col: int, nodeIndex: nat, crossSet: CrossSet, l: int, r: int)
      requires Ready() && 0 <= col < BOARD_DIM && nodeIndex < |kwg| && rackTotal > 0
      requires 0 <= l <= anchorCol <= r < BOARD_DIM
      modifies this, strip, rackCounts
      ensures Ready() && Cfg() == old(Cfg()) && Accs() == old(Accs()) && rackCounts[..] == old(rackCounts[..])
      ensures moveCount >= old(moveCount) && old(recorded) <= recorded
      decreases 2 * BOARD_DIM - Rank(anchorCol, col), 4
    {
      var hasBlank := rackCounts[BLANK_ML] > 0;
      var i := nodeIndex;
      while true
        invariant nodeIndex <= i < |kwg| && RunEnd(kwg, i) == RunEnd(kwg, nodeIndex)
        invariant Ready() && Cfg() == old(Cfg()) && Accs() == old(Accs()) && rackCounts[..] == old(rackCounts[..])
        invariant moveCount >= old(moveCount) && old(recorded) <= recorded
        decreases |kwg| - i
      {
        var node := kwg[i];
        var tile := Tile(node);
        if tile != 0 && Unblanked(tile) in crossSet {
          var hasTile := rackCounts[tile] > 0;
          if hasTile {
            TryTile(col, tile, tile, ArcIndex(node), Accepts(node), l, r);
          }
          if hasBlank {
            TryTile(col, BLANK_ML, Blanked(tile), ArcIndex(node), Accepts(node), l, r);
          }
        }
        if IsEnd(node) {
          break;
        }
        i := i + 1;
      }
    }

    /** One try: take the rack tile `from` (the letter itself or the blank),
      * place `letter`, go on, and put the tile back. */
    method TryTile(col: int, from: MachineLetter, letter: MachineLetter, nextNode: nat, accepts: bool, l: int, r: int)
      requires Ready() && 0 <= col < BOARD_DIM && nextNode < |kwg| && rackTotal > 0
      requires from < ALPHABET_SIZE && rackCounts[from] > 0 && (IsBlanked(letter) || IsLetter(letter))
      requires 0 <= l <= anchorCol <= r < BOARD_DIM
      modifies this, strip, rackCounts
      ensures Ready() && Cfg() == old(Cfg()) && Accs() == old(Accs()) && rackCounts[..] == old(rackCounts[..])
      ensures moveCount >= old(moveCount) && old(recorded) <= recorded
      decreases 2 * BOARD_DIM - Rank(anchorCol, col), 3
    {
      TakeTile(from);
      GoOn(col, letter, nextNode, accepts, l, r);
      ReturnTile(from);
    }

    /** A tile leaves the rack for the board. */
    method TakeTile(from: MachineLetter)
      requires Ready() && from < ALPHABET_SIZE && rackCounts[from] > 0 && rackTotal > 0
      modifies this, rackCounts
      ensures Ready() && Cfg() == old(Cfg()) && moveCount == old(moveCount) && recorded == old(recorded)
      ensures Sums(mainWordScore, crossScore, wordMultiplier) == old(Sums(mainWordScore, crossScore, wordMultiplier))
      ensures rackCounts[..] == old(rackCounts[..])[from := old(rackCounts[from]) - 1]
      ensures rackTotal == old(rackTotal) - 1 && tilesPlayed == old(tilesPlayed) + 1
    {
      rackCounts[from] := rackCounts[from] - 1;
      rackTotal, tilesPlayed := rackTotal - 1, tilesPlayed + 1;
    }

    /** The tile comes back from the board to the rack. */
    method ReturnTile(from: MachineLetter)
      requires Ready() && from < ALPHABET_SIZE && tilesPlayed > 0
      modifies this, rackCounts
      ensures Ready() && Cfg() == old(Cfg()) && moveCount == old(moveCount) && recorded == old(recorded)
      ensures Sums(mainWordScore, crossScore, wordMultiplier) == old(Sums(mainWordScore, crossScore, wordMultiplier))
      ensures rackCounts[..] == old(rackCounts[..])[from := old(rackCounts[from]) + 1]
      ensures rackTotal == old(rackTotal) + 1 && tilesPlayed == old(tilesPlayed) - 1
    {
      rackCounts[from] := rackCounts[from] + 1;
      rackTotal, tilesPlayed := rackTotal + 1, tilesPlayed - 1;
    }

    /**
     * gen_for_anchor: start at the anchor with nothing played, empty sums,
     * a word multiplier of 1 and unrestricted extension sets, and search
     * from the GADDAG root. Afterwards the rack and sums are as it set them.
     */
    method GenForAnchor(col: int)
      requires Ready() && 0 <= col < BOARD_DIM
      modifies this, strip, rackCounts
      ensures Ready() && anchorCol == col && rackCounts[..] == old(rackCounts[..])
      ensures Accs() == Acc(old(rackTotal), 0, Sums(0, 0, 1))
      ensures moveCount >= old(moveCount) && old(recorded) <= recorded
    {
      StartAnchor(col);
      ResetSums();
      var root := GaddagRoot(kwg);
      RecursiveGen(col, root, col, col);
    }

    /** The anchor and extension-set resets at the start of gen_for_anchor. */
    method StartAnchor(col: int)
      requires Ready() && 0 <= col < BOARD_DIM
      modifies this
      ensures Ready() && Accs() == old(Accs()) && moveCount == old(moveCount) && recorded == old(recorded)
      ensures anchorCol == col
    {
      anchorCol := col;
      var trivial := Unrestricted();
      leftExtSet, rightExtSet := trivial, trivial;
    }

    /** The tile count and running-sum resets at the start of gen_for_anchor. */
    method ResetSums()
      requires Ready()
      modifies this
      ensures Ready() && Cfg() == old(Cfg()) && rackTotal == old(rackTotal)
      ensures moveCount == old(moveCount) && recorded == old(recorded)
      ensures tilesPlayed == 0 && Sums(mainWordScore, crossScore, wordMultiplier) == Sums(0, 0, 1)
    {
      tilesPlayed := 0;
      mainWordScore, crossScore, wordMultiplier := 0, 0, 1;
    }

    /** TRIVIAL_CROSS_SET: every letter allowed. */
    static method Unrestricted() returns (s: CrossSet)
      ensures s == TRIVIAL_CROSS_SET
    {
      s := TRIVIAL_CROSS_SET;
    }
  }
}
