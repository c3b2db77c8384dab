// Score helpers of the move generator (src/movegen.c): tile scores in
// eighths of a point, the small-multiplier shortcut, the rack's score and
// the endgame adjustments added to a move's equity.
module MovegenScores {
  import opened Defs
  import opened BoardTables
  import opened Wrappers
  import opened Kwg
  import opened Game
  import opened Turns

  /** tile_scores: a letter's face value in eighths of a point. */
  function Score8(ml: MachineLetter): (r: int)
    requires IsLetter(ml)
  {
    ToEighths(TILE_SCORES[ml])
  }

  /** get_tile_score: a blank-played letter scores 0, any other its table value. */
  function GetTileScore(ml: MachineLetter): (r: int)
    requires IsBlanked(ml) || IsLetter(ml)
    ensures r == ToEighths(TileValue(ml))
    ensures 0 <= r <= 80
  {
    if IsBlanked(ml) then 0 else Score8(ml)
  }

  /** MULT_SMALL: multiplication by 1, 2 or 3 spelled as additions. */
  function MultSmall(v: int, m: int): int
  {
    if m == 2 then v + v else if m == 3 then v + v + v else v
  }

  /** For the multipliers a board square carries, MULT_SMALL is multiplication. */
  lemma MultSmallIsProduct(v: int, m: int)
    requires 1 <= m <= 3
    ensures MultSmall(v, m) == v * m
  {
  }

  /** The rack's face value in eighths. */
  function RackScore(counts: seq<nat>): int
    requires |counts| == ALPHABET_SIZE
  {
    ToEighths(RackValueOf(counts))
  }

  /** rack_get_score: each letter's count times its score in eighths. */
  method RackGetScore(rack: Rack) returns (sum: int)
    requires rack.Valid()
    ensures sum == RackScore(rack.counts[..])
    ensures sum == 8 * RackValueOf(rack.counts[..])
  {
    ghost var cs: seq<nat> := rack.counts[..];
    sum := 0;
    var i := 0;
    while i < ALPHABET_SIZE
      invariant 0 <= i <= ALPHABET_SIZE
      invariant Scorable(Expand(cs, i)) && sum == 8 * ScoreSum(Expand(cs, i))
    {
      RackValueStep(cs, i);
      ghost var face := ScoreSum(Expand(cs, i));
      EighthsStep(face, cs[i], TILE_SCORES[i]);
      assert Score8(i) == 8 * (TILE_SCORES[i] as int) && rack.counts[i] == cs[i];
      sum := sum + rack.counts[i] * Score8(i);
      i := i + 1;
    }
  }

  lemma EighthsStep(face: int, count: int, score: int)
    ensures 8 * face + count * (8 * score) == 8 * (face + count * score)
  {
  }

  /** endgame_nonoutplay_adjustment: twice the tiles kept, plus a constant penalty. */
  function NonOutplayAdjustment(playerRackScore: int): (r: int)
  {
    (-playerRackScore * 2) - NON_OUTPLAY_CONSTANT_PENALTY
  }

  /** endgame_outplay_adjustment: twice the opponent's tiles. */
  function OutplayAdjustment(opponentRackScore: int): (r: int)
  {
    2 * opponentRackScore
  }

  /** A rack as standard_endgame_adjustment sees it: the counts and the total. */
  datatype RackCounts = RackCounts(counts: seq<nat>, total: nat)

  predicate WellFormed(r: RackCounts) { |r.counts| == ALPHABET_SIZE }

  /**
   * standard_endgame_adjustment: a player who keeps tiles loses twice their
   * value and 10 points; one who goes out gains twice the opponent's tiles;
   * with no opponent rack there is nothing to add.
   */
  function StandardEndgameAdjustment(leave: Option<RackCounts>, opp: Option<RackCounts>): (r: int)
    requires leave.Some? ==> WellFormed(leave.value)
    requires opp.Some? ==> WellFormed(opp.value)
    ensures leave.Some? && leave.value.total > 0 ==> r <= -NON_OUTPLAY_CONSTANT_PENALTY
    ensures (leave.None? || leave.value.total == 0) ==> r >= 0
    ensures (leave.None? || leave.value.total == 0) && opp.None? ==> r == 0
  {
    if leave.Some? && leave.value.total > 0 then
      NonOutplayAdjustment(RackScore(leave.value.counts))
    else if opp.Some? then
      OutplayAdjustment(RackScore(opp.value.counts))
    else
      0
  }

  /**
   * The move generator's endgame adjustments, in eighths, are the end-of-game
   * settlement of game_play_move and game_pass counted twice over: the player
   * going out gains twice the opponent's tiles; the one left holding tiles
   * loses twice theirs and 10 points besides.
   */
  lemma EndgameInPoints(player: seq<nat>, opponent: seq<nat>)
    requires |player| == ALPHABET_SIZE && |opponent| == ALPHABET_SIZE
    ensures OutplayAdjustment(RackScore(opponent)) == ToEighths(2 * RackValueOf(opponent))
    ensures NonOutplayAdjustment(RackScore(player)) == ToEighths(-2 * RackValueOf(player) - 10)
  {
  }
}
