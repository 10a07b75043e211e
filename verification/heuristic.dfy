/** The static heuristic `evaluate` of connect4_agent.py: every occupied cell,
    in each of the five scan directions, contributes a signed weight that
    grows tenfold with the length of the run starting there. */
module Heuristic {
  import opened Board
  import opened Rules

  /** `winning_score`: the weight of a complete run of four. */
  const WinningScore: int := 1000000

  function Pow10(n: nat): (p: nat)
    ensures p >= 1
  {
    if n == 0 then 1 else 10 * Pow10(n - 1)
  }

  /** Steps i, i+1, ... (up to 3) along d that stay on the grid and hold what
      (r, c) holds, stopping at the first step that does not. */
  function RunFrom(b: Grid, r: int, c: int, d: Dir, i: nat): (n: nat)
    requires InGrid(r, c) && i <= 4
    ensures n <= 4 - i
    decreases 4 - i
  {
    if i == 4 then 0
    else if Matches(b, r, c, d, i) then 1 + RunFrom(b, r, c, d, i + 1)
    else 0
  }

  /** `sequence_length` of the source for cell (r, c) and direction d. */
  function RunLength(b: Grid, r: int, c: int, d: Dir): nat
    requires InGrid(r, c)
  {
    RunFrom(b, r, c, d, 0)
  }

  /** The run counted from step i covers exactly the matching steps i, i+1,
      ... and stops at the first step that does not match (or at step 4). */
  lemma {:induction false} RunFromSpec(b: Grid, r: int, c: int, d: Dir, i: nat)
    requires InGrid(r, c) && i <= 4
    ensures forall k :: i <= k < i + RunFrom(b, r, c, d, i) ==> Matches(b, r, c, d, k)
    ensures i + RunFrom(b, r, c, d, i) < 4 ==> !Matches(b, r, c, d, i + RunFrom(b, r, c, d, i))
    decreases 4 - i
  {
    if i < 4 && Matches(b, r, c, d, i) {
      RunFromSpec(b, r, c, d, i + 1);
    }
  }

  /** A run has length L from 1 to 4: steps 0 .. L-1 along d hold the cell's
      disc, step L (if L < 4) does not, and L is 4 exactly when
      `check_winner` would see a line there. */
  lemma RunLengthIsLine(b: Grid, r: int, c: int, d: Dir)
    requires InGrid(r, c)
    ensures 1 <= RunLength(b, r, c, d) <= 4
    ensures forall k :: 0 <= k < RunLength(b, r, c, d) ==> Matches(b, r, c, d, k)
    ensures RunLength(b, r, c, d) < 4 ==> !Matches(b, r, c, d, RunLength(b, r, c, d))
    ensures RunLength(b, r, c, d) == 4 <==> Line(b, r, c, d)
  {
    RunFromSpec(b, r, c, d, 0);
    assert Matches(b, r, c, d, 0);
    assert RunFrom(b, r, c, d, 0) == 1 + RunFrom(b, r, c, d, 1);
    if Line(b, r, c, d) {
      assert RunFrom(b, r, c, d, 3) == 1;
      assert RunFrom(b, r, c, d, 2) == 2;
    }
  }

  /** The signed weight of one (cell, direction) pair: +-winning_score for a
      run of four, +-10^L for a shorter run of length L; positive exactly
      when the cell belongs to `player`. */
  function Contribution(b: Grid, r: int, c: int, d: Dir, player: Side): (v: int)
    requires InGrid(r, c) && b[r][c] != Empty
    ensures v > 0 <==> b[r][c] == Disc(player)
    ensures Line(b, r, c, d) ==> v == WinningScore || v == -WinningScore
    ensures !Line(b, r, c, d) ==> v in {10, 100, 1000, -10, -100, -1000}
    ensures !Line(b, r, c, d) ==>
              v == (if b[r][c] == Disc(player) then 1 else -1) * Pow10(RunLength(b, r, c, d))
  {
    RunLengthIsLine(b, r, c, d);
    assert Pow10(1) == 10 && Pow10(2) == 100 && Pow10(3) == 1000;
    var len := RunLength(b, r, c, d);
    var weight := if len == 4 then WinningScore else Pow10(len);
    if b[r][c] == Disc(player) then weight else -weight
  }

  /** Contributions of Directions[k..] for the occupied cell (r, c). */
  function DirectionsScore(b: Grid, r: int, c: int, player: Side, k: nat): int
    requires InGrid(r, c) && b[r][c] != Empty && k <= |Directions|
    decreases |Directions| - k
  {
    if k == |Directions| then 0
    else Contribution(b, r, c, Directions[k], player) + DirectionsScore(b, r, c, player, k + 1)
  }

  /** The part of the score due to cell (r, c): nothing for an empty cell. */
  function CellScore(b: Grid, r: int, c: int, player: Side): int
    requires InGrid(r, c)
  {
    if b[r][c] == Disc(player) || b[r][c] == Disc(Toggle(player)) then
      DirectionsScore(b, r, c, player, 0)
    else 0
  }

  /** The score of the cells at or after (r, c) in row-major order. */
  function EvaluateFrom(b: Grid, player: Side, r: int, c: int): int
    requires 0 <= r <= Rows && 0 <= c < Cols
    decreases Rows - r, Cols - c
  {
    if r == Rows then 0
    else CellScore(b, r, c, player)
         + (if c + 1 < Cols then EvaluateFrom(b, player, r, c + 1) else EvaluateFrom(b, player, r + 1, 0))
  }

  /** `evaluate(board, player)`. */
  function Evaluate(b: Grid, player: Side): int {
    EvaluateFrom(b, player, 0, 0)
  }

  lemma ContributionAntisymmetric(b: Grid, r: int, c: int, d: Dir, player: Side)
    requires InGrid(r, c) && b[r][c] != Empty
    ensures Contribution(b, r, c, d, Toggle(player)) == -Contribution(b, r, c, d, player)
  {
  }

  lemma {:induction false} DirectionsScoreAntisymmetric(b: Grid, r: int, c: int, player: Side, k: nat)
    requires InGrid(r, c) && b[r][c] != Empty && k <= |Directions|
    ensures DirectionsScore(b, r, c, Toggle(player), k) == -DirectionsScore(b, r, c, player, k)
    decreases |Directions| - k
  {
    if k < |Directions| {
      ContributionAntisymmetric(b, r, c, Directions[k], player);
      DirectionsScoreAntisymmetric(b, r, c, player, k + 1);
    }
  }

  lemma CellScoreAntisymmetric(b: Grid, r: int, c: int, player: Side)
    requires InGrid(r, c)
    ensures CellScore(b, r, c, Toggle(player)) == -CellScore(b, r, c, player)
  {
    ToggleTwice(player);
    if b[r][c] != Empty {
      DirectionsScoreAntisymmetric(b, r, c, player, 0);
    }
  }

  lemma {:induction false} EvaluateFromAntisymmetric(b: Grid, player: Side, r: int, c: int)
    requires 0 <= r <= Rows && 0 <= c < Cols
    ensures EvaluateFrom(b, Toggle(player), r, c) == -EvaluateFrom(b, player, r, c)
    decreases Rows - r, Cols - c
  {
    if r < Rows {
      CellScoreAntisymmetric(b, r, c, player);
      if c + 1 < Cols {
        EvaluateFromAntisymmetric(b, player, r, c + 1);
      } else {
        EvaluateFromAntisymmetric(b, player, r + 1, 0);
      }
    }
  }

  /** Scoring from the other side's perspective negates the score. */
  lemma EvaluateAntisymmetric(b: Grid, player: Side)
    ensures Evaluate(b, Toggle(player)) == -Evaluate(b, player)
  {
    EvaluateFromAntisymmetric(b, player, 0, 0);
  }

  /** `evaluate(b, 'You') == -evaluate(b, 'Opponent(AI)')` for every grid. */
  lemma EvaluateSidesOpposite(b: Grid)
    ensures Evaluate(b, You) == -Evaluate(b, Opponent)
  {
    EvaluateAntisymmetric(b, Opponent);
  }

  lemma {:induction false} EvaluateFromEmpty(b: Grid, player: Side, r: int, c: int)
    requires 0 <= r <= Rows && 0 <= c < Cols
    requires forall r', c' :: InGrid(r', c') ==> b[r'][c'] == Empty
    ensures EvaluateFrom(b, player, r, c) == 0
    decreases Rows - r, Cols - c
  {
    if r < Rows {
      if c + 1 < Cols {
        EvaluateFromEmpty(b, player, r, c + 1);
      } else {
        EvaluateFromEmpty(b, player, r + 1, 0);
      }
    }
  }

  /** The empty grid scores 0 for either side. */
  lemma EmptyGridScoresZero(player: Side)
    ensures Evaluate(EmptyGrid(), player) == 0
  {
    EvaluateFromEmpty(EmptyGrid(), player, 0, 0);
  }
}
