/** Four-in-a-row detection and the draw test (`check_winner` and
    `check_draw` of connect4_agent.py). */
module Rules {
  import opened Board

  /** A scan direction: a row step and a column step. */
  datatype Dir = Dir(dr: int, dc: int)

  /** The five directions the source scans: right, down, down-right,
      down-left and the redundant left. */
  const Directions: seq<Dir> := [Dir(0, 1), Dir(1, 0), Dir(1, 1), Dir(1, -1), Dir(0, -1)]

  /** The four canonical directions, without the leftward scan. */
  const Canonical: seq<Dir> := [Dir(0, 1), Dir(1, 0), Dir(1, 1), Dir(1, -1)]

  /** The cell i steps from (r, c) along d is on the grid and holds what (r, c) holds. */
  predicate Matches(b: Grid, r: int, c: int, d: Dir, i: int)
    requires InGrid(r, c)
  {
    var nr, nc := r + i * d.dr, c + i * d.dc;
    InGrid(nr, nc) && b[nr][nc] == b[r][c]
  }

  /** The four cells starting at (r, c) along d are on the grid and all equal. */
  predicate Line(b: Grid, r: int, c: int, d: Dir)
    requires InGrid(r, c)
  {
    Matches(b, r, c, d, 0) && Matches(b, r, c, d, 1) && Matches(b, r, c, d, 2) && Matches(b, r, c, d, 3)
  }

  /** Some direction of `dirs` from index k on, tried in order, gives four equal cells from (r, c). */
  predicate AnyLineFrom(b: Grid, r: int, c: int, dirs: seq<Dir>, k: nat)
    requires InGrid(r, c)
    decreases |dirs| - k
  {
    k < |dirs| && (Line(b, r, c, dirs[k]) || AnyLineFrom(b, r, c, dirs, k + 1))
  }

  predicate AnyLine(b: Grid, r: int, c: int, dirs: seq<Dir>)
    requires InGrid(r, c)
  {
    AnyLineFrom(b, r, c, dirs, 0)
  }

  lemma {:induction false} AnyLineFromIff(b: Grid, r: int, c: int, dirs: seq<Dir>, k: nat)
    requires InGrid(r, c)
    ensures AnyLineFrom(b, r, c, dirs, k) <==> exists i :: k <= i < |dirs| && Line(b, r, c, dirs[i])
    decreases |dirs| - k
  {
    if k < |dirs| {
      AnyLineFromIff(b, r, c, dirs, k + 1);
      if Line(b, r, c, dirs[k]) {
        assert k <= k < |dirs| && Line(b, r, c, dirs[k]);
      }
    }
  }

  /** The direction-by-direction scan finds a line iff one of the directions gives one. */
  lemma AnyLineIff(b: Grid, r: int, c: int, dirs: seq<Dir>)
    requires InGrid(r, c)
    ensures AnyLine(b, r, c, dirs) <==> exists i :: 0 <= i < |dirs| && Line(b, r, c, dirs[i])
  {
    AnyLineFromIff(b, r, c, dirs, 0);
  }

  /** An occupied cell from which some direction of `dirs` gives four equal cells. */
  predicate StartsLine(b: Grid, r: int, c: int, dirs: seq<Dir>)
    requires InGrid(r, c)
  {
    b[r][c] != Empty && AnyLine(b, r, c, dirs)
  }

  /** Row-major order on cells. */
  predicate Before(r1: int, c1: int, r2: int, c2: int) {
    r1 < r2 || (r1 == r2 && c1 < c2)
  }

  /** Side s owns four cells in a row (in any of the scanned directions). */
  ghost predicate HasLine(b: Grid, s: Side) {
    exists r, c :: InGrid(r, c) && b[r][c] == Disc(s) && StartsLine(b, r, c, Directions)
  }

  /** The row-major scan of `check_winner`, resumed at cell (r, c): the owner of
      the first cell at or after (r, c) that starts a line. */
  function WinnerFrom(b: Grid, dirs: seq<Dir>, r: int, c: int): Option<Side>
    requires 0 <= r <= Rows && 0 <= c < Cols
    decreases Rows - r, Cols - c
  {
    if r == Rows then None
    else if StartsLine(b, r, c, dirs) then Some(b[r][c].owner)
    else if c + 1 < Cols then WinnerFrom(b, dirs, r, c + 1)
    else WinnerFrom(b, dirs, r + 1, 0)
  }

  /** (r', c') is the first cell at or after (r, c), in row-major order, that
      starts a line. */
  ghost predicate FirstLineFrom(b: Grid, dirs: seq<Dir>, r: int, c: int, r': int, c': int) {
    && InGrid(r', c') && !Before(r', c', r, c) && StartsLine(b, r', c', dirs)
    && forall r'', c'' :: InGrid(r'', c'') && !Before(r'', c'', r, c) && Before(r'', c'', r', c')
                          ==> !StartsLine(b, r'', c'', dirs)
  }

  /** The scan from (r, c) finds nothing iff no cell at or after (r, c) starts
      a line, and what it finds is the owner of the first such cell. */
  lemma {:induction false} WinnerFromSpec(b: Grid, dirs: seq<Dir>, r: int, c: int)
    requires 0 <= r <= Rows && 0 <= c < Cols
    ensures var w := WinnerFrom(b, dirs, r, c);
            && (w.None? <==>
                forall r', c' :: InGrid(r', c') && !Before(r', c', r, c) ==> !StartsLine(b, r', c', dirs))
            && (w.Some? ==>
                exists r', c' :: FirstLineFrom(b, dirs, r, c, r', c') && b[r'][c'] == Disc(w.value))
    decreases Rows - r, Cols - c
  {
    if r == Rows {
    } else if StartsLine(b, r, c, dirs) {
      assert FirstLineFrom(b, dirs, r, c, r, c) && b[r][c] == Disc(b[r][c].owner);
    } else {
      var (r1, c1) := if c + 1 < Cols then (r, c + 1) else (r + 1, 0);
      WinnerFromSpec(b, dirs, r1, c1);
      var w := WinnerFrom(b, dirs, r1, c1);
      assert WinnerFrom(b, dirs, r, c) == w;
      if w.Some? {
        var r', c' :| FirstLineFrom(b, dirs, r1, c1, r', c') && b[r'][c'] == Disc(w.value);
        FirstLineFromStep(b, dirs, r, c, r1, c1, r', c');
      }
    }
  }

  /** A first line start after the next cell is also the first one after
      (r, c) when (r, c) itself starts none. */
  lemma FirstLineFromStep(b: Grid, dirs: seq<Dir>, r: int, c: int, r1: int, c1: int, r': int, c': int)
    requires InGrid(r, c) && !StartsLine(b, r, c, dirs)
    requires if c + 1 < Cols then r1 == r && c1 == c + 1 else r1 == r + 1 && c1 == 0
    requires FirstLineFrom(b, dirs, r1, c1, r', c')
    ensures FirstLineFrom(b, dirs, r, c, r', c')
  {
  }

  /** `check_winner`: the side owning the first line met in row-major order. */
  function CheckWinner(b: Grid): Option<Side> {
    WinnerFrom(b, Directions, 0, 0)
  }

  /** `check_winner` answers None exactly when neither side has four in a row,
      and otherwise names a side that has. */
  lemma CheckWinnerFindsLine(b: Grid)
    ensures CheckWinner(b).None? <==> !HasLine(b, You) && !HasLine(b, Opponent)
    ensures CheckWinner(b).Some? ==> HasLine(b, CheckWinner(b).value)
  {
    WinnerFromSpec(b, Directions, 0, 0);
    ScanMatchesHasLine(b);
  }

  /** What `check_winner` names, if anything, is the owner of the first cell,
      in row-major order, that starts a line; it answers None exactly when
      neither side has four in a row. */
  lemma CheckWinnerSpec(b: Grid)
    ensures CheckWinner(b).None? <==> !HasLine(b, You) && !HasLine(b, Opponent)
    ensures CheckWinner(b).Some? ==> HasLine(b, CheckWinner(b).value)
    ensures CheckWinner(b).Some? ==>
              exists r, c :: FirstLineFrom(b, Directions, 0, 0, r, c) && b[r][c] == Disc(CheckWinner(b).value)
  {
    CheckWinnerFindsLine(b);
    WinnerFromSpec(b, Directions, 0, 0);
  }

  /** Some cell starts a line iff one of the two sides has a line. */
  lemma ScanMatchesHasLine(b: Grid)
    ensures (forall r, c :: InGrid(r, c) ==> !StartsLine(b, r, c, Directions))
            <==> !HasLine(b, You) && !HasLine(b, Opponent)
  {
    if exists r, c :: InGrid(r, c) && StartsLine(b, r, c, Directions) {
      var r, c :| InGrid(r, c) && StartsLine(b, r, c, Directions);
      match b[r][c]
      case Disc(You) => assert HasLine(b, You);
      case Disc(Opponent) => assert HasLine(b, Opponent);
      assert !(forall r', c' :: InGrid(r', c') ==> !StartsLine(b, r', c', Directions));
    }
  }

  /** When the other side has no line, the winner is s exactly when s has a line. */
  lemma WinnerOfOneSide(b: Grid, s: Side)
    requires !HasLine(b, Toggle(s))
    ensures CheckWinner(b) == Some(s) <==> HasLine(b, s)
  {
    CheckWinnerFindsLine(b);
  }

  /** `check_draw`: every cell of the top row is occupied. It does not look at
      the winner. */
  predicate CheckDraw(b: Grid) {
    forall col :: 0 <= col < Cols ==> b[0][col] != Empty
  }

  /** Under gravity, a full top row means a full grid. */
  lemma DrawIffFull(b: Grid)
    requires Gravity(b)
    ensures CheckDraw(b) <==> forall r, c :: InGrid(r, c) ==> b[r][c] != Empty
  {
    if CheckDraw(b) {
      forall r, c | InGrid(r, c)
        ensures b[r][c] != Empty
      {
        assert b[0][c] != Empty;
      }
    }
  }

  /** `check_draw` answers true on a full grid that holds a line: the draw
      test does not rule out a win. */
  lemma DrawDoesNotExcludeWin()
    ensures exists b: Grid :: Gravity(b) && CheckDraw(b) && CheckWinner(b) == Some(You)
  {
    var b: Grid := seq(Rows, _ => seq(Cols, _ => Disc(You)));
    assert Line(b, 0, 0, Directions[0]);
    assert StartsLine(b, 0, 0, Directions);
    assert !HasLine(b, Opponent);
    WinnerOfOneSide(b, You);
    assert Gravity(b) && CheckDraw(b) && CheckWinner(b) == Some(You);
  }

  /** A line scanned leftward from (r, c) is the line scanned rightward from (r, c - 3). */
  lemma LeftwardIsRightward(b: Grid, r: int, c: int)
    requires InGrid(r, c) && Line(b, r, c, Dir(0, -1))
    ensures InGrid(r, c - 3) && Line(b, r, c - 3, Dir(0, 1)) && b[r][c - 3] == b[r][c]
  {
    assert Matches(b, r, c, Dir(0, -1), 3);
  }

  /** A cell that starts a line in one of the five directions starts a
      canonical line itself, or the cell three to its left does. */
  lemma FiveReducesToFour(b: Grid, r: int, c: int)
    requires InGrid(r, c) && StartsLine(b, r, c, Directions)
    ensures StartsLine(b, r, c, Canonical) || (c >= 3 && StartsLine(b, r, c - 3, Canonical))
  {
    AnyLineIff(b, r, c, Directions);
    AnyLineIff(b, r, c, Canonical);
    var i :| 0 <= i < |Directions| && Line(b, r, c, Directions[i]);
    if i < 4 {
      assert Directions[i] == Canonical[i];
    } else {
      LeftwardIsRightward(b, r, c);
      AnyLineIff(b, r, c - 3, Canonical);
      assert Line(b, r, c - 3, Canonical[0]);
    }
  }

  /** Every canonical line is also found by the five-direction scan. */
  lemma FourInFive(b: Grid, r: int, c: int)
    requires InGrid(r, c) && StartsLine(b, r, c, Canonical)
    ensures StartsLine(b, r, c, Directions)
  {
    AnyLineIff(b, r, c, Directions);
    AnyLineIff(b, r, c, Canonical);
    var i :| 0 <= i < |Canonical| && Line(b, r, c, Canonical[i]);
    assert Directions[i] == Canonical[i];
  }

  /** From any cell before which no canonical line starts, the five-direction
      scan and the four-direction scan agree. */
  lemma {:induction false} FiveAgreeWithFourFrom(b: Grid, r: int, c: int)
    requires 0 <= r <= Rows && 0 <= c < Cols
    requires forall r', c' :: InGrid(r', c') && Before(r', c', r, c) ==> !StartsLine(b, r', c', Canonical)
    ensures WinnerFrom(b, Directions, r, c) == WinnerFrom(b, Canonical, r, c)
    decreases Rows - r, Cols - c
  {
    if r == Rows {
    } else if StartsLine(b, r, c, Canonical) {
      FourInFive(b, r, c);
    } else {
      if StartsLine(b, r, c, Directions) {
        FiveReducesToFour(b, r, c);
        assert Before(r, c - 3, r, c);
        assert false;
      }
      if c + 1 < Cols {
        FiveAgreeWithFourFrom(b, r, c + 1);
      } else {
        FiveAgreeWithFourFrom(b, r + 1, 0);
      }
    }
  }

  /** The fifth, leftward direction never changes what `check_winner` returns. */
  lemma RedundantDirectionIsHarmless(b: Grid)
    ensures CheckWinner(b) == WinnerFrom(b, Canonical, 0, 0)
  {
    FiveAgreeWithFourFrom(b, 0, 0);
  }

  /** A line whose owner differs from the value written at (r, c) existed before the write. */
  lemma LineSurvivesUndo(b: Grid, r: int, c: int, x: Cell, r0: int, c0: int, d: Dir)
    requires InGrid(r, c) && InGrid(r0, c0)
    requires Line(SetCell(b, r, c, x), r0, c0, d) && SetCell(b, r, c, x)[r0][c0] != x
    ensures Line(b, r0, c0, d) && b[r0][c0] == SetCell(b, r, c, x)[r0][c0]
  {
    var b' := SetCell(b, r, c, x);
    assert Matches(b', r0, c0, d, 1) && Matches(b', r0, c0, d, 2) && Matches(b', r0, c0, d, 3);
  }

  /** Dropping side s's disc onto a grid without a winner can only make s the winner. */
  lemma OnlyTheMoverCanWin(b: Grid, r: int, c: int, s: Side)
    requires InGrid(r, c) && CheckWinner(b) == None
    ensures CheckWinner(SetCell(b, r, c, Disc(s))) in {None, Some(s)}
  {
    var b' := SetCell(b, r, c, Disc(s));
    var w := CheckWinner(b');
    CheckWinnerFindsLine(b);
    CheckWinnerFindsLine(b');
    if w.Some? && w.value != s {
      var r0, c0 :| InGrid(r0, c0) && b'[r0][c0] == Disc(w.value) && StartsLine(b', r0, c0, Directions);
      AnyLineIff(b', r0, c0, Directions);
      var i :| 0 <= i < |Directions| && Line(b', r0, c0, Directions[i]);
      LineSurvivesUndo(b, r, c, Disc(s), r0, c0, Directions[i]);
      AnyLineIff(b, r0, c0, Directions);
      assert StartsLine(b, r0, c0, Directions);
      assert false;
    }
  }
}
