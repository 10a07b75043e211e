/** Board state of the Connect Four engine: the 6 x 7 grid, the two sides,
    the side to move, gravity placement and the player toggle
    (the `Connect4Game` class of connect4_agent.py). */
module Board {

  const Rows: int := 6
  const Cols: int := 7

  datatype Option<+T> = None | Some(value: T)

  /** The two players; the source spells them 'You' and 'Opponent(AI)'. */
  datatype Side = You | Opponent

  /** A grid cell: empty (the source's ' ') or holding one side's disc. */
  datatype Cell = Empty | Disc(owner: Side)

  predicate IsGrid(b: seq<seq<Cell>>) {
    |b| == Rows && forall r :: 0 <= r < |b| ==> |b[r]| == Cols
  }

  /** Row 0 is the top row, row 5 the bottom one. */
  type Grid = b: seq<seq<Cell>> | IsGrid(b)
    witness seq(6, _ => seq(7, _ => Empty))

  /** The whole game state: the grid and the side whose disc goes in next. */
  datatype Game = Game(board: Grid, current: Side)

  predicate InGrid(r: int, c: int) {
    0 <= r < Rows && 0 <= c < Cols
  }

  /** Gravity: a disc never sits above an empty cell of its column. */
  predicate Gravity(b: Grid) {
    forall r1, r2, c :: 0 <= r1 < r2 < Rows && 0 <= c < Cols && b[r1][c] != Empty ==> b[r2][c] != Empty
  }

  /** Every cell other than (r, c) holds the same value in b and b'. */
  ghost predicate SameExcept(b: Grid, b': Grid, r: int, c: int) {
    forall r', c' :: InGrid(r', c') && (r' != r || c' != c) ==> b'[r'][c'] == b[r'][c']
  }

  /** Row `row` is the lowest empty cell of column `col`. */
  predicate LowestEmpty(b: Grid, col: int, row: int) {
    && InGrid(row, col)
    && b[row][col] == Empty
    && forall r :: row < r < Rows ==> b[r][col] != Empty
  }

  function EmptyGrid(): (b: Grid)
    ensures forall r, c :: InGrid(r, c) ==> b[r][c] == Empty
  {
    seq(Rows, _ => seq(Cols, _ => Empty))
  }

  /** A fresh game: empty grid, the human side moves first. */
  function NewGame(): (g: Game)
    ensures g.current == You
    ensures forall r, c :: InGrid(r, c) ==> g.board[r][c] == Empty
    ensures Gravity(g.board)
    ensures forall col :: 0 <= col < Cols ==> IsValidMove(g.board, col)
  {
    Game(EmptyGrid(), You)
  }

  /** The other side. Side has exactly two values, so `t != s` pins it down. */
  function Toggle(s: Side): (t: Side)
    ensures t != s
  {
    if s == You then Opponent else You
  }

  lemma ToggleTwice(s: Side)
    ensures Toggle(Toggle(s)) == s
  {
  }

  /** A column accepts a disc iff its top cell is empty. The source does no
      range check; a column outside 0..6 is excluded by the precondition. */
  predicate IsValidMove(b: Grid, col: int)
    requires 0 <= col < Cols
  {
    b[0][col] == Empty
  }

  /** Scans column `col` from row `row` upwards and returns the first empty row. */
  function FindEmptyRowFrom(b: Grid, col: int, row: int): (res: Option<int>)
    requires 0 <= col < Cols && -1 <= row < Rows
    ensures res.Some? ==> InGrid(res.value, col) && res.value <= row && b[res.value][col] == Empty
    ensures res.Some? ==> forall r :: res.value < r <= row ==> b[r][col] != Empty
    ensures res.None? <==> forall r :: 0 <= r <= row ==> b[r][col] != Empty
    decreases row + 1
  {
    if row < 0 then None
    else if b[row][col] == Empty then Some(row)
    else FindEmptyRowFrom(b, col, row - 1)
  }

  /** The largest row of column `col` holding an empty cell, scanning 5 down to 0. */
  function FindEmptyRow(b: Grid, col: int): (res: Option<int>)
    requires 0 <= col < Cols
    ensures res.Some? <==> exists r :: 0 <= r < Rows && b[r][col] == Empty
    ensures res.Some? ==> LowestEmpty(b, col, res.value)
  {
    FindEmptyRowFrom(b, col, Rows - 1)
  }

  /** Writes `x` into cell (r, c). */
  function SetCell(b: Grid, r: int, c: int, x: Cell): (b': Grid)
    requires InGrid(r, c)
    ensures b'[r][c] == x
    ensures SameExcept(b, b', r, c)
  {
    b[r := b[r][c := x]]
  }

  /** Two grids agreeing on every cell are the same grid. */
  lemma GridExtensionality(a: Grid, b: Grid)
    requires forall r, c :: InGrid(r, c) ==> a[r][c] == b[r][c]
    ensures a == b
  {
    forall r | 0 <= r < Rows
      ensures a[r] == b[r]
    {
      assert forall c :: 0 <= c < Cols ==> a[r][c] == b[r][c];
    }
  }

  /** Clearing a cell that was empty before a write restores the grid. */
  lemma UndoRestores(b: Grid, r: int, c: int, x: Cell)
    requires InGrid(r, c) && b[r][c] == Empty
    ensures SetCell(SetCell(b, r, c, x), r, c, Empty) == b
  {
    GridExtensionality(SetCell(SetCell(b, r, c, x), r, c, Empty), b);
  }

  /** Under gravity a column has an empty cell iff its top cell is empty. */
  lemma FindEmptyRowUnderGravity(b: Grid, col: int)
    requires Gravity(b) && 0 <= col < Cols
    ensures FindEmptyRow(b, col).Some? <==> IsValidMove(b, col)
  {
    if FindEmptyRow(b, col).Some? {
      var row := FindEmptyRow(b, col).value;
      assert b[row][col] == Empty;
    }
  }

  /** `make_move`: drops the side-to-move's disc into column `col`.
      Returns false and leaves the game untouched when the top cell is taken.
      The source's `row is None` branch is dead: a valid column has row 0 empty. */
  function MakeMove(g: Game, col: int): (res: (bool, Game))
    requires 0 <= col < Cols
    ensures res.0 <==> g.board[0][col] == Empty
    ensures !res.0 ==> res.1 == g
    ensures res.0 ==> res.1.current == g.current
    ensures res.0 ==> exists row :: LowestEmpty(g.board, col, row)
                                 && res.1.board[row][col] == Disc(g.current)
                                 && SameExcept(g.board, res.1.board, row, col)
    ensures Gravity(g.board) ==> Gravity(res.1.board)
  {
    if IsValidMove(g.board, col) then
      var row := FindEmptyRow(g.board, col).value;
      (true, Game(SetCell(g.board, row, col, Disc(g.current)), g.current))
    else
      (false, g)
  }

  /** `toggle_player` on the whole game state. */
  function TogglePlayer(g: Game): (g': Game)
    ensures g'.board == g.board && g'.current != g.current
  {
    Game(g.board, Toggle(g.current))
  }
}
