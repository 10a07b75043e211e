/** The search as the source runs it: one mutable game whose board is a 6 x 7
    array, changed in place by each speculative move and changed back after
    the recursive call. The functional model in Search is the reference. */
module InPlace {
  import opened Board
  import opened Search

  /** The mutable `Connect4Game`: `board` and `current_player`. */
  class GameState {
    var board: array2<Cell>
    var current: Side

    ghost predicate Valid()
      reads this`board
    {
      board.Length0 == Rows && board.Length1 == Cols
    }

    /** The grid the array holds. */
    function Snapshot(): (b: Grid)
      requires Valid()
      reads this`board, board
      ensures forall r, c :: InGrid(r, c) ==> b[r][c] == board[r, c]
    {
      var a := board;
      seq(Rows, r requires 0 <= r < a.Length0 reads a =>
        seq(Cols, c requires 0 <= c < a.Length1 reads a => a[r, c]))
    }

    /** The value of the game as the functional model sees it. */
    function State(): Game
      requires Valid()
      reads this, board
    {
      Game(Snapshot(), current)
    }

    /** `Connect4Game.__init__`. */
    constructor ()
      ensures Valid() && fresh(board)
      ensures State() == NewGame()
    {
      board := new Cell[Rows, Cols]((r, c) => Empty);
      current := You;
      new;
      GridExtensionality(Snapshot(), EmptyGrid());
    }

    /** `find_empty_row_in_col`, as the loop from row 5 up to row 0. */
    method FindEmptyRowInCol(col: int) returns (row: Option<int>)
      requires Valid() && 0 <= col < Cols
      ensures row == FindEmptyRow(Snapshot(), col)
    {
      var r := Rows - 1;
      while r >= 0
        invariant -1 <= r < Rows
        invariant FindEmptyRowFrom(Snapshot(), col, r) == FindEmptyRow(Snapshot(), col)
        decreases r + 1
      {
        if board[r, col] == Empty {
          return Some(r);
        }
        r := r - 1;
      }
      return None;
    }

    /** One cell assignment `board[row][col] = x`. */
    method Put(row: int, col: int, x: Cell)
      requires Valid() && InGrid(row, col)
      modifies board
      ensures Valid()
      ensures Snapshot() == SetCell(old(Snapshot()), row, col, x)
    {
      board[row, col] := x;
      GridExtensionality(Snapshot(), SetCell(old(Snapshot()), row, col, x));
    }

    /** `minimax` on the mutable game: every speculative disc is removed and
        every toggle undone before the loop goes on or breaks, so the game is
        returned as it was found, and the value is the functional one. The
        ghost `g` only names that game for the contract; the leaf test reads
        the array. */
    method AlphaBeta(ghost g: Game, depth: nat, alpha: ExtInt, beta: ExtInt, maximizing: bool) returns (v: ExtInt)
      requires Valid() && State() == g
      modifies this`current, board
      ensures Valid() && board == old(board) && State() == g
      ensures v == Search.AlphaBeta(g, depth, alpha, beta, maximizing)
      decreases depth, 3
    {
      var here := State();
      if IsLeaf(here, depth) {
        return Fin(LeafScore(here));
      }
      v := Expand(g, depth, alpha, beta, maximizing);
    }

    /** The loop of `minimax` that `maximizing` selects, above a leaf. */
    method Expand(ghost g: Game, depth: nat, alpha: ExtInt, beta: ExtInt, maximizing: bool) returns (v: ExtInt)
      requires Valid() && State() == g && !IsLeaf(g, depth)
      modifies this`current, board
      ensures Valid() && board == old(board) && State() == g
      ensures v == Search.AlphaBeta(g, depth, alpha, beta, maximizing)
      decreases depth, 2
    {
      var d: nat := depth - 1;
      if maximizing {
        AlphaBetaMaxInner(g, depth, d, alpha, beta);
        v := MaxSearch(g, d, alpha, beta);
      } else {
        AlphaBetaMinInner(g, depth, d, alpha, beta);
        v := MinSearch(g, d, alpha, beta);
      }
    }

    /** The `maximizing_player` loop of `minimax`, children searched to `depth`. */
    method MaxSearch(ghost g: Game, depth: nat, alpha: ExtInt, beta: ExtInt) returns (v: ExtInt)
      requires Valid() && State() == g
      modifies this`current, board
      ensures Valid() && board == old(board) && State() == g
      ensures v == MaxLoop(g, depth, 0, alpha, beta, NegInf)
      decreases depth + 1, 1
    {
      var best, a, col := NegInf, alpha, 0;
      while col < Cols
        invariant 0 <= col <= Cols && Valid() && board == old(board) && State() == g
        invariant best != PosInf
        invariant MaxLoop(g, depth, col, a, beta, best) == MaxLoop(g, depth, 0, alpha, beta, NegInf)
        decreases Cols - col
      {
        if board[0, col] == Empty {
          var e := SearchChild(g, col, false, depth, a, beta);
          MaxLoopStep(g, depth, col, a, beta, best, e);
          best, a := Max(best, e), Max(a, e);
          if Le(beta, a) {
            return best;
          }
        }
        col := col + 1;
      }
      return best;
    }

    /** The minimizing loop of `minimax`, children searched to `depth`. */
    method MinSearch(ghost g: Game, depth: nat, alpha: ExtInt, beta: ExtInt) returns (v: ExtInt)
      requires Valid() && State() == g
      modifies this`current, board
      ensures Valid() && board == old(board) && State() == g
      ensures v == MinLoop(g, depth, 0, alpha, beta, PosInf)
      decreases depth + 1, 1
    {
      var best, b, col := PosInf, beta, 0;
      while col < Cols
        invariant 0 <= col <= Cols && Valid() && board == old(board) && State() == g
        invariant best != NegInf
        invariant MinLoop(g, depth, col, alpha, b, best) == MinLoop(g, depth, 0, alpha, beta, PosInf)
        decreases Cols - col
      {
        if board[0, col] == Empty {
          var e := SearchChild(g, col, true, depth, alpha, b);
          MinLoopStep(g, depth, col, alpha, b, best, e);
          best, b := Min(best, e), Min(b, e);
          if Le(b, alpha) {
            return best;
          }
        }
        col := col + 1;
      }
      return best;
    }

    /** The body of both loops of `minimax` for a legal column: drop the
        disc, toggle, search the child, clear the cell, toggle back. */
    method SearchChild(ghost g: Game, col: int, maximizing: bool, depth: nat, alpha: ExtInt, beta: ExtInt) returns (e: ExtInt)
      requires Valid() && State() == g && 0 <= col < Cols && IsValidMove(g.board, col)
      modifies this`current, board
      ensures Valid() && board == old(board) && State() == g
      ensures e == Search.AlphaBeta(Child(g, col), depth, alpha, beta, maximizing)
      decreases depth + 1, 0
    {
      var row := Drop(g, col);
      e := AlphaBeta(Child(g, col), depth, alpha, beta, maximizing);
      Lift(g, row, col);
    }

    /** `board[row][col] = current_player` at the lowest empty row, then
        `toggle_player()`: the game becomes the child position. */
    method Drop(ghost g: Game, col: int) returns (row: int)
      requires Valid() && State() == g && 0 <= col < Cols && IsValidMove(g.board, col)
      modifies this`current, board
      ensures Valid() && board == old(board)
      ensures State() == Child(g, col)
      ensures InGrid(row, col) && State().board == SetCell(g.board, row, col, Disc(g.current))
    {
      assert g.board[0][col] == Empty;
      var found := FindEmptyRowInCol(col);
      row := found.value;
      Put(row, col, Disc(current));
      assert Snapshot() == SetCell(g.board, row, col, Disc(g.current));
      current := Toggle(current);
    }

    /** `board[row][col] = ' '`, then `toggle_player()`: the child position
        is taken back to g. */
    method Lift(ghost g: Game, row: int, col: int)
      requires Valid() && InGrid(row, col) && g.board[row][col] == Empty
      requires State() == Game(SetCell(g.board, row, col, Disc(g.current)), Toggle(g.current))
      modifies this`current, board
      ensures Valid() && board == old(board)
      ensures State() == g
    {
      Put(row, col, Empty);
      current := Toggle(current);
      UndoRestores(g.board, row, col, Disc(g.current));
      ToggleTwice(g.current);
    }
  }
}
