/** Depth-bounded minimax with alpha-beta pruning (`minimax` of
    connect4_agent.py), an unpruned reference minimax over the same tree, and
    the proof that pruning never changes the value at the root window. */
module Search {
  import opened Board
  import opened Rules
  import opened Heuristic

  /** Scores extended with the source's `float('-inf')` and `float('inf')`
      sentinels; every real score is an integer. */
  datatype ExtInt = NegInf | Fin(n: int) | PosInf

  predicate Le(a: ExtInt, b: ExtInt) {
    a.NegInf? || b.PosInf? || (a.Fin? && b.Fin? && a.n <= b.n)
  }

  predicate Lt(a: ExtInt, b: ExtInt) {
    !Le(b, a)
  }

  /** Python's `max` on two scores. */
  function Max(a: ExtInt, b: ExtInt): (m: ExtInt)
    ensures Le(a, m) && Le(b, m) && (m == a || m == b)
  {
    if Le(a, b) then b else a
  }

  /** Python's `min` on two scores. */
  function Min(a: ExtInt, b: ExtInt): (m: ExtInt)
    ensures Le(m, a) && Le(m, b) && (m == a || m == b)
  {
    if Le(a, b) then a else b
  }

  /** The speculative move of the search: the side to move drops a disc on
      the lowest empty row of `col`, then the turn passes
      (`board[row][col] = current_player` followed by `toggle_player()`). */
  function Child(g: Game, col: int): (g': Game)
    requires 0 <= col < Cols && IsValidMove(g.board, col)
  {
    assert g.board[0][col] == Empty;
    Game(SetCell(g.board, FindEmptyRow(g.board, col).value, col, Disc(g.current)), Toggle(g.current))
  }

  /** The speculative move is `make_move` followed by `toggle_player`, and its
      disc lands on the lowest empty row, the one `find_empty_row_in_col`
      reports. */
  lemma ChildIsMoveThenToggle(g: Game, col: int)
    requires 0 <= col < Cols && IsValidMove(g.board, col)
    ensures FindEmptyRow(g.board, col).Some? && LowestEmpty(g.board, col, FindEmptyRow(g.board, col).value)
    ensures Child(g, col) == TogglePlayer(MakeMove(g, col).1)
  {
    assert g.board[0][col] == Empty;
  }

  /** The backtracking step: clear the cell and toggle the turn back. */
  function Undo(g: Game, row: int, col: int): Game
    requires InGrid(row, col)
  {
    Game(SetCell(g.board, row, col, Empty), Toggle(g.current))
  }

  /** Undoing a speculative move gives back the game it was made on, cell for
      cell and side for side. */
  lemma BacktrackRestores(g: Game, col: int)
    requires 0 <= col < Cols && IsValidMove(g.board, col)
    ensures FindEmptyRow(g.board, col).Some?
    ensures Undo(Child(g, col), FindEmptyRow(g.board, col).value, col) == g
  {
    var row := FindEmptyRow(g.board, col).value;
    UndoRestores(g.board, row, col, Disc(g.current));
    ToggleTwice(g.current);
  }

  /** The cutoff test at the head of `minimax`. */
  predicate IsLeaf(g: Game, depth: nat) {
    depth == 0 || CheckWinner(g.board).Some? || CheckDraw(g.board)
  }

  /** The value of a leaf: +-winning_score by comparing the winner with the
      side to move, otherwise the heuristic from the side to move's view. */
  function LeafScore(g: Game): int {
    match CheckWinner(g.board)
    case Some(w) => if w == g.current then WinningScore else -WinningScore
    case None => Evaluate(g.board, g.current)
  }

  /** Some column at or after `col` accepts a disc. */
  predicate HasMoveFrom(b: Grid, col: int)
    requires 0 <= col
  {
    exists c :: col <= c < Cols && IsValidMove(b, c)
  }

  /** A grid whose top row is not full has a legal column. */
  lemma NotDrawHasMove(b: Grid)
    requires !CheckDraw(b)
    ensures HasMoveFrom(b, 0)
  {
    var c :| 0 <= c < Cols && b[0][c] == Empty;
    assert IsValidMove(b, c);
  }

  /** `minimax(board, depth, alpha, beta, maximizing_player, game)`. */
  function AlphaBeta(g: Game, depth: nat, alpha: ExtInt, beta: ExtInt, maximizing: bool): (v: ExtInt)
    ensures v.Fin?
    decreases depth, 0, 0
  {
    if IsLeaf(g, depth) then Fin(LeafScore(g))
    else
      NotDrawHasMove(g.board);
      if maximizing then MaxLoop(g, depth - 1, 0, alpha, beta, NegInf)
      else MinLoop(g, depth - 1, 0, alpha, beta, PosInf)
  }

  /** Above a leaf, a maximizing search is the maximizing column loop with
      the children searched one level less deep. */
  lemma AlphaBetaMaxInner(g: Game, depth: nat, d: nat, alpha: ExtInt, beta: ExtInt)
    requires d + 1 == depth && !IsLeaf(g, depth)
    ensures AlphaBeta(g, depth, alpha, beta, true) == MaxLoop(g, d, 0, alpha, beta, NegInf)
  {
  }

  /** Above a leaf, a minimizing search is the minimizing column loop with
      the children searched one level less deep. */
  lemma AlphaBetaMinInner(g: Game, depth: nat, d: nat, alpha: ExtInt, beta: ExtInt)
    requires d + 1 == depth && !IsLeaf(g, depth)
    ensures AlphaBeta(g, depth, alpha, beta, false) == MinLoop(g, d, 0, alpha, beta, PosInf)
  {
  }

  /** The maximizing loop over columns `col..6`, each child searched to
      `depth`, with running `alpha` and running maximum `best`; it stops as soon as `beta <= alpha`. */
  function MaxLoop(g: Game, depth: nat, col: int, alpha: ExtInt, beta: ExtInt, best: ExtInt): (v: ExtInt)
    requires 0 <= col <= Cols && best != PosInf
    ensures v.Fin? || v == best
    ensures HasMoveFrom(g.board, col) ==> v.Fin?
    decreases depth, 1, Cols - col
  {
    if col == Cols then best
    else if IsValidMove(g.board, col) then
      var e := AlphaBeta(Child(g, col), depth, alpha, beta, false);
      var best' := Max(best, e);
      var alpha' := Max(alpha, e);
      if Le(beta, alpha') then best'
      else MaxLoop(g, depth, col + 1, alpha', beta, best')
    else MaxLoop(g, depth, col + 1, alpha, beta, best)
  }

  /** The minimizing loop over columns `col..6`, each child searched to
      `depth`, with running `beta` and running minimum `best`; it stops as soon as `beta <= alpha`. */
  function MinLoop(g: Game, depth: nat, col: int, alpha: ExtInt, beta: ExtInt, best: ExtInt): (v: ExtInt)
    requires 0 <= col <= Cols && best != NegInf
    ensures v.Fin? || v == best
    ensures HasMoveFrom(g.board, col) ==> v.Fin?
    decreases depth, 1, Cols - col
  {
    if col == Cols then best
    else if IsValidMove(g.board, col) then
      var e := AlphaBeta(Child(g, col), depth, alpha, beta, true);
      var best' := Min(best, e);
      var beta' := Min(beta, e);
      if Le(beta', alpha) then best'
      else MinLoop(g, depth, col + 1, alpha, beta', best')
    else MinLoop(g, depth, col + 1, alpha, beta, best)
  }

  /** One pass of the maximizing loop at a legal column whose child is worth e. */
  lemma MaxLoopStep(g: Game, depth: nat, col: int, alpha: ExtInt, beta: ExtInt, best: ExtInt, e: ExtInt)
    requires 0 <= col < Cols && best != PosInf && IsValidMove(g.board, col)
    requires e == AlphaBeta(Child(g, col), depth, alpha, beta, false)
    ensures Max(best, e) != PosInf
    ensures MaxLoop(g, depth, col, alpha, beta, best)
            == if Le(beta, Max(alpha, e)) then Max(best, e)
               else MaxLoop(g, depth, col + 1, Max(alpha, e), beta, Max(best, e))
  {
  }

  /** One pass of the minimizing loop at a legal column whose child is worth e. */
  lemma MinLoopStep(g: Game, depth: nat, col: int, alpha: ExtInt, beta: ExtInt, best: ExtInt, e: ExtInt)
    requires 0 <= col < Cols && best != NegInf && IsValidMove(g.board, col)
    requires e == AlphaBeta(Child(g, col), depth, alpha, beta, true)
    ensures Min(best, e) != NegInf
    ensures MinLoop(g, depth, col, alpha, beta, best)
            == if Le(Min(beta, e), alpha) then Min(best, e)
               else MinLoop(g, depth, col + 1, alpha, Min(beta, e), Min(best, e))
  {
  }

  /** Reference minimax: the same tree and leaf values, no pruning. */
  function Minimax(g: Game, depth: nat, maximizing: bool): (v: ExtInt)
    ensures v.Fin?
    decreases depth, 0, 0
  {
    if IsLeaf(g, depth) then Fin(LeafScore(g))
    else
      NotDrawHasMove(g.board);
      if maximizing then MaxAll(g, depth - 1, 0, NegInf)
      else MinAll(g, depth - 1, 0, PosInf)
  }

  /** The largest of `best` and the children's values over columns `col..6`. */
  function MaxAll(g: Game, depth: nat, col: int, best: ExtInt): (v: ExtInt)
    requires 0 <= col <= Cols && best != PosInf
    ensures Le(best, v)
    ensures HasMoveFrom(g.board, col) ==> v.Fin?
    ensures v != PosInf
    decreases depth, 1, Cols - col
  {
    if col == Cols then best
    else if IsValidMove(g.board, col) then
      MaxAll(g, depth, col + 1, Max(best, Minimax(Child(g, col), depth, false)))
    else MaxAll(g, depth, col + 1, best)
  }

  /** The smallest of `best` and the children's values over columns `col..6`. */
  function MinAll(g: Game, depth: nat, col: int, best: ExtInt): (v: ExtInt)
    requires 0 <= col <= Cols && best != NegInf
    ensures Le(v, best)
    ensures HasMoveFrom(g.board, col) ==> v.Fin?
    ensures v != NegInf
    decreases depth, 1, Cols - col
  {
    if col == Cols then best
    else if IsValidMove(g.board, col) then
      MinAll(g, depth, col + 1, Min(best, Minimax(Child(g, col), depth, true)))
    else MinAll(g, depth, col + 1, best)
  }

  /** Above a leaf, unpruned maximizing minimax is MaxAll one level down. */
  lemma MinimaxMaxInner(g: Game, depth: nat, d: nat)
    requires d + 1 == depth && !IsLeaf(g, depth)
    ensures Minimax(g, depth, true) == MaxAll(g, d, 0, NegInf)
  {
  }

  /** Above a leaf, unpruned minimizing minimax is MinAll one level down. */
  lemma MinimaxMinInner(g: Game, depth: nat, d: nat)
    requires d + 1 == depth && !IsLeaf(g, depth)
    ensures Minimax(g, depth, false) == MinAll(g, d, 0, PosInf)
  {
  }

  /** One column of MaxAll at a legal column. */
  lemma MaxAllStep(g: Game, depth: nat, col: int, best: ExtInt)
    requires 0 <= col < Cols && best != PosInf && IsValidMove(g.board, col)
    ensures MaxAll(g, depth, col, best) == MaxAll(g, depth, col + 1, Max(best, Minimax(Child(g, col), depth, false)))
  {
  }

  /** One column of MinAll at a legal column. */
  lemma MinAllStep(g: Game, depth: nat, col: int, best: ExtInt)
    requires 0 <= col < Cols && best != NegInf && IsValidMove(g.board, col)
    ensures MinAll(g, depth, col, best) == MinAll(g, depth, col + 1, Min(best, Minimax(Child(g, col), depth, true)))
  {
  }

  /** MaxAll is the maximum of `best` and the children's values. */
  lemma {:induction false} MaxAllIsMaximum(g: Game, depth: nat, col: int, best: ExtInt)
    requires 0 <= col <= Cols && best != PosInf
    ensures forall c :: col <= c < Cols && IsValidMove(g.board, c) ==>
              Le(Minimax(Child(g, c), depth, false), MaxAll(g, depth, col, best))
    ensures || MaxAll(g, depth, col, best) == best
            || exists c :: && col <= c < Cols && IsValidMove(g.board, c)
                           && MaxAll(g, depth, col, best) == Minimax(Child(g, c), depth, false)
    decreases Cols - col
  {
    if col < Cols {
      if IsValidMove(g.board, col) {
        var e := Minimax(Child(g, col), depth, false);
        var m := Max(best, e);
        MaxAllStep(g, depth, col, best);
        MaxAllIsMaximum(g, depth, col + 1, m);
        var v := MaxAll(g, depth, col + 1, m);
        assert Le(e, m) && Le(m, v);
        if v == m && m != best {
          assert v == Minimax(Child(g, col), depth, false);
        }
      } else {
        MaxAllIsMaximum(g, depth, col + 1, best);
      }
    }
  }

  /** MinAll is the minimum of `best` and the children's values. */
  lemma {:induction false} MinAllIsMinimum(g: Game, depth: nat, col: int, best: ExtInt)
    requires 0 <= col <= Cols && best != NegInf
    ensures forall c :: col <= c < Cols && IsValidMove(g.board, c) ==>
              Le(MinAll(g, depth, col, best), Minimax(Child(g, c), depth, true))
    ensures || MinAll(g, depth, col, best) == best
            || exists c :: && col <= c < Cols && IsValidMove(g.board, c)
                           && MinAll(g, depth, col, best) == Minimax(Child(g, c), depth, true)
    decreases Cols - col
  {
    if col < Cols {
      if IsValidMove(g.board, col) {
        var e := Minimax(Child(g, col), depth, true);
        var m := Min(best, e);
        MinAllStep(g, depth, col, best);
        MinAllIsMinimum(g, depth, col + 1, m);
        var v := MinAll(g, depth, col + 1, m);
        assert Le(m, e) && Le(v, m);
        if v == m && m != best {
          assert v == Minimax(Child(g, col), depth, true);
        }
      } else {
        MinAllIsMinimum(g, depth, col + 1, best);
      }
    }
  }

  /** The fail-soft alpha-beta relation between a pruned value v and the true
      minimax value m for the window (alpha, beta). */
  ghost predicate FailSoft(v: ExtInt, m: ExtInt, alpha: ExtInt, beta: ExtInt) {
    && (Le(m, alpha) ==> Le(m, v) && Le(v, alpha))
    && (Lt(alpha, m) && Lt(m, beta) ==> v == m)
    && (Le(beta, m) ==> Le(beta, v) && Le(v, m))
  }

  /** An exact value is fail-soft for every window. */
  lemma FailSoftReflexive(v: ExtInt, alpha: ExtInt, beta: ExtInt)
    ensures FailSoft(v, v, alpha, beta)
  {
  }

  /** One child folded into a maximizing node keeps the fail-soft relation. */
  lemma MaxStep(best: ExtInt, bestM: ExtInt, v: ExtInt, m: ExtInt, a0: ExtInt, beta: ExtInt)
    requires FailSoft(best, bestM, a0, beta)
    requires Lt(Max(a0, best), beta)
    requires FailSoft(v, m, Max(a0, best), beta)
    ensures FailSoft(Max(best, v), Max(bestM, m), a0, beta)
    ensures Max(Max(a0, best), v) == Max(a0, Max(best, v))
  {
  }

  /** One child folded into a minimizing node keeps the fail-soft relation. */
  lemma MinStep(best: ExtInt, bestM: ExtInt, v: ExtInt, m: ExtInt, alpha: ExtInt, b0: ExtInt)
    requires FailSoft(best, bestM, alpha, b0)
    requires Lt(alpha, Min(b0, best))
    requires FailSoft(v, m, alpha, Min(b0, best))
    ensures FailSoft(Min(best, v), Min(bestM, m), alpha, b0)
    ensures Min(Min(b0, best), v) == Min(b0, Min(best, v))
  {
  }

  /** A beta cutoff at a maximizing node: the unexplored columns can only
      raise the true value, which is already at or above beta. */
  lemma MaxCutoff(best: ExtInt, bestM: ExtInt, m: ExtInt, a0: ExtInt, beta: ExtInt)
    requires FailSoft(best, bestM, a0, beta)
    requires Lt(a0, beta) && Le(beta, Max(a0, best)) && Le(bestM, m)
    ensures FailSoft(best, m, a0, beta)
  {
  }

  /** An alpha cutoff at a minimizing node: the unexplored columns can only
      lower the true value, which is already at or below alpha. */
  lemma MinCutoff(best: ExtInt, bestM: ExtInt, m: ExtInt, alpha: ExtInt, b0: ExtInt)
    requires FailSoft(best, bestM, alpha, b0)
    requires Lt(alpha, b0) && Le(Min(b0, best), alpha) && Le(m, bestM)
    ensures FailSoft(best, m, alpha, b0)
  {
  }

  /** Alpha-beta is fail-soft with respect to unpruned minimax. */
  lemma {:induction false} AlphaBetaFailSoft(g: Game, depth: nat, alpha: ExtInt, beta: ExtInt, maximizing: bool)
    requires Lt(alpha, beta)
    ensures FailSoft(AlphaBeta(g, depth, alpha, beta, maximizing), Minimax(g, depth, maximizing), alpha, beta)
    decreases depth, 0, 0, 0
  {
    if IsLeaf(g, depth) {
      FailSoftReflexive(Fin(LeafScore(g)), alpha, beta);
    } else {
      var d: nat := depth - 1;
      if maximizing {
        AlphaBetaMaxInner(g, depth, d, alpha, beta);
        MinimaxMaxInner(g, depth, d);
        MaxLoopFailSoft(g, d, 0, alpha, alpha, beta, NegInf, NegInf);
      } else {
        AlphaBetaMinInner(g, depth, d, alpha, beta);
        MinimaxMinInner(g, depth, d);
        MinLoopFailSoft(g, d, 0, alpha, beta, beta, PosInf, PosInf);
      }
    }
  }

  lemma {:induction false} MaxLoopFailSoft(g: Game, depth: nat, col: int, a0: ExtInt, alpha: ExtInt, beta: ExtInt,
                                           best: ExtInt, bestM: ExtInt)
    requires 0 <= col <= Cols && best != PosInf && bestM != PosInf
    requires alpha == Max(a0, best) && Lt(alpha, beta)
    requires FailSoft(best, bestM, a0, beta)
    ensures FailSoft(MaxLoop(g, depth, col, alpha, beta, best), MaxAll(g, depth, col, bestM), a0, beta)
    decreases depth, 1, Cols - col, 1
  {
    if col < Cols {
      if !IsValidMove(g.board, col) {
        MaxLoopFailSoft(g, depth, col + 1, a0, alpha, beta, best, bestM);
      } else if Le(beta, Max(alpha, AlphaBeta(Child(g, col), depth, alpha, beta, false))) {
        MaxLoopCutoff(g, depth, col, a0, alpha, beta, best, bestM);
      } else {
        MaxLoopContinue(g, depth, col, a0, alpha, beta, best, bestM);
      }
    }
  }

  /** The step of MaxLoopFailSoft for a legal column whose value reaches beta. */
  lemma {:induction false} MaxLoopCutoff(g: Game, depth: nat, col: int, a0: ExtInt, alpha: ExtInt, beta: ExtInt,
                                         best: ExtInt, bestM: ExtInt)
    requires 0 <= col < Cols && best != PosInf && bestM != PosInf
    requires IsValidMove(g.board, col)
    requires alpha == Max(a0, best) && Lt(alpha, beta)
    requires FailSoft(best, bestM, a0, beta)
    requires Le(beta, Max(alpha, AlphaBeta(Child(g, col), depth, alpha, beta, false)))
    ensures FailSoft(MaxLoop(g, depth, col, alpha, beta, best), MaxAll(g, depth, col, bestM), a0, beta)
    decreases depth, 1, Cols - col, 0
  {
    var child := Child(g, col);
    var e := AlphaBeta(child, depth, alpha, beta, false);
    var m := Minimax(child, depth, false);
    AlphaBetaFailSoft(child, depth, alpha, beta, false);
    MaxStep(best, bestM, e, m, a0, beta);
    var rest := MaxAll(g, depth, col + 1, Max(bestM, m));
    assert MaxAll(g, depth, col, bestM) == rest;
    assert MaxLoop(g, depth, col, alpha, beta, best) == Max(best, e);
    MaxCutoff(Max(best, e), Max(bestM, m), rest, a0, beta);
  }

  /** The step of MaxLoopFailSoft for a legal column that leaves the window open. */
  lemma {:induction false} MaxLoopContinue(g: Game, depth: nat, col: int, a0: ExtInt, alpha: ExtInt, beta: ExtInt,
                                           best: ExtInt, bestM: ExtInt)
    requires 0 <= col < Cols && best != PosInf && bestM != PosInf
    requires IsValidMove(g.board, col)
    requires alpha == Max(a0, best) && Lt(alpha, beta)
    requires FailSoft(best, bestM, a0, beta)
    requires !Le(beta, Max(alpha, AlphaBeta(Child(g, col), depth, alpha, beta, false)))
    ensures FailSoft(MaxLoop(g, depth, col, alpha, beta, best), MaxAll(g, depth, col, bestM), a0, beta)
    decreases depth, 1, Cols - col, 0
  {
    var child := Child(g, col);
    var e := AlphaBeta(child, depth, alpha, beta, false);
    var m := Minimax(child, depth, false);
    AlphaBetaFailSoft(child, depth, alpha, beta, false);
    MaxStep(best, bestM, e, m, a0, beta);
    assert MaxAll(g, depth, col, bestM) == MaxAll(g, depth, col + 1, Max(bestM, m));
    assert MaxLoop(g, depth, col, alpha, beta, best) == MaxLoop(g, depth, col + 1, Max(alpha, e), beta, Max(best, e));
    MaxLoopFailSoft(g, depth, col + 1, a0, Max(alpha, e), beta, Max(best, e), Max(bestM, m));
  }

  lemma {:induction false} MinLoopFailSoft(g: Game, depth: nat, col: int, alpha: ExtInt, b0: ExtInt, beta: ExtInt,
                                           best: ExtInt, bestM: ExtInt)
    requires 0 <= col <= Cols && best != NegInf && bestM != NegInf
    requires beta == Min(b0, best) && Lt(alpha, beta)
    requires FailSoft(best, bestM, alpha, b0)
    ensures FailSoft(MinLoop(g, depth, col, alpha, beta, best), MinAll(g, depth, col, bestM), alpha, b0)
    decreases depth, 1, Cols - col, 1
  {
    if col < Cols {
      if !IsValidMove(g.board, col) {
        MinLoopFailSoft(g, depth, col + 1, alpha, b0, beta, best, bestM);
      } else if Le(Min(beta, AlphaBeta(Child(g, col), depth, alpha, beta, true)), alpha) {
        MinLoopCutoff(g, depth, col, alpha, b0, beta, best, bestM);
      } else {
        MinLoopContinue(g, depth, col, alpha, b0, beta, best, bestM);
      }
    }
  }

  /** The step of MinLoopFailSoft for a legal column whose value falls to alpha. */
  lemma {:induction false} MinLoopCutoff(g: Game, depth: nat, col: int, alpha: ExtInt, b0: ExtInt, beta: ExtInt,
                                         best: ExtInt, bestM: ExtInt)
    requires 0 <= col < Cols && best != NegInf && bestM != NegInf
    requires IsValidMove(g.board, col)
    requires beta == Min(b0, best) && Lt(alpha, beta)
    requires FailSoft(best, bestM, alpha, b0)
    requires Le(Min(beta, AlphaBeta(Child(g, col), depth, alpha, beta, true)), alpha)
    ensures FailSoft(MinLoop(g, depth, col, alpha, beta, best), MinAll(g, depth, col, bestM), alpha, b0)
    decreases depth, 1, Cols - col, 0
  {
    var child := Child(g, col);
    var e := AlphaBeta(child, depth, alpha, beta, true);
    var m := Minimax(child, depth, true);
    AlphaBetaFailSoft(child, depth, alpha, beta, true);
    MinStep(best, bestM, e, m, alpha, b0);
    var rest := MinAll(g, depth, col + 1, Min(bestM, m));
    assert MinAll(g, depth, col, bestM) == rest;
    assert MinLoop(g, depth, col, alpha, beta, best) == Min(best, e);
    MinCutoff(Min(best, e), Min(bestM, m), rest, alpha, b0);
  }

  /** The step of MinLoopFailSoft for a legal column that leaves the window open. */
  lemma {:induction false} MinLoopContinue(g: Game, depth: nat, col: int, alpha: ExtInt, b0: ExtInt, beta: ExtInt,
                                           best: ExtInt, bestM: ExtInt)
    requires 0 <= col < Cols && best != NegInf && bestM != NegInf
    requires IsValidMove(g.board, col)
    requires beta == Min(b0, best) && Lt(alpha, beta)
    requires FailSoft(best, bestM, alpha, b0)
    requires !Le(Min(beta, AlphaBeta(Child(g, col), depth, alpha, beta, true)), alpha)
    ensures FailSoft(MinLoop(g, depth, col, alpha, beta, best), MinAll(g, depth, col, bestM), alpha, b0)
    decreases depth, 1, Cols - col, 0
  {
    var child := Child(g, col);
    var e := AlphaBeta(child, depth, alpha, beta, true);
    var m := Minimax(child, depth, true);
    AlphaBetaFailSoft(child, depth, alpha, beta, true);
    MinStep(best, bestM, e, m, alpha, b0);
    assert MinAll(g, depth, col, bestM) == MinAll(g, depth, col + 1, Min(bestM, m));
    assert MinLoop(g, depth, col, alpha, beta, best) == MinLoop(g, depth, col + 1, alpha, Min(beta, e), Min(best, e));
    MinLoopFailSoft(g, depth, col + 1, alpha, b0, Min(beta, e), Min(best, e), Min(bestM, m));
  }

  /** Called with the full window (-inf, +inf), as the agent does, the
      pruned search returns exactly the unpruned minimax value. */
  lemma AlphaBetaMatchesMinimax(g: Game, depth: nat, maximizing: bool)
    ensures AlphaBeta(g, depth, NegInf, PosInf, maximizing) == Minimax(g, depth, maximizing)
  {
    AlphaBetaFailSoft(g, depth, NegInf, PosInf, maximizing);
  }

  /** A node with a winner scores exactly +-winning_score, the sign set by
      comparing the winner with the side to move; a cutoff node without a
      winner scores the heuristic from the side to move's view. */
  lemma LeafScores(g: Game, depth: nat, alpha: ExtInt, beta: ExtInt, maximizing: bool)
    ensures CheckWinner(g.board) == Some(g.current) ==> AlphaBeta(g, depth, alpha, beta, maximizing) == Fin(WinningScore)
    ensures CheckWinner(g.board) == Some(Toggle(g.current)) ==> AlphaBeta(g, depth, alpha, beta, maximizing) == Fin(-WinningScore)
    ensures CheckWinner(g.board) == None && (depth == 0 || CheckDraw(g.board)) ==>
              AlphaBeta(g, depth, alpha, beta, maximizing) == Fin(Evaluate(g.board, g.current))
  {
  }

  /** Inside the search a winner can only appear right after a move, and it
      is then the side that just moved, never the side now to move: such a
      node always scores -winning_score. */
  lemma WinAfterMoveIsLoss(g: Game, col: int, depth: nat, alpha: ExtInt, beta: ExtInt, maximizing: bool)
    requires 0 <= col < Cols && IsValidMove(g.board, col)
    ensures CheckWinner(g.board) == None && CheckWinner(Child(g, col).board).Some? ==>
              AlphaBeta(Child(g, col), depth, alpha, beta, maximizing) == Fin(-WinningScore)
  {
    if CheckWinner(g.board) == None {
      assert g.board[0][col] == Empty;
      var row := FindEmptyRow(g.board, col).value;
      OnlyTheMoverCanWin(g.board, row, col, g.current);
    }
  }
}
