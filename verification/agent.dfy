/** The AI's turn (`Connect4GUI.ai_move` of connect4_agent.py without the
    drawing): take an immediate win, otherwise block the human's immediate
    win, otherwise drop into the column whose alpha-beta score is highest. */
module Agent {
  import opened Board
  import opened Rules
  import opened Search

  /** The search depth `ai_move` passes to `minimax`. */
  const SearchDepth: nat := 4

  /** The grid with side s's disc dropped into the legal column `col`, as
      `ai_move` does by hand with `find_empty_row_in_col`. */
  function Probe(b: Grid, col: int, s: Side): (b': Grid)
    requires 0 <= col < Cols && IsValidMove(b, col)
    ensures exists row :: LowestEmpty(b, col, row) && b' == SetCell(b, row, col, Disc(s))
  {
    assert b[0][col] == Empty;
    SetCell(b, FindEmptyRow(b, col).value, col, Disc(s))
  }

  /** Clearing the probed cell gives back the grid that was probed: every
      probe of `ai_move` that does not end the turn is undone exactly. */
  lemma ProbeUndone(b: Grid, col: int, s: Side)
    requires 0 <= col < Cols && IsValidMove(b, col)
    ensures FindEmptyRow(b, col).Some?
    ensures SetCell(Probe(b, col, s), FindEmptyRow(b, col).value, col, Empty) == b
  {
    assert b[0][col] == Empty;
    UndoRestores(b, FindEmptyRow(b, col).value, col, Disc(s));
  }

  /** Dropping side s's disc into `col` makes `check_winner` answer s. */
  predicate WinsAt(b: Grid, col: int, s: Side)
    requires 0 <= col < Cols
  {
    IsValidMove(b, col) && CheckWinner(Probe(b, col, s)) == Some(s)
  }

  /** The scan of the first two loops of `ai_move` from column `col` on: the
      first column where side s wins at once. */
  function FirstWin(b: Grid, s: Side, col: int): (r: Option<int>)
    requires 0 <= col <= Cols
    ensures r.None? <==> forall c :: col <= c < Cols ==> !WinsAt(b, c, s)
    ensures r.Some? ==> && col <= r.value < Cols && WinsAt(b, r.value, s)
                        && forall c :: col <= c < r.value ==> !WinsAt(b, c, s)
    decreases Cols - col
  {
    if col == Cols then None
    else if WinsAt(b, col, s) then Some(col)
    else FirstWin(b, s, col + 1)
  }

  /** `minimax(board, 4, -inf, inf, False, game)` after the AI's disc is
      dropped into `col`: a minimizing search with the side to move left
      as it was. */
  function SearchScore(g: Game, col: int): int
    requires 0 <= col < Cols && IsValidMove(g.board, col)
  {
    AlphaBeta(Game(Probe(g.board, col, Opponent), g.current), SearchDepth, NegInf, PosInf, false).n
  }

  /** The fallback probe places the AI's disc but leaves the AI to move, so
      the first ply of its search drops a second AI disc before the human
      answers. */
  lemma FallbackSearchMovesAgentTwice(g: Game, col: int, col': int)
    requires g.current == Opponent && 0 <= col < Cols && IsValidMove(g.board, col)
    requires 0 <= col' < Cols && IsValidMove(Probe(g.board, col, Opponent), col')
    ensures var p := Game(Probe(g.board, col, Opponent), g.current);
            && Child(p, col').current == You
            && exists row :: && LowestEmpty(p.board, col', row)
                             && Child(p, col').board == SetCell(p.board, row, col', Disc(Opponent))
  {
    var p := Game(Probe(g.board, col, Opponent), g.current);
    ChildIsMoveThenToggle(p, col');
  }

  /** The score of every column, None for a full one. */
  function Scores(g: Game): (s: seq<Option<int>>)
    ensures |s| == Cols
    ensures forall c :: 0 <= c < Cols ==> (s[c].Some? <==> IsValidMove(g.board, c))
    ensures forall c :: 0 <= c < Cols && IsValidMove(g.board, c) ==> s[c] == Some(SearchScore(g, c))
  {
    seq(Cols, c => if 0 <= c < Cols && IsValidMove(g.board, c) then Some(SearchScore(g, c)) else None)
  }

  /** The third loop of `ai_move` from column `col` on, with the running
      `best_score` and `best_col`; a column replaces the running best only
      when its score is strictly greater. */
  function BestFrom(s: seq<Option<int>>, col: int, best: ExtInt, bestCol: Option<int>): Option<int>
    requires 0 <= col <= |s|
    decreases |s| - col
  {
    if col == |s| then bestCol
    else if s[col].Some? && Lt(best, Fin(s[col].value)) then BestFrom(s, col + 1, Fin(s[col].value), Some(col))
    else BestFrom(s, col + 1, best, bestCol)
  }

  /** Column c has a score, every scored column before it scores less, and
      no scored column from c up to `upto` scores more: the first maximiser
      among the columns below `upto`. */
  ghost predicate FirstBest(s: seq<Option<int>>, c: int, upto: int) {
    && 0 <= c < upto <= |s| && s[c].Some?
    && (forall c' :: 0 <= c' < c && s[c'].Some? ==> s[c'].value < s[c].value)
    && (forall c' :: c < c' < upto && s[c'].Some? ==> s[c'].value <= s[c].value)
  }

  /** Some column below `upto` has a score. */
  predicate AnyScored(s: seq<Option<int>>, upto: int)
    requires upto <= |s|
  {
    exists c :: 0 <= c < upto && s[c].Some?
  }

  lemma {:induction false} BestFromSpec(s: seq<Option<int>>, col: int, best: ExtInt, bestCol: Option<int>)
    requires 0 <= col <= |s|
    requires bestCol.None? ==> best == NegInf && !AnyScored(s, col)
    requires bestCol.Some? ==> FirstBest(s, bestCol.value, col) && best == Fin(s[bestCol.value].value)
    ensures BestFrom(s, col, best, bestCol).None? <==> !AnyScored(s, |s|)
    ensures BestFrom(s, col, best, bestCol).Some? ==> FirstBest(s, BestFrom(s, col, best, bestCol).value, |s|)
    decreases |s| - col
  {
    if col < |s| {
      if s[col].Some? && Lt(best, Fin(s[col].value)) {
        BestFromSpec(s, col + 1, Fin(s[col].value), Some(col));
      } else {
        if bestCol.None? {
          assert !AnyScored(s, col + 1);
        }
        BestFromSpec(s, col + 1, best, bestCol);
      }
    }
  }

  /** The column the third loop of `ai_move` settles on, if any. */
  function BestColumn(g: Game): Option<int> {
    BestFrom(Scores(g), 0, NegInf, None)
  }

  /** The search picks nothing only when every column is full, and otherwise
      the lowest-numbered column of highest score. */
  lemma BestColumnIsFirstMaximiser(g: Game)
    ensures BestColumn(g).None? <==> forall c :: 0 <= c < Cols ==> !IsValidMove(g.board, c)
    ensures BestColumn(g).Some? ==> FirstBest(Scores(g), BestColumn(g).value, Cols)
  {
    BestFromSpec(Scores(g), 0, NegInf, None);
  }

  /** Each score the search compares is the unpruned minimax value of the
      same position: pruning never changes the AI's choice. */
  lemma SearchScoreIsMinimax(g: Game, col: int)
    requires 0 <= col < Cols && IsValidMove(g.board, col)
    ensures Fin(SearchScore(g, col)) == Minimax(Game(Probe(g.board, col, Opponent), g.current), SearchDepth, false)
  {
    AlphaBetaMatchesMinimax(Game(Probe(g.board, col, Opponent), g.current), SearchDepth, false);
  }

  /** The table the third loop of `ai_move` ranks holds, for each legal
      column, the exact minimax value (no pruning) of the position the
      fallback probe reaches, searched to depth 4 minimizing first with the
      side to move left as it was (the AI): the AI's plies minimize and the
      human's maximize. Full columns have no entry. */
  lemma ScoresAreMinimax(g: Game)
    ensures forall c :: 0 <= c < Cols ==> (Scores(g)[c].Some? <==> IsValidMove(g.board, c))
    ensures forall c :: 0 <= c < Cols && IsValidMove(g.board, c) ==>
              Fin(Scores(g)[c].value) == Minimax(Game(Probe(g.board, c, Opponent), g.current), SearchDepth, false)
  {
    forall c | 0 <= c < Cols && IsValidMove(g.board, c)
      ensures Fin(Scores(g)[c].value) == Minimax(Game(Probe(g.board, c, Opponent), g.current), SearchDepth, false)
    {
      SearchScoreIsMinimax(g, c);
    }
  }

  /** Which of the three phases of `ai_move` decided the column. */
  datatype Decision = Win(col: int) | Block(col: int) | Searched(col: int) | NoMove

  /** The decision of `ai_move`. */
  function Decide(g: Game): (d: Decision)
    ensures d.NoMove? <==> forall c :: 0 <= c < Cols ==> !IsValidMove(g.board, c)
    ensures d.Win? ==> FirstWin(g.board, Opponent, 0) == Some(d.col)
    ensures d.Block? ==> FirstWin(g.board, Opponent, 0).None? && FirstWin(g.board, You, 0) == Some(d.col)
    ensures d.Searched? ==> && FirstWin(g.board, Opponent, 0).None? && FirstWin(g.board, You, 0).None?
                            && FirstBest(Scores(g), d.col, Cols)
  {
    BestColumnIsFirstMaximiser(g);
    match FirstWin(g.board, Opponent, 0)
    case Some(c) => Win(c)
    case None =>
      match FirstWin(g.board, You, 0)
      case Some(c) => Block(c)
      case None =>
        match BestColumn(g)
        case Some(c) => Searched(c)
        case None => NoMove
  }

  /** The block as written: the human's probe disc is cleared and the AI's
      disc written into the same cell. */
  function BlockAt(b: Grid, col: int): (b': Grid)
    requires 0 <= col < Cols && IsValidMove(b, col)
    ensures b' == Probe(b, col, Opponent)
  {
    var row := FindEmptyRow(b, col).value;
    var probe := SetCell(b, row, col, Disc(You));
    var undone := SetCell(probe, row, col, Empty);
    GridExtensionality(SetCell(undone, row, col, Disc(Opponent)), SetCell(b, row, col, Disc(Opponent)));
    SetCell(undone, row, col, Disc(Opponent))
  }

  /** `ai_move`: the decision and the game state it leaves behind. The
      probes of all three loops are undone before the next one starts. After
      a win nobody is toggled; after a block the turn passes back; after a
      searched move the side to move drops its disc and the turn passes only
      when the game goes on. */
  function AiMove(g: Game): (res: (Decision, Game))
    ensures res.0 == Decide(g)
  {
    var d := Decide(g);
    var g' := match d
      case Win(c) => Game(Probe(g.board, c, Opponent), g.current)
      case Block(c) => Game(BlockAt(g.board, c), Toggle(g.current))
      case Searched(c) =>
        var moved := MakeMove(g, c).1;
        if CheckWinner(moved.board).Some? || CheckDraw(moved.board) then moved
        else TogglePlayer(moved)
      case NoMove => g;
    (d, g')
  }

  /** Probing with the side to move is what `make_move` does to the grid. */
  lemma ProbeIsMakeMove(g: Game, col: int)
    requires 0 <= col < Cols && IsValidMove(g.board, col)
    ensures Probe(g.board, col, g.current) == MakeMove(g, col).1.board
  {
  }

  /** On the AI's turn, `ai_move` either finds every column full and leaves
      the game alone, or drops exactly one AI disc at the bottom of the
      chosen column. A winning drop keeps the AI to move and leaves it the
      winner; a block hands the turn to the human; a searched move hands it
      over exactly when the game goes on. Gravity is kept throughout. */
  lemma AiMoveOutcome(g: Game)
    requires g.current == Opponent
    ensures var (d, g') := AiMove(g);
            && (d.NoMove? ==> g' == g)
            && (!d.NoMove? ==>
                  && 0 <= d.col < Cols && IsValidMove(g.board, d.col)
                  && exists row :: LowestEmpty(g.board, d.col, row)
                                && g'.board == SetCell(g.board, row, d.col, Disc(Opponent)))
            && (d.Win? ==> CheckWinner(g'.board) == Some(Opponent) && g'.current == Opponent)
            && (d.Block? ==> g'.current == You)
            && (d.Searched? ==> (g'.current == You <==> CheckWinner(g'.board).None? && !CheckDraw(g'.board)))
            && (Gravity(g.board) ==> Gravity(g'.board))
  {
    var (d, g') := AiMove(g);
    if !d.NoMove? {
      ProbeIsMakeMove(g, d.col);
      assert g'.board == MakeMove(g, d.col).1.board;
    }
  }
}
