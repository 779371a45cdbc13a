/**
 * Tic-tac-toe rules and the minimax player (tictactoe/tictactoe.py).
 *
 * A board is a 3 x 3 list of cells; a cell is EMPTY (Python's None) or holds
 * X or O.  The Python functions built from counting loops (player, actions,
 * checkRow, checkCol, diagOne, diagTwo, tie, max_value, min_value, minimax)
 * are methods proved against the specification functions below; the ones
 * that are plain expressions (initial_state, result, winner, terminal,
 * utility) are functions.
 */
module TicTacToe {

  import opened Wrappers

  datatype Mark = X | O

  datatype Cell = Empty | Filled(mark: Mark)

  type Board = seq<seq<Cell>>

  /** A move (row, column). */
  type Action = (int, int)

  /** What `result` produces: the new board, or the exception it raises. */
  datatype Outcome = Ok(board: Board) | Raised(message: string)

  const N: nat := 3

  predicate IsBoard(b: Board)
  {
    |b| == N && forall r :: 0 <= r < N ==> |b[r]| == N
  }

  // ---------------------------------------------------------------------------
  // Specification functions
  // ---------------------------------------------------------------------------

  /** Number of cells of `row` equal to `v`. */
  function CountRow(row: seq<Cell>, v: Cell): nat
  {
    if row == [] then 0
    else CountRow(row[..|row| - 1], v) + (if row[|row| - 1] == v then 1 else 0)
  }

  /** Number of cells of `b` equal to `v`. */
  function CountBoard(b: seq<seq<Cell>>, v: Cell): nat
  {
    if b == [] then 0
    else CountBoard(b[..|b| - 1], v) + CountRow(b[|b| - 1], v)
  }

  /** Whose turn it is: O exactly when X has more marks on the board. */
  function Turn(b: Board): Mark
  {
    if CountBoard(b, Filled(X)) > CountBoard(b, Filled(O)) then O else X
  }

  predicate IsAction(b: Board, a: Action)
  {
    0 <= a.0 < |b| && 0 <= a.1 < |b[a.0]| && b[a.0][a.1] == Empty
  }

  /** The legal moves: the coordinates of the EMPTY cells. */
  function ActionSet(b: Board): set<Action>
  {
    set r, c | 0 <= r < |b| && 0 <= c < |b[r]| && b[r][c] == Empty :: (r, c)
  }

  /** Row `r` holds `m` in every column. */
  predicate RowFull(b: Board, r: int, m: Mark)
    requires IsBoard(b) && 0 <= r < N
  {
    forall c :: 0 <= c < N ==> b[r][c] == Filled(m)
  }

  /** Column `c` holds `m` in every row. */
  predicate ColFull(b: Board, c: int, m: Mark)
    requires IsBoard(b) && 0 <= c < N
  {
    forall r :: 0 <= r < N ==> b[r][c] == Filled(m)
  }

  predicate RowWin(b: Board, m: Mark)
    requires IsBoard(b)
  {
    exists r :: 0 <= r < N && RowFull(b, r, m)
  }

  predicate ColWin(b: Board, m: Mark)
    requires IsBoard(b)
  {
    exists c :: 0 <= c < N && ColFull(b, c, m)
  }

  predicate MainDiagWin(b: Board, m: Mark)
    requires IsBoard(b)
  {
    forall i :: 0 <= i < N ==> b[i][i] == Filled(m)
  }

  predicate AntiDiagWin(b: Board, m: Mark)
    requires IsBoard(b)
  {
    forall i :: 0 <= i < N ==> b[i][N - 1 - i] == Filled(m)
  }

  /** `m` fills a row, a column or one of the two diagonals. */
  predicate HasLine(b: Board, m: Mark)
    requires IsBoard(b)
  {
    RowWin(b, m) || ColWin(b, m) || MainDiagWin(b, m) || AntiDiagWin(b, m)
  }

  /** No cell is EMPTY. */
  predicate IsFull(b: Board)
  {
    forall r, c :: 0 <= r < |b| && 0 <= c < |b[r]| ==> b[r][c] != Empty
  }

  /** A board is full exactly when it leaves no legal move. */
  lemma FullIffNoAction(b: Board)
    ensures IsFull(b) <==> ActionSet(b) == {}
  {
    if !IsFull(b) {
      var r, c :| 0 <= r < |b| && 0 <= c < |b[r]| && b[r][c] == Empty;
      assert (r, c) in ActionSet(b);
    }
  }

  // ---------------------------------------------------------------------------
  // initial_state, result, winner, terminal, utility
  // ---------------------------------------------------------------------------

  function InitialState(): (b: Board)
    ensures IsBoard(b)
    ensures forall r, c :: 0 <= r < N && 0 <= c < N ==> b[r][c] == Empty
  {
    [[Empty, Empty, Empty], [Empty, Empty, Empty], [Empty, Empty, Empty]]
  }

  /**
   * The board after the player to move plays `a`; a move outside the board or
   * onto an occupied cell raises.  The input board is a value, so it is left
   * unchanged, as the copy in the source guarantees.
   */
  function Result(b: Board, a: Action): (r: Outcome)
    requires IsBoard(b)
    ensures r.Ok? <==> IsAction(b, a)
    ensures r.Ok? ==> IsBoard(r.board)
    ensures r.Ok? ==> r.board[a.0][a.1] == Filled(Turn(b))
  {
    var (row, col) := a;
    if row < 0 || row >= |b| || col < 0 || col >= |b[0]| then
      Raised("not a valid action")
    else if b[row][col] != Empty then
      Raised("not a valid move")
    else
      Ok(Child(b, a))
  }

  /** A legal move changes no other cell and uses up exactly that move. */
  lemma ResultActions(b: Board, a: Action)
    requires IsBoard(b) && IsAction(b, a)
    ensures forall i, j :: 0 <= i < N && 0 <= j < N && (i, j) != a ==> Result(b, a).board[i][j] == b[i][j]
    ensures ActionSet(Result(b, a).board) == ActionSet(b) - {a}
  {
    var nb := Result(b, a).board;
    forall p | p in ActionSet(b) - {a} ensures p in ActionSet(nb) {
      assert nb[p.0][p.1] == b[p.0][p.1];
    }
  }

  /** The board reached by the legal move `a`: one EMPTY cell fewer, so every game ends. */
  function Child(b: Board, a: Action): (c: Board)
    requires IsBoard(b) && IsAction(b, a)
    ensures IsBoard(c) && CountBoard(c, Empty) == CountBoard(b, Empty) - 1
  {
    CountBoardUpdate(b, a.0, a.1, Filled(Turn(b)), Empty);
    b[a.0 := b[a.0][a.1 := Filled(Turn(b))]]
  }

  /** X is checked first: X wins whenever it has a line, whatever O has. */
  function Winner(b: Board): (w: Option<Mark>)
    requires IsBoard(b)
    ensures HasLine(b, X) ==> w == Some(X)
    ensures w.Some? ==> HasLine(b, w.value)
    ensures w.None? <==> !HasLine(b, X) && !HasLine(b, O)
  {
    if HasLine(b, X) then Some(X)
    else if HasLine(b, O) then Some(O)
    else None
  }

  /** The game is over once somebody has won or no cell is EMPTY. */
  function Terminal(b: Board): bool
    requires IsBoard(b)
  {
    Winner(b).Some? || IsFull(b)
  }

  /** A game is over exactly when somebody has won or no legal move is left. */
  lemma TerminalIffNoMoves(b: Board)
    requires IsBoard(b)
    ensures Terminal(b) <==> Winner(b).Some? || ActionSet(b) == {}
  {
    FullIffNoAction(b);
  }

  function Utility(b: Board): (u: int)
    requires IsBoard(b)
    ensures u == 1 <==> Winner(b) == Some(X)
    ensures u == -1 <==> Winner(b) == Some(O)
    ensures u == 0 <==> Winner(b).None?
  {
    if Winner(b) == Some(X) then 1
    else if Winner(b) == Some(O) then -1
    else 0
  }

  // ---------------------------------------------------------------------------
  // The value of a board under optimal play (what max_value and min_value
  // compute), as the largest or smallest value over the legal moves.
  // ---------------------------------------------------------------------------

  function Max(x: int, y: int): int { if x < y then y else x }

  function Min(x: int, y: int): int { if x < y then x else y }

  /** Some element of a non-empty set: fixes an order in which to fold over it. */
  ghost function Pick<T>(s: set<T>): (x: T)
    requires s != {}
    ensures x in s
  {
    var x :| x in s; x
  }

  /** The value X can force when X is to choose the next move. */
  ghost function MaxValueOf(b: Board): int
    requires IsBoard(b)
    decreases CountBoard(b, Empty), 1
  {
    if Terminal(b) then Utility(b)
    else
      FullIffNoAction(b);
      BestForX(b, ActionSet(b))
  }

  /** The value O can force when O is to choose the next move. */
  ghost function MinValueOf(b: Board): int
    requires IsBoard(b)
    decreases CountBoard(b, Empty), 1
  {
    if Terminal(b) then Utility(b)
    else
      FullIffNoAction(b);
      BestForO(b, ActionSet(b))
  }

  /** The largest value O can force after one of the moves `moves`, folding in the order `Pick` fixes. */
  ghost function BestForX(b: Board, moves: set<Action>): int
    requires IsBoard(b) && moves != {} && moves <= ActionSet(b)
    decreases CountBoard(b, Empty), 0, moves
  {
    var a := Pick(moves);
    var x := MinValueOf(Child(b, a));
    if moves == {a} then x else Max(x, BestForX(b, moves - {a}))
  }

  /** The smallest value X can force after one of the moves `moves`. */
  ghost function BestForO(b: Board, moves: set<Action>): int
    requires IsBoard(b) && moves != {} && moves <= ActionSet(b)
    decreases CountBoard(b, Empty), 0, moves
  {
    var a := Pick(moves);
    var x := MaxValueOf(Child(b, a));
    if moves == {a} then x else Min(x, BestForO(b, moves - {a}))
  }

  lemma {:induction false} BestForXIsMaximum(b: Board, moves: set<Action>)
    requires IsBoard(b) && moves != {} && moves <= ActionSet(b)
    ensures forall a :: a in moves ==> MinValueOf(Child(b, a)) <= BestForX(b, moves)
    ensures exists a :: a in moves && BestForX(b, moves) == MinValueOf(Child(b, a))
    decreases moves
  {
    var a := Pick(moves);
    if moves != {a} {
      BestForXIsMaximum(b, moves - {a});
    }
  }

  lemma {:induction false} BestForOIsMinimum(b: Board, moves: set<Action>)
    requires IsBoard(b) && moves != {} && moves <= ActionSet(b)
    ensures forall a :: a in moves ==> BestForO(b, moves) <= MaxValueOf(Child(b, a))
    ensures exists a :: a in moves && BestForO(b, moves) == MaxValueOf(Child(b, a))
    decreases moves
  {
    var a := Pick(moves);
    if moves != {a} {
      BestForOIsMinimum(b, moves - {a});
    }
  }

  // ---------------------------------------------------------------------------
  // Lemmas about counting
  // ---------------------------------------------------------------------------

  lemma {:induction false} CountRowPrefix(row: seq<Cell>, k: nat, v: Cell)
    requires k < |row|
    ensures CountRow(row[..k + 1], v) == CountRow(row[..k], v) + (if row[k] == v then 1 else 0)
  {
    assert row[..k + 1][..k] == row[..k];
  }

  lemma {:induction false} CountBoardPrefix(b: seq<seq<Cell>>, k: nat, v: Cell)
    requires k < |b|
    ensures CountBoard(b[..k + 1], v) == CountBoard(b[..k], v) + CountRow(b[k], v)
  {
    assert b[..k + 1][..k] == b[..k];
  }

  /** No cell of `row` equals `v` exactly when the count is zero. */
  lemma {:induction false} CountRowZero(row: seq<Cell>, v: Cell)
    ensures CountRow(row, v) == 0 <==> forall c :: 0 <= c < |row| ==> row[c] != v
  {
    if row != [] {
      var init := row[..|row| - 1];
      CountRowZero(init, v);
      assert forall c :: 0 <= c < |init| ==> init[c] == row[c];
    }
  }

  lemma {:induction false} CountBoardZero(b: seq<seq<Cell>>, v: Cell)
    ensures CountBoard(b, v) == 0 <==> forall r, c :: 0 <= r < |b| && 0 <= c < |b[r]| ==> b[r][c] != v
  {
    if b != [] {
      var init := b[..|b| - 1];
      CountBoardZero(init, v);
      CountRowZero(b[|b| - 1], v);
      assert forall r :: 0 <= r < |init| ==> init[r] == b[r];
    }
  }

  /** Writing `v` over an EMPTY cell adds one `v` and leaves other counts alone. */
  lemma {:induction false} CountRowUpdate(row: seq<Cell>, c: nat, v: Cell, w: Cell)
    requires c < |row| && row[c] == Empty && v != Empty
    ensures CountRow(row[c := v], w) == CountRow(row, w) + (if w == v then 1 else 0) - (if w == Empty then 1 else 0)
  {
    var last := |row| - 1;
    if c == last {
      assert row[c := v][..last] == row[..last];
    } else {
      assert row[c := v][..last] == row[..last][c := v];
      CountRowUpdate(row[..last], c, v, w);
    }
  }

  lemma {:induction false} CountBoardUpdate(b: seq<seq<Cell>>, r: nat, c: nat, v: Cell, w: Cell)
    requires r < |b| && c < |b[r]| && b[r][c] == Empty && v != Empty
    ensures CountBoard(b[r := b[r][c := v]], w)
         == CountBoard(b, w) + (if w == v then 1 else 0) - (if w == Empty then 1 else 0)
  {
    var last := |b| - 1;
    var nb := b[r := b[r][c := v]];
    if r == last {
      assert nb[..last] == b[..last];
      CountRowUpdate(b[r], c, v, w);
    } else {
      assert nb[..last] == b[..last][r := b[r][c := v]];
      CountBoardUpdate(b[..last], r, c, v, w);
    }
  }

  /** In a game started from the empty board X has as many marks as O, or one more. */
  predicate Balanced(b: Board)
  {
    CountBoard(b, Filled(X)) == CountBoard(b, Filled(O))
    || CountBoard(b, Filled(X)) == CountBoard(b, Filled(O)) + 1
  }

  /** Every legal move keeps the marks balanced and hands the turn to the other player. */
  lemma TurnAlternates(b: Board, a: Action)
    requires IsBoard(b) && Balanced(b) && IsAction(b, a)
    ensures Balanced(Child(b, a))
    ensures Turn(Child(b, a)) != Turn(b)
  {
    var m := Turn(b);
    CountBoardUpdate(b, a.0, a.1, Filled(m), Filled(X));
    CountBoardUpdate(b, a.0, a.1, Filled(m), Filled(O));
  }

  lemma InitialStateFacts()
    ensures Turn(InitialState()) == X && Balanced(InitialState())
    ensures forall r, c :: 0 <= r < N && 0 <= c < N ==> IsAction(InitialState(), (r, c))
    ensures !Terminal(InitialState())
  {
    var b := InitialState();
    CountBoardZero(b, Filled(X));
    CountBoardZero(b, Filled(O));
    assert IsAction(b, (0, 0));
    assert !RowWin(b, X) && !RowWin(b, O);
    assert !ColWin(b, X) && !ColWin(b, O);
    assert !MainDiagWin(b, X) && !MainDiagWin(b, O);
    assert !AntiDiagWin(b, X) && !AntiDiagWin(b, O);
  }

  // ---------------------------------------------------------------------------
  // The Python functions built from loops
  // ---------------------------------------------------------------------------

  /** player: counts the marks of each side and gives the turn to O when X is ahead. */
  method Player(b: Board) returns (p: Mark)
    ensures p == Turn(b)
    ensures p == O <==> CountBoard(b, Filled(X)) > CountBoard(b, Filled(O))
  {
    var countX, countO := 0, 0;
    var row := 0;
    while row < |b|
      invariant 0 <= row <= |b|
      invariant countX == CountBoard(b[..row], Filled(X))
      invariant countO == CountBoard(b[..row], Filled(O))
    {
      var col := 0;
      while col < |b[row]|
        invariant 0 <= col <= |b[row]|
        invariant countX == CountBoard(b[..row], Filled(X)) + CountRow(b[row][..col], Filled(X))
        invariant countO == CountBoard(b[..row], Filled(O)) + CountRow(b[row][..col], Filled(O))
      {
        CountRowPrefix(b[row], col, Filled(X));
        CountRowPrefix(b[row], col, Filled(O));
        if b[row][col] == Filled(X) {
          countX := countX + 1;
        }
        if b[row][col] == Filled(O) {
          countO := countO + 1;
        }
        col := col + 1;
      }
      assert b[row][..col] == b[row];
      CountBoardPrefix(b, row, Filled(X));
      CountBoardPrefix(b, row, Filled(O));
      row := row + 1;
    }
    assert b[..row] == b;
    if countX > countO {
      p := O;
    } else {
      p := X;
    }
  }

  /** actions: the set of coordinates of the EMPTY cells. */
  method Actions(b: Board) returns (acts: set<Action>)
    ensures forall a :: a in acts <==> IsAction(b, a)
    ensures acts == ActionSet(b)
  {
    acts := {};
    var row := 0;
    while row < |b|
      invariant 0 <= row <= |b|
      invariant forall a :: a in acts <==> IsAction(b, a) && a.0 < row
    {
      var col := 0;
      while col < |b[row]|
        invariant 0 <= col <= |b[row]|
        invariant forall a :: a in acts <==> IsAction(b, a) && (a.0 < row || (a.0 == row && a.1 < col))
      {
        if b[row][col] == Empty {
          acts := acts + {(row, col)};
        }
        col := col + 1;
      }
      row := row + 1;
    }
  }

  /** checkRow: some row holds `m` in every column. */
  method CheckRow(b: Board, m: Mark) returns (found: bool)
    requires IsBoard(b)
    ensures found <==> RowWin(b, m)
  {
    var numRows := |b|;
    var numCols := |b[0]|;
    for row := 0 to numRows
      invariant forall r :: 0 <= r < row ==> !RowFull(b, r, m)
    {
      if forall col | 0 <= col < numCols :: b[row][col] == Filled(m) {
        assert RowFull(b, row, m);
        return true;
      }
    }
    return false;
  }

  /** checkCol: some column holds `m` in every row. */
  method CheckCol(b: Board, m: Mark) returns (found: bool)
    requires IsBoard(b)
    ensures found <==> ColWin(b, m)
  {
    var numRows := |b|;
    var numCols := |b[0]|;
    for col := 0 to numCols
      invariant forall c :: 0 <= c < col ==> !ColFull(b, c, m)
    {
      if forall row | 0 <= row < numRows :: b[row][col] == Filled(m) {
        assert ColFull(b, col, m);
        return true;
      }
    }
    return false;
  }

  /** diagOne: counts the cells of the main diagonal holding `m`; full when all three do. */
  method DiagOne(b: Board, m: Mark) returns (full: bool)
    requires IsBoard(b)
    ensures full <==> MainDiagWin(b, m)
  {
    var score := 0;
    var numRows := |b|;
    var numCols := |b[0]|;
    for row := 0 to numRows
      invariant 0 <= score <= row
      invariant score == row <==> forall i :: 0 <= i < row ==> b[i][i] == Filled(m)
    {
      ghost var before := score;
      for col := 0 to numCols
        invariant score == before + (if row < col && b[row][row] == Filled(m) then 1 else 0)
      {
        if row == col && b[row][col] == Filled(m) {
          score := score + 1;
        }
      }
    }
    full := score == |b|;
  }

  /** diagTwo: counts the cells of the anti-diagonal holding `m`; full when all three do. */
  method DiagTwo(b: Board, m: Mark) returns (full: bool)
    requires IsBoard(b)
    ensures full <==> AntiDiagWin(b, m)
  {
    var score := 0;
    var numRows := |b|;
    for i := 0 to numRows
      invariant 0 <= score <= i
      invariant score == i <==> forall k :: 0 <= k < i ==> b[k][N - 1 - k] == Filled(m)
    {
      if b[i][|b| - 1 - i] == Filled(m) {
        score := score + 1;
      }
    }
    full := score == |b|;
  }

  /** tie: starts from the number of cells and subtracts every occupied one. */
  method Tie(b: Board) returns (t: bool)
    requires IsBoard(b)
    ensures t <==> IsFull(b)
  {
    var countEmpty := |b| * |b[0]|;
    var numRows := |b|;
    var numCols := |b[0]|;
    for row := 0 to numRows
      invariant countEmpty == CountBoard(b[..row], Empty) + N * (N - row)
    {
      for col := 0 to numCols
        invariant countEmpty == CountBoard(b[..row], Empty) + CountRow(b[row][..col], Empty) + (N - col) + N * (N - 1 - row)
      {
        CountRowPrefix(b[row], col, Empty);
        if b[row][col] != Empty {
          countEmpty := countEmpty - 1;
        }
      }
      assert b[row][..N] == b[row];
      CountBoardPrefix(b, row, Empty);
    }
    assert b[..N] == b;
    CountBoardZero(b, Empty);
    t := countEmpty == 0;
  }

  /** The value of a board that is not finished is the best value of a move for X. */
  lemma MaxValueOfIsBest(b: Board)
    requires IsBoard(b) && !Terminal(b)
    ensures forall a :: a in ActionSet(b) ==> MinValueOf(Child(b, a)) <= MaxValueOf(b)
    ensures exists a :: a in ActionSet(b) && MaxValueOf(b) == MinValueOf(Child(b, a))
  {
    FullIffNoAction(b);
    BestForXIsMaximum(b, ActionSet(b));
  }

  /** The value of a board that is not finished is the best value of a move for O. */
  lemma MinValueOfIsBest(b: Board)
    requires IsBoard(b) && !Terminal(b)
    ensures forall a :: a in ActionSet(b) ==> MinValueOf(b) <= MaxValueOf(Child(b, a))
    ensures exists a :: a in ActionSet(b) && MinValueOf(b) == MaxValueOf(Child(b, a))
  {
    FullIffNoAction(b);
    BestForOIsMinimum(b, ActionSet(b));
  }

  /** max_value: the largest min_value over the legal moves, or the utility of a finished board. */
  method MaxValue(b: Board) returns (v: int)
    requires IsBoard(b)
    ensures v == MaxValueOf(b)
    ensures -1 <= v <= 1
    decreases CountBoard(b, Empty), 2
  {
    if Terminal(b) {
      return Utility(b);
    }
    var acts := Actions(b);
    v := -2;  // stands for -math.inf: below every utility
    var remaining := acts;
    ghost var done: set<Action> := {};
    ghost var best: Action := (0, 0);
    while remaining != {}
      invariant remaining <= acts && done == acts - remaining
      invariant forall a :: a in done ==> MinValueOf(Child(b, a)) <= v
      invariant done != {} ==> best in done && v == MinValueOf(Child(b, best)) && -1 <= v <= 1
      invariant done == {} ==> v == -2
      decreases remaining
    {
      var a :| a in remaining;
      var w := MinValue(Child(b, a));
      if done == {} || v < w {
        best := a;
      }
      v := Max(v, w);
      remaining := remaining - {a};
      done := done + {a};
    }
    MaxValueOfIsBest(b);
  }

  /** min_value: the smallest max_value over the legal moves, or the utility of a finished board. */
  method MinValue(b: Board) returns (v: int)
    requires IsBoard(b)
    ensures v == MinValueOf(b)
    ensures -1 <= v <= 1
    decreases CountBoard(b, Empty), 2
  {
    if Terminal(b) {
      return Utility(b);
    }
    var acts := Actions(b);
    v := 2;  // stands for math.inf: above every utility
    var remaining := acts;
    ghost var done: set<Action> := {};
    ghost var best: Action := (0, 0);
    while remaining != {}
      invariant remaining <= acts && done == acts - remaining
      invariant forall a :: a in done ==> v <= MaxValueOf(Child(b, a))
      invariant done != {} ==> best in done && v == MaxValueOf(Child(b, best)) && -1 <= v <= 1
      invariant done == {} ==> v == 2
      decreases remaining
    {
      var a :| a in remaining;
      var w := MaxValue(Child(b, a));
      if done == {} || w < v {
        best := a;
      }
      v := Min(v, w);
      remaining := remaining - {a};
      done := done + {a};
    }
    MinValueOfIsBest(b);
  }

  /**
   * The index of the first entry with the largest (`highFirst`) or smallest
   * value: the head of a stable sort of `options` by value.
   */
  method FirstBest(options: seq<(int, Action)>, highFirst: bool) returns (k: nat)
    requires |options| > 0
    ensures k < |options|
    ensures highFirst ==> forall i :: 0 <= i < |options| ==> options[i].0 <= options[k].0
    ensures highFirst ==> forall i :: 0 <= i < k ==> options[i].0 < options[k].0
    ensures !highFirst ==> forall i :: 0 <= i < |options| ==> options[k].0 <= options[i].0
    ensures !highFirst ==> forall i :: 0 <= i < k ==> options[k].0 < options[i].0
  {
    k := 0;
    for i := 1 to |options|
      invariant k < i
      invariant highFirst ==> forall j :: 0 <= j < i ==> options[j].0 <= options[k].0
      invariant highFirst ==> forall j :: 0 <= j < k ==> options[j].0 < options[k].0
      invariant !highFirst ==> forall j :: 0 <= j < i ==> options[k].0 <= options[j].0
      invariant !highFirst ==> forall j :: 0 <= j < k ==> options[k].0 < options[j].0
    {
      if (highFirst && options[i].0 > options[k].0) || (!highFirst && options[i].0 < options[k].0) {
        k := i;
      }
    }
  }

  /** The loop of minimax for X: each legal move, paired with the value O can then force. */
  method OptionsForX(b: Board, acts: set<Action>) returns (options: seq<(int, Action)>)
    requires IsBoard(b) && acts == ActionSet(b)
    ensures forall i :: 0 <= i < |options| ==> options[i].1 in acts && IsAction(b, options[i].1)
    ensures forall i :: 0 <= i < |options| ==> options[i].0 == MinValueOf(Child(b, options[i].1))
    ensures forall a :: a in acts ==> exists i :: 0 <= i < |options| && options[i].1 == a
  {
    options := [];
    var remaining := acts;
    while remaining != {}
      invariant remaining <= acts
      invariant forall i :: 0 <= i < |options| ==> options[i].1 in acts - remaining && IsAction(b, options[i].1)
      invariant forall i :: 0 <= i < |options| ==> options[i].0 == MinValueOf(Child(b, options[i].1))
      invariant forall a :: a in acts - remaining ==> exists i :: 0 <= i < |options| && options[i].1 == a
      decreases remaining
    {
      var a :| a in remaining;
      assert IsAction(b, a);
      var value := MinValue(Child(b, a));
      ghost var prev, prevRemaining := options, remaining;
      options := options + [(value, a)];
      remaining := remaining - {a};
      forall a' | a' in acts - remaining
        ensures exists i :: 0 <= i < |options| && options[i].1 == a'
      {
        if a' == a {
          assert options[|prev|].1 == a';
        } else {
          assert a' in acts - prevRemaining;
          var i :| 0 <= i < |prev| && prev[i].1 == a';
          assert options[i].1 == a';
        }
      }
    }
    assert acts - remaining == acts;
  }

  /** The loop of minimax for O: each legal move, paired with the value X can then force. */
  method OptionsForO(b: Board, acts: set<Action>) returns (options: seq<(int, Action)>)
    requires IsBoard(b) && acts == ActionSet(b)
    ensures forall i :: 0 <= i < |options| ==> options[i].1 in acts && IsAction(b, options[i].1)
    ensures forall i :: 0 <= i < |options| ==> options[i].0 == MaxValueOf(Child(b, options[i].1))
    ensures forall a :: a in acts ==> exists i :: 0 <= i < |options| && options[i].1 == a
  {
    options := [];
    var remaining := acts;
    while remaining != {}
      invariant remaining <= acts
      invariant forall i :: 0 <= i < |options| ==> options[i].1 in acts - remaining && IsAction(b, options[i].1)
      invariant forall i :: 0 <= i < |options| ==> options[i].0 == MaxValueOf(Child(b, options[i].1))
      invariant forall a :: a in acts - remaining ==> exists i :: 0 <= i < |options| && options[i].1 == a
      decreases remaining
    {
      var a :| a in remaining;
      assert IsAction(b, a);
      var value := MaxValue(Child(b, a));
      ghost var prev, prevRemaining := options, remaining;
      options := options + [(value, a)];
      remaining := remaining - {a};
      forall a' | a' in acts - remaining
        ensures exists i :: 0 <= i < |options| && options[i].1 == a'
      {
        if a' == a {
          assert options[|prev|].1 == a';
        } else {
          assert a' in acts - prevRemaining;
          var i :| 0 <= i < |prev| && prev[i].1 == a';
          assert options[i].1 == a';
        }
      }
    }
    assert acts - remaining == acts;
  }

  /** The branch of minimax for X: the first move of highest value after a stable sort. */
  method MoveForX(b: Board, acts: set<Action>) returns (best: Action)
    requires IsBoard(b) && acts == ActionSet(b) && !Terminal(b)
    ensures best in acts
    ensures forall a :: a in acts ==> MinValueOf(Child(b, a)) <= MinValueOf(Child(b, best))
    ensures MinValueOf(Child(b, best)) == MaxValueOf(b)
  {
    TerminalIffNoMoves(b);
    var someA :| someA in acts;
    var options := OptionsForX(b, acts);
    var k := FirstBest(options, true);
    best := options[k].1;
    forall a | a in acts
      ensures MinValueOf(Child(b, a)) <= MinValueOf(Child(b, best))
    {
      var i :| 0 <= i < |options| && options[i].1 == a;
    }
    MaxValueOfIsBest(b);
  }

  /** The branch of minimax for O: the first move of lowest value after a stable sort. */
  method MoveForO(b: Board, acts: set<Action>) returns (best: Action)
    requires IsBoard(b) && acts == ActionSet(b) && !Terminal(b)
    ensures best in acts
    ensures forall a :: a in acts ==> MaxValueOf(Child(b, best)) <= MaxValueOf(Child(b, a))
    ensures MaxValueOf(Child(b, best)) == MinValueOf(b)
  {
    TerminalIffNoMoves(b);
    var someA :| someA in acts;
    var options := OptionsForO(b, acts);
    var k := FirstBest(options, false);
    best := options[k].1;
    forall a | a in acts
      ensures MaxValueOf(Child(b, best)) <= MaxValueOf(Child(b, a))
    {
      var i :| 0 <= i < |options| && options[i].1 == a;
    }
    MinValueOfIsBest(b);
  }

  /**
   * minimax: no move on a finished board; otherwise a legal move that is
   * optimal for the player to move, so that its value is the board's value.
   */
  method Minimax(b: Board) returns (move: Option<Action>)
    requires IsBoard(b)
    ensures move.None? <==> Terminal(b)
    ensures move.Some? ==> IsAction(b, move.value)
    ensures move.Some? && Turn(b) == X ==>
      (forall a :: IsAction(b, a) ==> MinValueOf(Child(b, a)) <= MinValueOf(Child(b, move.value)))
      && MinValueOf(Child(b, move.value)) == MaxValueOf(b)
    ensures move.Some? && Turn(b) == O ==>
      (forall a :: IsAction(b, a) ==> MaxValueOf(Child(b, move.value)) <= MaxValueOf(Child(b, a)))
      && MaxValueOf(Child(b, move.value)) == MinValueOf(b)
  {
    if Terminal(b) {
      return None;
    }
    var p := Player(b);
    var acts := Actions(b);
    var best;
    if p == X {
      best := MoveForX(b, acts);
    } else {
      best := MoveForO(b, acts);
    }
    move := Some(best);
  }
}
