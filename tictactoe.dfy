/** Board state and rules of 3x3 tic-tac-toe: the turn, the legal moves, the
    successor board, the winner, terminal detection and terminal scoring. */
module TicTacToe {

  /** A cell of the board; `Empty` is the source's `EMPTY`. */
  datatype Cell = Empty | X | O

  type Row = r: seq<Cell> | |r| == 3 witness [Empty, Empty, Empty]

  /** A 3x3 grid, indexed `b[row][column]`. Boards are values: transitions
      build new boards and never alias the old one. */
  type Board = b: seq<Row> | |b| == 3
    witness [[Empty, Empty, Empty], [Empty, Empty, Empty], [Empty, Empty, Empty]]

  /** A move `(row, column)`. */
  type Action = (int, int)

  /** The two ways an operation can refuse: the game is already over (the
      source returns the string "Game is already over"), or the target cell
      is occupied (the source raises `ValueError`). */
  datatype Error = GameOver | InvalidAction

  datatype Outcome<T> = Ok(value: T) | Err(error: Error)

  datatype Option<T> = None | Some(value: T)

  predicate InRange(a: Action) {
    0 <= a.0 < 3 && 0 <= a.1 < 3
  }

  function At(b: Board, a: Action): Cell
    requires InRange(a)
  {
    b[a.0][a.1]
  }

  predicate Distinct<T(==)>(s: seq<T>) {
    forall p, q :: 0 <= p < q < |s| ==> s[p] != s[q]
  }

  // ---------------------------------------------------------------------
  // Counting marks

  /** Number of cells of `r` holding `c`. */
  function CountRow(r: seq<Cell>, c: Cell): nat {
    if r == [] then 0 else CountRow(r[..|r| - 1], c) + (if r[|r| - 1] == c then 1 else 0)
  }

  /** Number of cells holding `c` in a sequence of rows. */
  function CountRows(rows: seq<seq<Cell>>, c: Cell): nat {
    if rows == [] then 0 else CountRows(rows[..|rows| - 1], c) + CountRow(rows[|rows| - 1], c)
  }

  function Count(b: Board, c: Cell): nat {
    CountRows(b, c)
  }

  lemma {:induction false} CountRowUpdate(r: seq<Cell>, j: nat, m: Cell, c: Cell)
    requires j < |r|
    ensures CountRow(r[j := m], c)
            == CountRow(r, c) - (if r[j] == c then 1 else 0) + (if m == c then 1 else 0)
  {
    var n := |r|;
    if j < n - 1 {
      assert r[j := m][..n - 1] == r[..n - 1][j := m];
      CountRowUpdate(r[..n - 1], j, m, c);
    } else {
      assert r[j := m][..n - 1] == r[..n - 1];
    }
  }

  lemma {:induction false} CountRowsUpdate(rows: seq<seq<Cell>>, i: nat, r: seq<Cell>, c: Cell)
    requires i < |rows|
    ensures CountRows(rows[i := r], c) == CountRows(rows, c) - CountRow(rows[i], c) + CountRow(r, c)
  {
    var n := |rows|;
    if i < n - 1 {
      assert rows[i := r][..n - 1] == rows[..n - 1][i := r];
      CountRowsUpdate(rows[..n - 1], i, r, c);
    } else {
      assert rows[i := r][..n - 1] == rows[..n - 1];
    }
  }

  lemma {:induction false} CountRowTotal(r: seq<Cell>)
    ensures CountRow(r, X) + CountRow(r, O) + CountRow(r, Empty) == |r|
  {
    if r != [] {
      CountRowTotal(r[..|r| - 1]);
    }
  }

  lemma {:induction false} CountRowsTotal(rows: seq<Row>)
    ensures CountRows(rows, X) + CountRows(rows, O) + CountRows(rows, Empty) == 3 * |rows|
  {
    if rows != [] {
      CountRowsTotal(rows[..|rows| - 1]);
      CountRowTotal(rows[|rows| - 1]);
    }
  }

  lemma {:induction false} CountRowUniform(r: seq<Cell>, c: Cell)
    requires forall k :: 0 <= k < |r| ==> r[k] == c
    ensures CountRow(r, c) == |r|
    ensures forall d :: d != c ==> CountRow(r, d) == 0
  {
    if r != [] {
      CountRowUniform(r[..|r| - 1], c);
    }
  }

  lemma {:induction false} CountRowZero(r: seq<Cell>, c: Cell)
    ensures CountRow(r, c) == 0 <==> c !in r
  {
    if r != [] {
      CountRowZero(r[..|r| - 1], c);
      assert r == r[..|r| - 1] + [r[|r| - 1]];
    }
  }

  /** The count over a board is the sum of the counts of its three rows. */
  lemma CountByRows(b: Board, c: Cell)
    ensures Count(b, c) == CountRow(b[0], c) + CountRow(b[1], c) + CountRow(b[2], c)
  {
    assert b[..|b| - 1] == b[..2] && b[..2][..1] == b[..1] && b[..1][..0] == [];
    assert b[..2][1] == b[1] && b[..1][0] == b[0];
    assert CountRows(b[..1], c) == CountRow(b[0], c);
    assert CountRows(b[..2], c) == CountRow(b[0], c) + CountRow(b[1], c);
  }

  /** Every one of the nine cells holds exactly one of the three values. */
  lemma CountTotal(b: Board)
    ensures Count(b, X) + Count(b, O) + Count(b, Empty) == 9
  {
    CountRowsTotal(b);
  }

  // ---------------------------------------------------------------------
  // initial_state

  function InitialState(): (b: Board)
    ensures forall i, j :: 0 <= i < 3 && 0 <= j < 3 ==> b[i][j] == Empty
  {
    [[Empty, Empty, Empty], [Empty, Empty, Empty], [Empty, Empty, Empty]]
  }

  // ---------------------------------------------------------------------
  // player

  /** The mark to move on a board, from the mark counts: X moves first and
      O moves exactly when X has placed more marks. */
  function Turn(b: Board): Cell {
    if Count(b, X) > Count(b, O) then O else X
  }

  /** The mark to move, found by counting the marks row by row; a board
      that is already over has no mark to move. */
  method Player(b: Board) returns (p: Outcome<Cell>)
    ensures Terminal(b) ==> p == Err(GameOver)
    ensures !Terminal(b) ==> p == Ok(if Count(b, X) > Count(b, O) then O else X)
  {
    if Terminal(b) {
      return Err(GameOver);
    }
    var numX, numO := 0, 0;
    for i := 0 to 3
      invariant numX == CountRows(b[..i], X) && numO == CountRows(b[..i], O)
    {
      var row := b[i];
      for j := 0 to 3
        invariant numX == CountRows(b[..i], X) + CountRow(row[..j], X)
        invariant numO == CountRows(b[..i], O) + CountRow(row[..j], O)
      {
        assert row[..j + 1][..j] == row[..j];
        if row[j] == X {
          numX := numX + 1;
        } else if row[j] == O {
          numO := numO + 1;
        }
      }
      assert row[..3] == row;
      assert b[..i + 1][..i] == b[..i];
    }
    assert b[..3] == b;
    if numX > numO {
      p := Ok(O);
    } else {
      p := Ok(X);
    }
  }

  // ---------------------------------------------------------------------
  // actions

  /** The empty cells of row `i` among its first `j` columns, left to right. */
  function EmptyInRow(b: Board, i: nat, j: nat): seq<Action>
    requires i < 3 && j <= 3
  {
    if j == 0 then []
    else EmptyInRow(b, i, j - 1) + (if b[i][j - 1] == Empty then [(i as int, j - 1)] else [])
  }

  /** The empty cells of the first `i` rows, in row-major order. */
  function EmptyInRows(b: Board, i: nat): seq<Action>
    requires i <= 3
  {
    if i == 0 then [] else EmptyInRows(b, i - 1) + EmptyInRow(b, i - 1, 3)
  }

  lemma {:induction false} EmptyInRowMembers(b: Board, i: nat, j: nat)
    requires i < 3 && j <= 3
    ensures forall a :: a in EmptyInRow(b, i, j) <==> a.0 == i && 0 <= a.1 < j && b[i][a.1] == Empty
    ensures Distinct(EmptyInRow(b, i, j))
    ensures |EmptyInRow(b, i, j)| == CountRow(b[i][..j], Empty)
  {
    if j > 0 {
      EmptyInRowMembers(b, i, j - 1);
      assert b[i][..j][..j - 1] == b[i][..j - 1];
    }
  }

  lemma {:induction false} EmptyInRowsMembers(b: Board, i: nat)
    requires i <= 3
    ensures forall a :: a in EmptyInRows(b, i) <==> 0 <= a.0 < i && 0 <= a.1 < 3 && b[a.0][a.1] == Empty
    ensures Distinct(EmptyInRows(b, i))
    ensures |EmptyInRows(b, i)| == CountRows(b[..i], Empty)
  {
    if i > 0 {
      EmptyInRowsMembers(b, i - 1);
      EmptyInRowMembers(b, i - 1, 3);
      assert b[i - 1][..3] == b[i - 1];
      assert b[..i][..i - 1] == b[..i - 1];
      var s, t := EmptyInRows(b, i - 1), EmptyInRow(b, i - 1, 3);
      forall p, q | 0 <= p < q < |s + t| ensures (s + t)[p] != (s + t)[q] {
        if q >= |s| && p < |s| {
          assert (s + t)[p] in s && (s + t)[q] in t;
        }
      }
    }
  }

  /** No cell is empty: every row lacks `Empty`. */
  predicate Full(b: Board) {
    forall i :: 0 <= i < 3 ==> Empty !in b[i]
  }

  /** The legal moves of a board, in row-major order: exactly the in-range
      empty cells. */
  function EmptyCells(b: Board): (r: seq<Action>)
    ensures forall a :: a in r <==> InRange(a) && At(b, a) == Empty
  {
    EmptyInRowsMembers(b, 3);
    assert b[..3] == b;
    EmptyInRows(b, 3)
  }

  /** Each legal move is listed once, there are as many as there are empty
      cells, and there are none exactly when the board is full. */
  lemma EmptyCellsFacts(b: Board)
    ensures Distinct(EmptyCells(b))
    ensures |EmptyCells(b)| == Count(b, Empty)
    ensures EmptyCells(b) == [] <==> Full(b)
  {
    EmptyInRowsMembers(b, 3);
    assert b[..3] == b;
    CountByRows(b, Empty);
    CountRowZero(b[0], Empty);
    CountRowZero(b[1], Empty);
    CountRowZero(b[2], Empty);
  }

  /** The legal moves, collected by walking the cells row by row; a board
      that is already over has none to offer. */
  method Actions(b: Board) returns (r: Outcome<seq<Action>>)
    ensures Terminal(b) ==> r == Err(GameOver)
    ensures !Terminal(b) ==> r == Ok(EmptyCells(b))
  {
    if Terminal(b) {
      return Err(GameOver);
    }
    var possible: seq<Action> := [];
    for i := 0 to |b|
      invariant possible == EmptyInRows(b, i)
    {
      for j := 0 to |b[i]|
        invariant possible == EmptyInRows(b, i) + EmptyInRow(b, i, j)
      {
        var cell := b[i][j];
        if cell == Empty {
          possible := possible + [(i, j)];
        }
      }
    }
    r := Ok(possible);
  }

  // ---------------------------------------------------------------------
  // result

  /** `b` with the cell `a` set to `m`. */
  function Place(b: Board, a: Action, m: Cell): Board
    requires InRange(a)
  {
    b[a.0 := b[a.0][a.1 := m]]
  }

  /** The board after the player to move marks cell `a`. */
  function Successor(b: Board, a: Action): Board
    requires InRange(a)
  {
    Place(b, a, Turn(b))
  }

  /** Marking an empty cell leaves one empty cell fewer: the measure on
      which the game search terminates. */
  lemma SuccessorFewerEmpty(b: Board, a: Action)
    requires InRange(a) && At(b, a) == Empty
    ensures Count(Successor(b, a), Empty) == Count(b, Empty) - 1
  {
    CountRowUpdate(b[a.0], a.1, Turn(b), Empty);
    CountRowsUpdate(b, a.0, b[a.0][a.1 := Turn(b)], Empty);
  }

  /** The successor holds the mover's mark at `a` and agrees with `b` on
      every other cell; when `a` was empty it has one empty cell fewer, one
      more mark of the mover and as many marks of the other player. */
  lemma SuccessorFacts(b: Board, a: Action)
    requires InRange(a)
    ensures At(Successor(b, a), a) == Turn(b)
    ensures forall a' :: InRange(a') && a' != a ==> At(Successor(b, a), a') == At(b, a')
    ensures At(b, a) == Empty ==> Count(Successor(b, a), Empty) == Count(b, Empty) - 1
    ensures At(b, a) == Empty ==> Count(Successor(b, a), Turn(b)) == Count(b, Turn(b)) + 1
    ensures forall c :: c != Empty && c != Turn(b) && At(b, a) == Empty ==> Count(Successor(b, a), c) == Count(b, c)
  {
    var m := Turn(b);
    var r := Successor(b, a);
    forall c ensures Count(r, c) == Count(b, c) - (if At(b, a) == c then 1 else 0) + (if m == c then 1 else 0) {
      CountRowUpdate(b[a.0], a.1, m, c);
      CountRowsUpdate(b, a.0, b[a.0][a.1 := m], c);
    }
  }

  /** The board after the player to move marks the in-range cell `a`: the
      input board is copied and one cell of the copy is set. An occupied
      cell is refused, and so is a move on a board that is already over,
      where there is no player to move. */
  method Result(b: Board, a: Action) returns (r: Outcome<Board>)
    requires InRange(a)
    ensures At(b, a) != Empty ==> r == Err(InvalidAction)
    ensures At(b, a) == Empty && Terminal(b) ==> r == Err(GameOver)
    ensures At(b, a) == Empty && !Terminal(b) ==> r == Ok(Successor(b, a))
  {
    var i, j := a.0, a.1;
    var resultBoard := b;
    if b[i][j] == Empty {
      var p := Player(b);
      if p.Err? {
        return Err(p.error);
      }
      resultBoard := resultBoard[i := resultBoard[i][j := p.value]];
      return Ok(resultBoard);
    } else {
      return Err(InvalidAction);
    }
  }

  // ---------------------------------------------------------------------
  // winner

  predicate HasRow(b: Board, m: Cell) {
    exists i :: 0 <= i < 3 && b[i][0] == m && b[i][1] == m && b[i][2] == m
  }

  predicate HasColumn(b: Board, m: Cell) {
    exists j :: 0 <= j < 3 && b[0][j] == m && b[1][j] == m && b[2][j] == m
  }

  predicate HasDiagonal(b: Board, m: Cell) {
    (b[0][0] == m && b[1][1] == m && b[2][2] == m) || (b[2][0] == m && b[1][1] == m && b[0][2] == m)
  }

  /** `m` fills one of the eight lines: a row, a column or a diagonal. */
  predicate HasLine(b: Board, m: Cell) {
    HasRow(b, m) || HasColumn(b, m) || HasDiagonal(b, m)
  }

  /** The winning mark, X taking precedence when both have a line. */
  function WinnerOf(b: Board): Option<Cell> {
    if HasLine(b, X) then Some(X) else if HasLine(b, O) then Some(O) else None
  }

  /** The winner, found by listing the two diagonals, the three columns and
      the three rows and looking for an all-X line first and an all-O line
      second. */
  method Winner(b: Board) returns (w: Option<Cell>)
    ensures w == Some(X) <==> HasLine(b, X)
    ensures w == Some(O) <==> !HasLine(b, X) && HasLine(b, O)
    ensures w == None <==> !HasLine(b, X) && !HasLine(b, O)
  {
    var xWin := [X, X, X];
    var oWin := [O, O, O];
    var diagonals := [[b[0][0], b[1][1], b[2][2]], [b[2][0], b[1][1], b[0][2]]];
    var rows: seq<seq<Cell>> := b;
    var columns: seq<seq<Cell>> := [];
    for numCol := 0 to 3
      invariant |columns| == numCol
      invariant forall k :: 0 <= k < numCol ==> columns[k] == [b[0][k], b[1][k], b[2][k]]
    {
      var column := [b[0][numCol], b[1][numCol], b[2][numCol]];
      columns := columns + [column];
    }
    var threeInARow := diagonals + columns + rows;
    LinesContain(b, threeInARow, X);
    LinesContain(b, threeInARow, O);
    if xWin in threeInARow {
      w := Some(X);
    } else if oWin in threeInARow {
      w := Some(O);
    } else {
      w := None;
    }
  }

  /** The diagonals, then the columns, then the rows, as lists of cells,
      contain `[m, m, m]` exactly when `m` fills a line. */
  lemma LinesContain(b: Board, lines: seq<seq<Cell>>, m: Cell)
    requires |lines| == 8
    requires lines[0] == [b[0][0], b[1][1], b[2][2]] && lines[1] == [b[2][0], b[1][1], b[0][2]]
    requires forall k :: 0 <= k < 3 ==> lines[2 + k] == [b[0][k], b[1][k], b[2][k]]
    requires forall k :: 0 <= k < 3 ==> lines[5 + k] == b[k]
    ensures [m, m, m] in lines <==> HasLine(b, m)
  {
    if [m, m, m] in lines {
      var k :| 0 <= k < 8 && lines[k] == [m, m, m];
      if 2 <= k < 5 {
        assert b[0][k - 2] == m && b[1][k - 2] == m && b[2][k - 2] == m;
        assert HasColumn(b, m);
      } else if 5 <= k {
        assert b[k - 5] == [m, m, m];
        assert b[k - 5][0] == m && b[k - 5][1] == m && b[k - 5][2] == m;
        assert HasRow(b, m);
      }
    }
    if HasRow(b, m) {
      var i :| 0 <= i < 3 && b[i][0] == m && b[i][1] == m && b[i][2] == m;
      assert lines[5 + i] == [m, m, m];
    }
    if HasColumn(b, m) {
      var j :| 0 <= j < 3 && b[0][j] == m && b[1][j] == m && b[2][j] == m;
      assert lines[2 + j] == [m, m, m];
    }
    if HasDiagonal(b, m) {
      if b[0][0] == m && b[1][1] == m && b[2][2] == m {
        assert lines[0] == [m, m, m];
      } else {
        assert lines[1] == [m, m, m];
      }
    }
  }

  // ---------------------------------------------------------------------
  // terminal and utility

  /** The game is over: someone has a line, or no cell is empty. */
  function Terminal(b: Board): bool {
    WinnerOf(b) != None || Full(b)
  }

  /** The game is over exactly when X or O fills a line or there is no legal
      move left. */
  lemma TerminalIff(b: Board)
    ensures Terminal(b) <==> HasLine(b, X) || HasLine(b, O) || EmptyCells(b) == []
  {
    EmptyCellsFacts(b);
  }

  /** A board that is not over offers at least one legal move. */
  lemma OpenBoardHasMove(b: Board)
    requires !Terminal(b)
    ensures EmptyCells(b) != []
  {
    EmptyCellsFacts(b);
  }

  /** The score of a board from X's point of view. */
  function Utility(b: Board): (u: int)
    ensures -1 <= u <= 1
  {
    if WinnerOf(b) == Some(X) then 1 else if WinnerOf(b) == Some(O) then -1 else 0
  }

  /** The score is 1 when X has a line, -1 when only O has one, and 0 when
      nobody has. */
  lemma UtilityIff(b: Board)
    ensures Utility(b) == 1 <==> HasLine(b, X)
    ensures Utility(b) == -1 <==> !HasLine(b, X) && HasLine(b, O)
    ensures Utility(b) == 0 <==> !HasLine(b, X) && !HasLine(b, O)
  {
  }

  // ---------------------------------------------------------------------
  // Alternating play

  /** The alternating-play invariant: X has as many marks as O, or one more. */
  predicate Balanced(b: Board) {
    Count(b, X) == Count(b, O) || Count(b, X) == Count(b, O) + 1
  }

  /** The empty board holds nine empty cells and no mark. */
  lemma InitialCounts()
    ensures Count(InitialState(), X) == 0 && Count(InitialState(), O) == 0
    ensures Count(InitialState(), Empty) == 9
  {
    var b := InitialState();
    CountRowUniform(b[0], Empty);
    CountRowUniform(b[1], Empty);
    CountRowUniform(b[2], Empty);
    CountByRows(b, X);
    CountByRows(b, O);
    CountByRows(b, Empty);
  }

  /** The empty board is balanced, is not over, offers all nine cells, and
      X is to move. */
  lemma InitialStateFacts()
    ensures Balanced(InitialState()) && Turn(InitialState()) == X
    ensures !Terminal(InitialState()) && |EmptyCells(InitialState())| == 9
  {
    var b := InitialState();
    InitialCounts();
    EmptyCellsFacts(b);
    assert Empty in b[0];
  }

  /** On a balanced board every legal move keeps the board balanced and
      hands the turn to the other mark. */
  lemma {:induction false} Alternation(b: Board, a: Action)
    requires Balanced(b) && InRange(a) && At(b, a) == Empty
    ensures Balanced(Successor(b, a))
    ensures Turn(Successor(b, a)) != Turn(b)
  {
    var r := Successor(b, a);
    SuccessorFacts(b, a);
    if Turn(b) == X {
      assert Count(r, O) == Count(b, O);
    } else {
      assert Count(r, X) == Count(b, X);
    }
  }
}
