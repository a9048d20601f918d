/** The rules of Tic-Tac-Toe on a 3 x 3 board, and the greedy move picker
    the player uses. Every rule maps a board to a value; a board is never
    changed in place (`result` works on a deep copy). */
module TicTacToe {
  import opened Python
  import SetFacts

  /** A player's mark. A square holds `Some(mark)`, or `EMPTY`, which is
      Python's `None`. */
  datatype Mark = X | O

  type Square = Option<Mark>

  const EMPTY: Square := None

  type Row = r: seq<Square> | |r| == 3 witness [None, None, None]

  const EmptyRow: Row := [EMPTY, EMPTY, EMPTY]

  /** The board: three rows of three squares. */
  type Board = b: seq<Row> | |b| == 3
    witness [EmptyRow, EmptyRow, EmptyRow]

  /** A move `(i, j)`: row `i`, column `j`. */
  type Action = (int, int)

  /** A position on the grid. */
  type Pos = p: Action | 0 <= p.0 < 3 && 0 <= p.1 < 3 witness (0, 0)

  /** All nine positions. */
  const Grid: set<Action> :=
    {(0, 0), (0, 1), (0, 2), (1, 0), (1, 1), (1, 2), (2, 0), (2, 1), (2, 2)}

  predicate OnGrid(a: Action) {
    0 <= a.0 < 3 && 0 <= a.1 < 3
  }

  function InitialState(): (b: Board)
    ensures forall i, j | 0 <= i < 3 && 0 <= j < 3 :: b[i][j] == EMPTY
  {
    [EmptyRow, EmptyRow, EmptyRow]
  }

  /** The positions holding `m`; numpy's `count_nonzero(arr == m)` is the
      size of this set. */
  function MarkedCells(b: Board, m: Mark): (cells: set<Action>)
    ensures forall a :: a in cells <==> OnGrid(a) && b[a.0][a.1] == Some(m)
  {
    set i, j | 0 <= i < 3 && 0 <= j < 3 && b[i][j] == Some(m) :: (i, j)
  }

  /** The number of squares holding `m`. */
  function Count(b: Board, m: Mark): nat {
    |MarkedCells(b, m)|
  }

  /** X moves first, so it is X's turn exactly when both have placed as
      many marks. */
  function Player(b: Board): (p: Mark)
    ensures p == X <==> Count(b, X) == Count(b, O)
  {
    if Count(b, X) == Count(b, O) then X else O
  }

  /** The empty squares. */
  function Actions(b: Board): (r: set<Action>)
    ensures forall a :: a in r <==> OnGrid(a) && b[a.0][a.1] == EMPTY
  {
    set i, j | 0 <= i < 3 && 0 <= j < 3 && b[i][j] == EMPTY :: (i, j)
  }

  /** The board after the player to move marks `a`. Python indexing lets a
      negative coordinate count from the end of a row or the board; any
      other coordinate outside the grid raises IndexError, and a taken
      square raises ValueError. */
  function Result(b: Board, a: Action): (r: Result<Board>)
    ensures match (ListIndex(a.0, 3), ListIndex(a.1, 3))
            case (Some(i), Some(j)) =>
              if b[i][j] != EMPTY then r == Raise(ValueError)
              else
                && r.Ok?
                && r.value[i][j] == Some(Player(b))
                && forall i', j' | 0 <= i' < 3 && 0 <= j' < 3 && (i', j') != (i, j) ::
                     r.value[i'][j'] == b[i'][j']
            case _ => r == Raise(IndexError)
  {
    var turn := Player(b);
    match (ListIndex(a.0, 3), ListIndex(a.1, 3))
    case (Some(i), Some(j)) =>
      if b[i][j] != EMPTY then Raise(ValueError)
      else Ok(b[i := b[i][j := Some(turn)]])
    case _ => Raise(IndexError)
  }

  /** The first of rows `r`, `r + 1`, ... whose three squares hold the
      same mark. */
  function RowWinner(b: Board, r: nat): Option<Mark>
    decreases 3 - r
  {
    if r >= 3 then None
    else if b[r][0] == b[r][1] && b[r][0] == b[r][2] && b[r][0] != EMPTY then b[r][0]
    else RowWinner(b, r + 1)
  }

  /** The first of columns `c`, `c + 1`, ... whose three squares hold the
      same mark. */
  function ColumnWinner(b: Board, c: nat): Option<Mark>
    decreases 3 - c
  {
    if c >= 3 then None
    else if b[0][c] == b[1][c] && b[1][c] == b[2][c] && b[0][c] != EMPTY then b[0][c]
    else ColumnWinner(b, c + 1)
  }

  /** The winner: rows are checked first, then columns, then the two
      diagonals. A reported winner owns a complete line. */
  function Winner(b: Board): (w: Option<Mark>)
    ensures w != None ==> exists k | 0 <= k < 8 :: Owns(b, k, w.value)
  {
    RowWinnerSpec(b, 0);
    ColumnWinnerSpec(b, 0);
    var rows := RowWinner(b, 0);
    if rows.Some? then rows
    else
      var columns := ColumnWinner(b, 0);
      if columns.Some? then columns
      else if (b[0][0] == b[1][1] && b[1][1] == b[2][2] && b[1][1] != EMPTY)
           || (b[0][2] == b[1][1] && b[1][1] == b[2][0] && b[1][1] != EMPTY)
      then DiagonalOwned(b, b[1][1].value); b[1][1]
      else None
  }

  /** The game is over once someone has won, or once X has placed five
      marks and O four. */
  predicate Terminal(b: Board)
    ensures Terminal(b) ==> Winner(b) != None || Actions(b) == {}
  {
    SquaresAddUp(b);
    Winner(b) != None || (Count(b, X) == 5 && Count(b, O) == 4)
  }

  function Utility(b: Board): (u: int)
    ensures u == 1 <==> Winner(b) == Some(X)
    ensures u == -1 <==> Winner(b) == Some(O)
    ensures u == 0 <==> Winner(b) == None
  {
    match Winner(b)
    case Some(X) => 1
    case Some(O) => -1
    case None => 0
  }

  // ---------------------------------------------------------------------
  // Lines, the reference against which Winner is checked

  /** The eight lines in the order the winner search visits them: rows,
      columns, the main diagonal, the anti-diagonal. */
  function Line(k: nat): (line: seq<Pos>)
    requires k < 8
    ensures |line| == 3
  {
    if k < 3 then [(k, 0), (k, 1), (k, 2)]
    else if k < 6 then [(0, k - 3), (1, k - 3), (2, k - 3)]
    else if k == 6 then [(0, 0), (1, 1), (2, 2)]
    else [(0, 2), (1, 1), (2, 0)]
  }

  /** All three squares of line `k` hold `m`. */
  predicate Owns(b: Board, k: nat, m: Mark)
    requires k < 8
  {
    var line := Line(k);
    && b[line[0].0][line[0].1] == Some(m)
    && b[line[1].0][line[1].1] == Some(m)
    && b[line[2].0][line[2].1] == Some(m)
  }

  /** No line before `k` is complete. */
  predicate NoOwnedLineBefore(b: Board, k: nat)
    requires k <= 8
  {
    forall k', m | 0 <= k' < k :: !Owns(b, k', m)
  }

  /** Play that alternates from the initial state, X first, keeps the
      counts within one of each other. */
  predicate Alternating(b: Board) {
    Count(b, X) == Count(b, O) || Count(b, X) == Count(b, O) + 1
  }

  /** The condition under which optimalMove picks an action. */
  predicate PickedByOptimalMove(b: Board, a: Action)
    requires a in Actions(b)
  {
    var next := Result(b, a).value;
    || (Player(b) == X && Utility(next) == 1)
    || (Player(b) == O && Utility(next) == -1)
    || Terminal(next)
  }

  // ---------------------------------------------------------------------
  // The move pickers

  /** Returns `None` on a finished game, and otherwise whatever
      OptimalMove picks. */
  method Minimax(b: Board) returns (r: Option<Action>)
    ensures Terminal(b) ==> r == None
    ensures !Terminal(b) && r.Some? ==> r.value in Actions(b) && Terminal(Result(b, r.value).value)
    ensures !Terminal(b) && r == None ==> forall a | a in Actions(b) :: !Terminal(Result(b, a).value)
  {
    if Terminal(b) {
      return None;
    }
    r := OptimalMove(b);
  }

  /** Tries the empty squares in an unspecified order (Python set order)
      and returns the first whose move wins for the mover or ends the
      game; `None` when there is none. The value of the recursive call is
      discarded, as in the source. */
  method OptimalMove(b: Board) returns (r: Option<Action>)
    ensures r.Some? ==> r.value in Actions(b) && Terminal(Result(b, r.value).value)
    ensures r == None ==> forall a | a in Actions(b) :: !Terminal(Result(b, a).value)
    decreases Actions(b)
  {
    var untried := Actions(b);
    while untried != {}
      invariant untried <= Actions(b)
      invariant forall a | a in Actions(b) - untried :: !Terminal(Result(b, a).value)
    {
      var action :| action in untried;
      var next := Result(b, action).value;
      MoveEffect(b, action);
      var discarded := OptimalMove(next);
      PickedIffTerminal(b, action);
      if Player(b) == X && Utility(next) == 1 {
        return Some(action);
      } else if Player(b) == O && Utility(next) == -1 {
        return Some(action);
      } else if Terminal(next) {
        return Some(action);
      }
      untried := untried - {action};
    }
    return None;
  }

  // ---------------------------------------------------------------------
  // Lemmas

  lemma {:induction false} GridIsOnGrid(a: Action)
    ensures a in Grid <==> OnGrid(a)
  {
    if OnGrid(a) {
      assert a == (a.0, a.1);
    }
  }

  lemma GridSize()
    ensures |Grid| == 9
  {
  }

  /** Every position is empty or holds X or O. */
  lemma SquaresCoverGrid(b: Board)
    ensures Grid == Actions(b) + MarkedCells(b, X) + MarkedCells(b, O)
  {
    var e, x, o := Actions(b), MarkedCells(b, X), MarkedCells(b, O);
    forall a ensures a in Grid <==> a in e + x + o {
      GridIsOnGrid(a);
      if OnGrid(a) {
        match b[a.0][a.1]
        case None => assert a in e;
        case Some(X) => assert a in x;
        case Some(O) => assert a in o;
      }
    }
  }

  /** Every square is empty, X or O, so the counts add up to nine. */
  lemma {:induction false} SquaresAddUp(b: Board)
    ensures |Actions(b)| + Count(b, X) + Count(b, O) == 9
  {
    var e, x, o := Actions(b), MarkedCells(b, X), MarkedCells(b, O);
    assert |e + x| == |e| + |x| by {
      assert e * x == {};
    }
    assert |e + x + o| == |e + x| + |o| by {
      assert (e + x) * o == {};
    }
    SquaresCoverGrid(b);
    GridSize();
  }

  /** The empty squares are exactly the positions on the grid where
      Result succeeds. */
  lemma ActionsAreLegalMoves(b: Board, a: Action)
    ensures a in Actions(b) <==> OnGrid(a) && Result(b, a).Ok?
  {
  }

  /** A move adds one mark of the mover, leaves the other player's marks
      alone, and uses up exactly the square it was played on. */
  lemma {:induction false} MoveEffect(b: Board, a: Action)
    requires a in Actions(b)
    ensures Result(b, a).Ok?
    ensures MarkedCells(Result(b, a).value, Player(b)) == MarkedCells(b, Player(b)) + {a}
    ensures Count(Result(b, a).value, Player(b)) == Count(b, Player(b)) + 1
    ensures forall m | m != Player(b) ::
              MarkedCells(Result(b, a).value, m) == MarkedCells(b, m)
    ensures Actions(Result(b, a).value) == Actions(b) - {a}
  {
    MoveAddsMark(b, a);
    assert a !in MarkedCells(b, Player(b));
    forall m | m != Player(b) ensures MarkedCells(Result(b, a).value, m) == MarkedCells(b, m) {
      MoveKeepsOtherMarks(b, a, m);
    }
    MoveUsesSquare(b, a);
  }

  /** The mover's marks gain exactly the square played. */
  lemma MoveAddsMark(b: Board, a: Action)
    requires a in Actions(b)
    ensures Result(b, a).Ok?
    ensures MarkedCells(Result(b, a).value, Player(b)) == MarkedCells(b, Player(b)) + {a}
  {
    var next, p := Result(b, a).value, Player(b);
    forall c | c in MarkedCells(b, p) + {a} ensures c in MarkedCells(next, p) {
      assert OnGrid(c);
    }
  }

  /** The other player's marks are untouched by a move. */
  lemma MoveKeepsOtherMarks(b: Board, a: Action, m: Mark)
    requires a in Actions(b) && m != Player(b)
    ensures Result(b, a).Ok?
    ensures MarkedCells(Result(b, a).value, m) == MarkedCells(b, m)
  {
    var next := Result(b, a).value;
    forall c | c in MarkedCells(b, m) ensures c in MarkedCells(next, m) {
      assert OnGrid(c);
    }
  }

  /** The square played is no longer available; every other one is. */
  lemma MoveUsesSquare(b: Board, a: Action)
    requires a in Actions(b)
    ensures Result(b, a).Ok?
    ensures Actions(Result(b, a).value) == Actions(b) - {a}
  {
    var next := Result(b, a).value;
    forall c | c in Actions(b) - {a} ensures c in Actions(next) {
      assert OnGrid(c);
    }
  }

  /** Turns alternate: after a legal move the counts still alternate and
      the other player is to move. */
  lemma TurnsAlternate(b: Board, a: Action)
    requires Alternating(b) && a in Actions(b)
    ensures Alternating(Result(b, a).value)
    ensures Player(Result(b, a).value) != Player(b)
  {
    MoveEffect(b, a);
  }

  /** On a board reached by alternating play, the game is over exactly
      when someone has won or no square is empty. */
  lemma TerminalWhenWonOrFull(b: Board)
    requires Alternating(b)
    ensures Terminal(b) <==> Winner(b) != None || Actions(b) == {}
  {
    SquaresAddUp(b);
  }

  /** A move that wins for the mover also ends the game, so the three
      tests of optimalMove come down to "the move ends the game". */
  lemma PickedIffTerminal(b: Board, a: Action)
    requires a in Actions(b)
    ensures PickedByOptimalMove(b, a) <==> Terminal(Result(b, a).value)
  {
  }

  lemma {:induction false} RowWinnerSpec(b: Board, r: nat)
    requires r <= 3
    ensures RowWinner(b, r) == None <==> forall k, m | r <= k < 3 :: !Owns(b, k, m)
    ensures RowWinner(b, r) != None ==>
              exists k | r <= k < 3 :: Owns(b, k, RowWinner(b, r).value)
                && forall k', m | r <= k' < k :: !Owns(b, k', m)
    decreases 3 - r
  {
    if r < 3 {
      RowWinnerSpec(b, r + 1);
      assert forall m :: Owns(b, r, m) <==> b[r][0] == Some(m) && b[r][1] == Some(m) && b[r][2] == Some(m);
    }
  }

  lemma {:induction false} ColumnWinnerSpec(b: Board, c: nat)
    requires c <= 3
    ensures ColumnWinner(b, c) == None <==> forall k, m | 3 + c <= k < 6 :: !Owns(b, k, m)
    ensures ColumnWinner(b, c) != None ==>
              exists k | 3 + c <= k < 6 :: Owns(b, k, ColumnWinner(b, c).value)
                && forall k', m | 3 + c <= k' < k :: !Owns(b, k', m)
    decreases 3 - c
  {
    if c < 3 {
      ColumnWinnerSpec(b, c + 1);
      forall m ensures Owns(b, 3 + c, m) <==> b[0][c] == Some(m) && b[1][c] == Some(m) && b[2][c] == Some(m) {
        ColumnOwned(b, c, m);
      }
    }
  }

  /** Line 6 is the main diagonal and line 7 the other one. */
  predicate DiagonalsOwned(b: Board, m: Mark) {
    && (Owns(b, 6, m) <==> b[0][0] == Some(m) && b[1][1] == Some(m) && b[2][2] == Some(m))
    && (Owns(b, 7, m) <==> b[0][2] == Some(m) && b[1][1] == Some(m) && b[2][0] == Some(m))
  }

  lemma DiagonalOwned(b: Board, m: Mark)
    ensures DiagonalsOwned(b, m)
  {
    assert Line(6) == [(0, 0), (1, 1), (2, 2)];
    assert Line(7) == [(0, 2), (1, 1), (2, 0)];
  }

  /** Column `c` is line `3 + c`. */
  lemma ColumnOwned(b: Board, c: nat, m: Mark)
    requires c < 3
    ensures Owns(b, 3 + c, m) <==> b[0][c] == Some(m) && b[1][c] == Some(m) && b[2][c] == Some(m)
  {
    assert Line(3 + c) == [(0, c), (1, c), (2, c)];
  }

  /** Winner reports a mark exactly when some line is complete, and then
      the mark of the first complete line in the order rows, columns,
      diagonals. */
  lemma WinnerIsFirstCompleteLine(b: Board)
    ensures Winner(b) == None <==> NoOwnedLineBefore(b, 8)
    ensures Winner(b) != None ==>
              exists k | 0 <= k < 8 :: Owns(b, k, Winner(b).value) && NoOwnedLineBefore(b, k)
  {
    RowWinnerSpec(b, 0);
    ColumnWinnerSpec(b, 0);
    forall m ensures DiagonalsOwned(b, m) { DiagonalOwned(b, m); }
  }

  /** A winner has at least three marks on the board. */
  lemma WinnerHasThreeMarks(b: Board)
    requires Winner(b) != None
    ensures Count(b, Winner(b).value) >= 3
  {
    WinnerIsFirstCompleteLine(b);
    var k :| 0 <= k < 8 && Owns(b, k, Winner(b).value);
    OwnedLineCounts(b, k, Winner(b).value);
  }

  /** The three squares of a line are distinct, so owning one takes three
      marks. */
  lemma OwnedLineCounts(b: Board, k: nat, m: Mark)
    requires k < 8 && Owns(b, k, m)
    ensures Count(b, m) >= 3
  {
    var line := Line(k);
    var three := {line[0], line[1], line[2]};
    assert |three| == 3;
    assert three <= MarkedCells(b, m);
    SetFacts.SubsetSize(three, MarkedCells(b, m));
  }

  /** The opening position: X to move, every square free, game not over. */
  lemma InitialStateFacts()
    ensures Actions(InitialState()) == Grid
    ensures Count(InitialState(), X) == 0 && Count(InitialState(), O) == 0
    ensures Player(InitialState()) == X && Alternating(InitialState())
    ensures !Terminal(InitialState())
  {
    var b := InitialState();
    assert MarkedCells(b, X) == {};
    assert MarkedCells(b, O) == {};
    forall a | a in Grid ensures a in Actions(b) {
      assert OnGrid(a);
    }
    WinnerIsFirstCompleteLine(b);
  }

  /** No first move ends the game, so minimax gives no move on the empty
      board: the picker is greedy and looks only one move ahead. */
  lemma NoOpeningMoveEndsGame(a: Action)
    requires a in Actions(InitialState())
    ensures !Terminal(Result(InitialState(), a).value)
  {
    var b := InitialState();
    InitialStateFacts();
    MoveEffect(b, a);
    var next := Result(b, a).value;
    if Winner(next) != None {
      WinnerHasThreeMarks(next);
    }
  }
}
