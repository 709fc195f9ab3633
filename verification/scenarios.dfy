/**
 Concrete positions: what the search and the game-over test give on them.
 Each board is written row by row. The boards are parameters pinned down by
 a precondition, so that the search is reasoned about through its lemmas
 rather than by unfolding it over the whole game tree.
 */
module Scenarios {
  import opened Board
  import opened Search

  /** X X . / O O . / . . . with X to move: X completes the top row at (0, 2), the first free cell. */
  lemma CompletesTopRow(b: Board)
    requires b == [1, 1, 0, -1, -1, 0, 0, 0, 0]
    ensures !GameIsOver(b)
    ensures Minimax(b, 0, true).value == 1
    ensures ComputerMove(Game(b, [])) == Move(0, 2)
  {
    FirstAvailable(b, Move(0, 2));
    HasWonUnrolled(b, X);
    HasWonUnrolled(b, O);
    AvailableMovesSpec(b);
    var a := PlaceMove(b, Move(0, 2), X);
    assert a[0] == X && a[1] == X && a[2] == X;
    assert RowFilled(a, 0, X);
    CompletingMoveWins(b, Move(0, 2));
    ComputerMoveIsFirstWith(Game(b, []), 0);
  }

  /**
   O O . / X X . / . . . with X to move. Blocking at (0, 2) already wins for
   X: it threatens both the middle row and the anti-diagonal. Being first in
   row-major order among the winning moves, it is the move taken rather than
   completing the middle row at (1, 2).
   */
  lemma BlockingMoveAlsoWins(b: Board)
    requires b == [-1, -1, 0, 1, 1, 0, 0, 0, 0]
    ensures !GameIsOver(b)
    ensures MoveValue(b, Move(0, 2)) == 1
    ensures MoveValue(b, Move(1, 2)) == 1
    ensures ComputerMove(Game(b, [])) == Move(0, 2)
  {
    FirstAvailable(b, Move(0, 2));
    HasWonUnrolled(b, X);
    HasWonUnrolled(b, O);
    TwoEmptyCells(b, Move(0, 2), Move(1, 2));
    var a := PlaceMove(b, Move(1, 2), X);
    assert a[3] == X && a[4] == X && a[5] == X;
    assert RowFilled(a, 1, X);
    CompletingMoveWins(b, Move(1, 2));
    DoubleThreatWins(PlaceMove(b, Move(0, 2), X));
    ComputerMoveIsFirstWith(Game(b, []), 0);
  }

  /** After X blocks at (0, 2), every reply of O leaves X a line to complete. */
  lemma DoubleThreatWins(b: Board)
    requires b == [-1, -1, 1, 1, 1, 0, 0, 0, 0]
    ensures Minimax(b, 1, false).value == 1
  {
    FirstAvailable(b, Move(1, 2));
    HasWonUnrolled(b, X);
    HasWonUnrolled(b, O);
    forall m | InRange(m) && Cell(b, m.r, m.c) == Empty
      ensures Minimax(PlaceMove(b, m, O), 2, true).value == 1
    {
      ReplyLosesTo(PlaceMove(b, m, O), Index(m));
    }
    UniformChildren(b, 1, false, 1);
  }

  /**
   O O X / X X . / . . . with one more O at row-major index o, X to move:
   the game is open and X completes the middle row, or the anti-diagonal
   when O took (1, 2), with a cell to spare.
   */
  lemma ReplyLosesTo(b: Board, o: nat)
    requires 5 <= o < 9
    requires b[0] == O && b[1] == O && b[2] == X && b[3] == X && b[4] == X
    requires forall k :: 5 <= k < 9 ==> b[k] == (if k == o then O else Empty)
    ensures Minimax(b, 2, true).value == 1
  {
    assert b[5] == (if o == 5 then O else Empty);
    assert b[6] == (if o == 6 then O else Empty);
    assert b[7] == (if o == 7 then O else Empty);
    assert b[8] == (if o == 8 then O else Empty);
    var m := if o == 5 then Move(2, 0) else Move(1, 2);
    var spare := if o <= 6 then Move(2, 1) else Move(2, 0);
    HasWonUnrolled(b, X);
    HasWonUnrolled(b, O);
    TwoEmptyCells(b, m, spare);
    var a := PlaceMove(b, m, X);
    if o == 5 {
      assert Cell(a, 0, 2) == X && Cell(a, 1, 1) == X && Cell(a, 2, 0) == X;
    } else {
      assert RowFilled(a, 1, X);
    }
    CompletableLineWins(b, 2, m);
  }

  /** X O X / X O O / O X X: full, no line for either side; the game is over and scores a draw. */
  lemma FullBoardDraw(b: Board)
    requires b == [1, -1, 1, 1, -1, -1, -1, 1, 1]
    ensures GameIsOver(b) && !HasWon(b, X) && !HasWon(b, O)
    ensures Minimax(b, 0, true).value == 0
  {
    assert AvailableMoves([1, -1, 1, 1, -1, -1, -1, 1, 1]) == [];
    assert !HasWon([1, -1, 1, 1, -1, -1, -1, 1, 1], X) && !HasWon([1, -1, 1, 1, -1, -1, -1, 1, 1], O);
  }

  /** X X X / O O X / X O O: X has a line, but the board is full and the draw test comes first. */
  lemma FullBoardWithLineScoresDraw(b: Board)
    requires b == [1, 1, 1, -1, -1, 1, 1, -1, -1]
    ensures HasWon(b, X)
    ensures Minimax(b, 0, true).value == 0
  {
    assert AvailableMoves([1, 1, 1, -1, -1, 1, 1, -1, -1]) == [];
    assert HasWon([1, 1, 1, -1, -1, 1, 1, -1, -1], X);
  }
}
