/**
 The 3x3 tic-tac-toe grid and the queries the search makes of it: placing a
 mark, listing the empty cells, detecting a completed line and deciding
 whether the game is over.

 The grid is kept as nine ints in row-major order, cell (r, c) at index
 3 * r + c, holding 0 (empty), 1 (X, the computer) or -1 (O, the human).
 */
module Board {

  const Empty: int := 0
  const X: int := 1
  const O: int := -1

  type Board = b: seq<int> | |b| == 9 witness [0, 0, 0, 0, 0, 0, 0, 0, 0]

  /** A (row, column) coordinate, 0-indexed. */
  datatype Move = Move(r: int, c: int)

  predicate InRange(m: Move) {
    0 <= m.r < 3 && 0 <= m.c < 3
  }

  function Index(m: Move): (k: nat)
    requires InRange(m)
    ensures k < 9
  {
    3 * m.r + m.c
  }

  /** The move whose cell has row-major index k. */
  function MoveAt(k: nat): (m: Move)
    requires k < 9
    ensures InRange(m) && Index(m) == k
  {
    Move(k / 3, k % 3)
  }

  lemma MoveAtIndex(m: Move)
    requires InRange(m)
    ensures MoveAt(Index(m)) == m
  {
  }

  lemma IndexOrderIsRowMajor(a: Move, b: Move)
    requires InRange(a) && InRange(b) && Index(a) < Index(b)
    ensures RowMajorBefore(a, b)
  {
  }

  function Cell(b: Board, r: int, c: int): int
    requires 0 <= r < 3 && 0 <= c < 3
  {
    b[3 * r + c]
  }

  /** a comes strictly before b when the grid is read row by row. */
  predicate RowMajorBefore(a: Move, b: Move) {
    a.r < b.r || (a.r == b.r && a.c < b.c)
  }

  /** Number of empty cells. */
  function EmptyCount(b: Board): nat {
    multiset(b)[Empty]
  }

  predicate Full(b: Board) {
    forall r, c :: 0 <= r < 3 && 0 <= c < 3 ==> Cell(b, r, c) != Empty
  }

  // ---------------------------------------------------------------------
  // placeMove

  /** placeMove: writes mark into the cell of m. */
  function PlaceMove(b: Board, m: Move, mark: int): Board
    requires InRange(m)
  {
    b[Index(m) := mark]
  }

  /** The cell of m holds mark afterwards; the other eight cells keep their contents. */
  lemma PlaceMoveWritesOneCell(b: Board, m: Move, mark: int)
    requires InRange(m)
    ensures Cell(PlaceMove(b, m, mark), m.r, m.c) == mark
    ensures forall i, j :: 0 <= i < 3 && 0 <= j < 3 && (i != m.r || j != m.c) ==>
      Cell(PlaceMove(b, m, mark), i, j) == Cell(b, i, j)
  {
  }

  /** Placing a mark and then resetting the cell to empty gives back the board. */
  lemma PlaceThenUndo(b: Board, m: Move, mark: int)
    requires InRange(m) && Cell(b, m.r, m.c) == Empty
    ensures PlaceMove(PlaceMove(b, m, mark), m, Empty) == b
  {
    var i := Index(m);
    assert b[i] == Empty;
    assert b[i := mark][i := Empty] == b[i := Empty];
    assert b[i := Empty] == b;
  }

  /** Marking an empty cell removes exactly one empty cell: the search tree's depth is bounded by EmptyCount. */
  lemma PlaceOnEmptyDecrements(b: Board, m: Move, mark: int)
    requires InRange(m) && Cell(b, m.r, m.c) == Empty && mark != Empty
    ensures EmptyCount(PlaceMove(b, m, mark)) == EmptyCount(b) - 1
  {
    var k := Index(m);
    assert b == b[..k] + [b[k]] + b[k + 1..];
    assert PlaceMove(b, m, mark) == b[..k] + [mark] + b[k + 1..];
  }

  // ---------------------------------------------------------------------
  // getAvailableMoves

  /**
   The nested scan of the source over the cells from row-major index k on:
   one move per empty cell, in the order met.
   */
  function AvailableFrom(b: Board, k: nat): (moves: seq<Move>)
    requires k <= 9
    ensures forall j :: 0 <= j < |moves| ==> InRange(moves[j])
    // b leads the decreases clause although it never changes: the verifier then
    // unfolds calls with a literal index only when the board is literal too.
    decreases b, 9 - k
  {
    if k == 9 then []
    else if b[k] == Empty then [MoveAt(k)] + AvailableFrom(b, k + 1)
    else AvailableFrom(b, k + 1)
  }

  lemma {:induction false} AvailableFromSound(b: Board, k: nat)
    requires k <= 9
    ensures forall j :: 0 <= j < |AvailableFrom(b, k)| ==>
      k <= Index(AvailableFrom(b, k)[j]) && b[Index(AvailableFrom(b, k)[j])] == Empty
    ensures forall i, j :: 0 <= i < j < |AvailableFrom(b, k)| ==>
      Index(AvailableFrom(b, k)[i]) < Index(AvailableFrom(b, k)[j])
    decreases 9 - k
  {
    if k < 9 {
      AvailableFromSound(b, k + 1);
    }
  }

  lemma {:induction false} AvailableFromComplete(b: Board, k: nat, i: nat)
    requires k <= i < 9 && b[i] == Empty
    ensures MoveAt(i) in AvailableFrom(b, k)
    decreases 9 - k
  {
    if k < i {
      AvailableFromComplete(b, k + 1, i);
    }
  }

  lemma {:induction false} AvailableFromCount(b: Board, k: nat)
    requires k <= 9
    ensures |AvailableFrom(b, k)| == multiset(b[k..])[Empty]
    decreases 9 - k
  {
    if k < 9 {
      assert b[k..] == [b[k]] + b[k + 1..];
      AvailableFromCount(b, k + 1);
    }
  }

  /** getAvailableMoves: the list is rebuilt from scratch by scanning the grid row by row. */
  function AvailableMoves(b: Board): (moves: seq<Move>)
    ensures forall j :: 0 <= j < |moves| ==> InRange(moves[j])
  {
    AvailableFrom(b, 0)
  }

  lemma AvailableAreEmpty(b: Board)
    ensures forall j :: 0 <= j < |AvailableMoves(b)| ==>
      Cell(b, AvailableMoves(b)[j].r, AvailableMoves(b)[j].c) == Empty
  {
    var moves := AvailableMoves(b);
    AvailableFromSound(b, 0);
    forall j | 0 <= j < |moves|
      ensures Cell(b, moves[j].r, moves[j].c) == Empty
    {
      assert b[Index(moves[j])] == Empty;
    }
  }

  lemma AvailableAreAll(b: Board)
    ensures forall m :: InRange(m) && Cell(b, m.r, m.c) == Empty ==> m in AvailableMoves(b)
  {
    forall m | InRange(m) && Cell(b, m.r, m.c) == Empty
      ensures m in AvailableMoves(b)
    {
      MoveAtIndex(m);
      AvailableFromComplete(b, 0, Index(m));
    }
  }

  lemma AvailableInRowMajorOrder(b: Board)
    ensures forall i, j :: 0 <= i < j < |AvailableMoves(b)| ==>
      RowMajorBefore(AvailableMoves(b)[i], AvailableMoves(b)[j])
  {
    var moves := AvailableMoves(b);
    AvailableFromSound(b, 0);
    forall i, j | 0 <= i < j < |moves|
      ensures RowMajorBefore(moves[i], moves[j])
    {
      IndexOrderIsRowMajor(moves[i], moves[j]);
    }
  }

  /**
   The available moves are every empty cell and nothing else, each once, in
   row-major order: one move per empty cell.
   */
  lemma AvailableMovesSpec(b: Board)
    ensures forall j :: 0 <= j < |AvailableMoves(b)| ==>
      InRange(AvailableMoves(b)[j]) && Cell(b, AvailableMoves(b)[j].r, AvailableMoves(b)[j].c) == Empty
    ensures forall m :: InRange(m) && Cell(b, m.r, m.c) == Empty ==> m in AvailableMoves(b)
    ensures forall i, j :: 0 <= i < j < |AvailableMoves(b)| ==>
      RowMajorBefore(AvailableMoves(b)[i], AvailableMoves(b)[j])
    ensures |AvailableMoves(b)| == EmptyCount(b)
  {
    AvailableAreEmpty(b);
    AvailableAreAll(b);
    AvailableInRowMajorOrder(b);
    AvailableFromCount(b, 0);
    assert b[0..] == b;
  }

  /** The first available move is the first empty cell in row-major order. */
  lemma FirstAvailable(b: Board, m: Move)
    requires InRange(m) && Cell(b, m.r, m.c) == Empty
    requires forall i :: 0 <= i < Index(m) ==> b[i] != Empty
    ensures |AvailableMoves(b)| > 0 && AvailableMoves(b)[0] == m
  {
    FirstAvailableFrom(b, 0, Index(m));
    MoveAtIndex(m);
  }

  lemma {:induction false} FirstAvailableFrom(b: Board, k: nat, i: nat)
    requires k <= i < 9 && b[i] == Empty
    requires forall j :: k <= j < i ==> b[j] != Empty
    ensures |AvailableFrom(b, k)| > 0 && AvailableFrom(b, k)[0] == MoveAt(i)
    decreases i - k
  {
    if k < i {
      FirstAvailableFrom(b, k + 1, i);
    }
  }

  /** Two distinct empty cells make at least two empty cells. */
  lemma TwoEmptyCells(b: Board, m1: Move, m2: Move)
    requires InRange(m1) && InRange(m2) && m1 != m2
    requires Cell(b, m1.r, m1.c) == Empty && Cell(b, m2.r, m2.c) == Empty
    ensures EmptyCount(b) >= 2 && |AvailableMoves(b)| >= 2
  {
    AvailableMovesSpec(b);
    var moves := AvailableMoves(b);
    var i :| 0 <= i < |moves| && moves[i] == m1;
    var j :| 0 <= j < |moves| && moves[j] == m2;
  }

  /** No empty cell is left exactly when the available list is empty. */
  lemma NoMovesIffFull(b: Board)
    ensures |AvailableMoves(b)| == 0 <==> Full(b)
  {
    var moves := AvailableMoves(b);
    if |moves| > 0 {
      AvailableAreEmpty(b);
      assert Cell(b, moves[0].r, moves[0].c) == Empty;
    }
    if !Full(b) {
      var r, c :| 0 <= r < 3 && 0 <= c < 3 && Cell(b, r, c) == Empty;
      AvailableAreAll(b);
      assert InRange(Move(r, c));
    }
  }

  // ---------------------------------------------------------------------
  // xHasWon / oHasWon

  /** Row i as the source tests it: cells[i][0] == cells[i][1] == cells[i][2] == mark. */
  predicate RowTest(b: Board, i: int, mark: int)
    requires 0 <= i < 3
  {
    Cell(b, i, 0) == Cell(b, i, 1) && Cell(b, i, 1) == Cell(b, i, 2) && Cell(b, i, 2) == mark
  }

  /** Column i as the source tests it: cells[0][i] == cells[1][i] == cells[2][i] == mark. */
  predicate ColumnTest(b: Board, i: int, mark: int)
    requires 0 <= i < 3
  {
    Cell(b, 0, i) == Cell(b, 1, i) && Cell(b, 1, i) == Cell(b, 2, i) && Cell(b, 2, i) == mark
  }

  /** The two diagonal tests that follow the loop. */
  predicate DiagonalTest(b: Board, mark: int) {
    (Cell(b, 0, 0) == Cell(b, 1, 1) && Cell(b, 1, 1) == Cell(b, 2, 2) && Cell(b, 2, 2) == mark)
    || (Cell(b, 0, 2) == Cell(b, 1, 1) && Cell(b, 1, 1) == Cell(b, 2, 0) && Cell(b, 2, 0) == mark)
  }

  /** The loop over i = 0, 1, 2 testing row i and column i, then the diagonals. */
  function WinScan(b: Board, mark: int, i: nat): bool
    requires i <= 3
    // b leads the decreases clause only to stop eager unfolding on a literal index
    // (see AvailableFrom).
    decreases b, 3 - i
  {
    if i == 3 then DiagonalTest(b, mark)
    else RowTest(b, i, mark) || ColumnTest(b, i, mark) || WinScan(b, mark, i + 1)
  }

  /** xHasWon is HasWon(b, X) and oHasWon is HasWon(b, O): the same scan with the mark 1 or -1. */
  predicate HasWon(b: Board, mark: int) {
    WinScan(b, mark, 0)
  }

  /** The scan written out: the eight tests in the order the source makes them. */
  lemma HasWonUnrolled(b: Board, mark: int)
    ensures HasWon(b, mark) ==
      (RowTest(b, 0, mark) || ColumnTest(b, 0, mark)
       || RowTest(b, 1, mark) || ColumnTest(b, 1, mark)
       || RowTest(b, 2, mark) || ColumnTest(b, 2, mark)
       || DiagonalTest(b, mark))
  {
    assert WinScan(b, mark, 2) == (RowTest(b, 2, mark) || ColumnTest(b, 2, mark) || DiagonalTest(b, mark));
    assert WinScan(b, mark, 1) == (RowTest(b, 1, mark) || ColumnTest(b, 1, mark) || WinScan(b, mark, 2));
  }

  predicate RowFilled(b: Board, r: int, mark: int)
    requires 0 <= r < 3
  {
    forall c :: 0 <= c < 3 ==> Cell(b, r, c) == mark
  }

  predicate ColumnFilled(b: Board, c: int, mark: int)
    requires 0 <= c < 3
  {
    forall r :: 0 <= r < 3 ==> Cell(b, r, c) == mark
  }

  /** Some row, some column or one of the two diagonals holds mark in all three cells. */
  predicate ThreeInALine(b: Board, mark: int) {
    (exists r :: 0 <= r < 3 && RowFilled(b, r, mark))
    || (exists c :: 0 <= c < 3 && ColumnFilled(b, c, mark))
    || (Cell(b, 0, 0) == mark && Cell(b, 1, 1) == mark && Cell(b, 2, 2) == mark)
    || (Cell(b, 0, 2) == mark && Cell(b, 1, 1) == mark && Cell(b, 2, 0) == mark)
  }

  lemma {:induction false} WinScanFrom(b: Board, mark: int, i: nat)
    requires i <= 3
    ensures WinScan(b, mark, i) <==>
      (exists r :: i <= r < 3 && RowTest(b, r, mark))
      || (exists c :: i <= c < 3 && ColumnTest(b, c, mark))
      || DiagonalTest(b, mark)
    decreases 3 - i
  {
    if i < 3 {
      WinScanFrom(b, mark, i + 1);
      if exists r :: i <= r < 3 && RowTest(b, r, mark) {
        var r :| i <= r < 3 && RowTest(b, r, mark);
        if r > i {
          assert exists r' :: i + 1 <= r' < 3 && RowTest(b, r', mark);
        }
      }
      if exists c :: i <= c < 3 && ColumnTest(b, c, mark) {
        var c :| i <= c < 3 && ColumnTest(b, c, mark);
        if c > i {
          assert exists c' :: i + 1 <= c' < 3 && ColumnTest(b, c', mark);
        }
      }
    }
  }

  /** The win test holds exactly when the mark fills a row, a column or a diagonal. */
  lemma HasWonIffThreeInALine(b: Board, mark: int)
    ensures HasWon(b, mark) <==> ThreeInALine(b, mark)
  {
    WinScanFrom(b, mark, 0);
    forall r | 0 <= r < 3
      ensures RowTest(b, r, mark) <==> RowFilled(b, r, mark)
    {
      assert RowTest(b, r, mark) ==> Cell(b, r, 0) == mark && Cell(b, r, 1) == mark && Cell(b, r, 2) == mark;
    }
    forall c | 0 <= c < 3
      ensures ColumnTest(b, c, mark) <==> ColumnFilled(b, c, mark)
    {
      assert ColumnTest(b, c, mark) ==> Cell(b, 0, c) == mark && Cell(b, 1, c) == mark && Cell(b, 2, c) == mark;
    }
  }

  // ---------------------------------------------------------------------
  // gameIsOver

  /** gameIsOver: X or O has won, or the available list is empty. */
  predicate GameIsOver(b: Board) {
    HasWon(b, X) || HasWon(b, O) || |AvailableMoves(b)| == 0
  }

  /** The game is over exactly when X or O has completed a line or no empty cell is left. */
  lemma GameIsOverIff(b: Board)
    ensures GameIsOver(b) <==> ThreeInALine(b, X) || ThreeInALine(b, O) || Full(b)
  {
    HasWonIffThreeInALine(b, X);
    HasWonIffThreeInALine(b, O);
    NoMovesIffFull(b);
  }

  /** Placing one mark never completes a line for the other side. */
  lemma PlacingNeverHelpsOpponent(b: Board, m: Move, mark: int, other: int)
    requires InRange(m) && mark != other && !ThreeInALine(b, other)
    ensures !ThreeInALine(PlaceMove(b, m, mark), other)
  {
    var a := PlaceMove(b, m, mark);
    PlaceMoveWritesOneCell(b, m, mark);
    forall r | 0 <= r < 3 && RowFilled(a, r, other)
      ensures RowFilled(b, r, other)
    {
    }
    forall c | 0 <= c < 3 && ColumnFilled(a, c, other)
      ensures ColumnFilled(b, c, other)
    {
    }
  }

  // ---------------------------------------------------------------------
  // Alternating legal play, as the surrounding game loop performs it

  /** Each move targets an empty cell of a board on which the game is not over; marks alternate. */
  predicate LegalPlay(b: Board, moves: seq<Move>, mark: int)
    decreases |moves|
  {
    |moves| == 0
    || (!GameIsOver(b) && InRange(moves[0]) && Cell(b, moves[0].r, moves[0].c) == Empty
        && LegalPlay(PlaceMove(b, moves[0], mark), moves[1..], -mark))
  }

  /** The board after placing moves in turn, starting with mark and alternating. */
  function PlayOut(b: Board, moves: seq<Move>, mark: int): Board
    requires forall k :: 0 <= k < |moves| ==> InRange(moves[k])
    decreases |moves|
  {
    if |moves| == 0 then b else PlayOut(PlaceMove(b, moves[0], mark), moves[1..], -mark)
  }

  lemma {:induction false} NoDoubleLine(b: Board, moves: seq<Move>, mark: int)
    requires LegalPlay(b, moves, mark)
    requires !(ThreeInALine(b, X) && ThreeInALine(b, O))
    requires mark == X || mark == O
    ensures forall k :: 0 <= k < |moves| ==> InRange(moves[k])
    ensures !(ThreeInALine(PlayOut(b, moves, mark), X) && ThreeInALine(PlayOut(b, moves, mark), O))
    decreases |moves|
  {
    if |moves| > 0 {
      var next := PlaceMove(b, moves[0], mark);
      assert !GameIsOver(b) && LegalPlay(next, moves[1..], -mark);
      GameIsOverIff(b);
      PlacingNeverHelpsOpponent(b, moves[0], mark, -mark);
      NoDoubleLine(next, moves[1..], -mark);
      assert forall k :: 1 <= k < |moves| ==> moves[k] == moves[1..][k - 1];
    }
  }

  /** Under alternating legal play from a board with no completed line, X and O never have both won. */
  lemma NeverTwoWinners(b: Board, moves: seq<Move>, mark: int)
    requires LegalPlay(b, moves, mark)
    requires !(ThreeInALine(b, X) && ThreeInALine(b, O))
    requires mark == X || mark == O
    ensures forall k :: 0 <= k < |moves| ==> InRange(moves[k])
    ensures !(HasWon(PlayOut(b, moves, mark), X) && HasWon(PlayOut(b, moves, mark), O))
  {
    NoDoubleLine(b, moves, mark);
    var end := PlayOut(b, moves, mark);
    HasWonIffThreeInALine(end, X);
    HasWonIffThreeInALine(end, O);
  }
}
