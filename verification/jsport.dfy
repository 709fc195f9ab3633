/**
 The JavaScript port of the engine (src/Game.js), where it departs from the
 Java version: the column test of thereIsAWin, the splice-in-a-forward-loop
 clearing of the persistent move and node lists, and the Number.MIN_VALUE
 sentinel with which the root maximiser and getBestMove start. The board,
 placeMove and the row and diagonal tests are the ones of module Board.
 */
module JsPort {
  import opened Board
  import opened Search

  // ---------------------------------------------------------------------
  // thereIsAWin

  /** Column i as the port tests it: the last comparison reads cells[2][1] whatever i is. */
  predicate JsColumnTest(b: Board, i: int, v: int)
    requires 0 <= i < 3
  {
    Cell(b, 0, i) == Cell(b, 1, i) && Cell(b, 1, i) == Cell(b, 2, i) && Cell(b, 2, 1) == v
  }

  /** The loop over i = 0, 1, 2 testing row i and (the port's) column i, then the diagonals. */
  function JsScan(b: Board, v: int, i: nat): bool
    requires i <= 3
    // b leads the decreases clause only to stop eager unfolding on a literal index
    // (see Board.AvailableFrom).
    decreases b, 3 - i
  {
    if i == 3 then DiagonalTest(b, v)
    else RowTest(b, i, v) || JsColumnTest(b, i, v) || JsScan(b, v, i + 1)
  }

  /** thereIsAWin(v); xHasWon is ThereIsAWin(b, X) and oHasWon is ThereIsAWin(b, O). */
  predicate ThereIsAWin(b: Board, v: int) {
    JsScan(b, v, 0)
  }

  /** The three cells of column c hold the same value, whatever it is. */
  predicate ColumnUniform(b: Board, c: int)
    requires 0 <= c < 3
  {
    Cell(b, 0, c) == Cell(b, 1, c) && Cell(b, 1, c) == Cell(b, 2, c)
  }

  lemma {:induction false} JsScanFrom(b: Board, v: int, i: nat)
    requires i <= 3
    ensures JsScan(b, v, i) <==>
      (exists r :: i <= r < 3 && RowTest(b, r, v))
      || (exists c :: i <= c < 3 && JsColumnTest(b, c, v))
      || DiagonalTest(b, v)
    decreases 3 - i
  {
    if i < 3 {
      JsScanFrom(b, v, i + 1);
      if exists r :: i <= r < 3 && RowTest(b, r, v) {
        var r :| i <= r < 3 && RowTest(b, r, v);
        if r > i {
          assert exists r' :: i + 1 <= r' < 3 && RowTest(b, r', v);
        }
      }
      if exists c :: i <= c < 3 && JsColumnTest(b, c, v) {
        var c :| i <= c < 3 && JsColumnTest(b, c, v);
        if c > i {
          assert exists c' :: i + 1 <= c' < 3 && JsColumnTest(b, c', v);
        }
      }
    }
  }

  /**
   The port's win test holds exactly when v fills a row or a diagonal, or
   some column is uniform and the bottom-middle cell holds v. Only for the
   middle column does the second case mean the column is filled with v.
   */
  lemma ThereIsAWinIff(b: Board, v: int)
    ensures ThereIsAWin(b, v) <==>
      (exists r :: 0 <= r < 3 && RowFilled(b, r, v))
      || ((exists c :: 0 <= c < 3 && ColumnUniform(b, c)) && Cell(b, 2, 1) == v)
      || (Cell(b, 0, 0) == v && Cell(b, 1, 1) == v && Cell(b, 2, 2) == v)
      || (Cell(b, 0, 2) == v && Cell(b, 1, 1) == v && Cell(b, 2, 0) == v)
  {
    JsScanFrom(b, v, 0);
    forall r | 0 <= r < 3
      ensures RowTest(b, r, v) <==> RowFilled(b, r, v)
    {
      assert RowTest(b, r, v) ==> Cell(b, r, 0) == v && Cell(b, r, 1) == v && Cell(b, r, 2) == v;
    }
    forall c | 0 <= c < 3
      ensures JsColumnTest(b, c, v) <==> ColumnUniform(b, c) && Cell(b, 2, 1) == v
    {
    }
  }

  /** On a board with no uniform column, the port and the Java version agree. */
  lemma AgreesWithoutUniformColumn(b: Board, v: int)
    requires forall c :: 0 <= c < 3 ==> !ColumnUniform(b, c)
    ensures ThereIsAWin(b, v) <==> HasWon(b, v)
  {
    ThereIsAWinIff(b, v);
    HasWonIffThreeInALine(b, v);
    forall c | 0 <= c < 3
      ensures ColumnFilled(b, c, v) ==> ColumnUniform(b, c)
    {
    }
  }

  /** A single X in the bottom-middle cell, the rest empty: the port reports a win for X. */
  lemma LoneBottomMiddleMarkWins()
    ensures ThereIsAWin([0, 0, 0, 0, 0, 0, 0, 1, 0], X)
    ensures !ThreeInALine([0, 0, 0, 0, 0, 0, 0, 1, 0], X)
  {
    var b: Board := [0, 0, 0, 0, 0, 0, 0, 1, 0];
    assert JsColumnTest(b, 0, X);
    assert !RowFilled(b, 0, X) && !RowFilled(b, 1, X) && !RowFilled(b, 2, X);
    assert Cell(b, 0, 0) != X && Cell(b, 0, 1) != X && Cell(b, 0, 2) != X;
  }

  /** X fills the left column while the bottom-middle cell is empty: the port misses the win. */
  lemma LeftColumnWinMissed()
    ensures ThreeInALine([1, -1, 0, 1, -1, 0, 1, 0, 0], X)
    ensures !ThereIsAWin([1, -1, 0, 1, -1, 0, 1, 0, 0], X)
  {
    var b: Board := [1, -1, 0, 1, -1, 0, 1, 0, 0];
    assert ColumnFilled(b, 0, X);
    ThereIsAWinIff(b, X);
    assert !RowFilled(b, 0, X) && !RowFilled(b, 1, X) && !RowFilled(b, 2, X);
  }

  // ---------------------------------------------------------------------
  // Clearing a list by splicing in a forward loop

  /**
   for (i = i0; i < a.length; i++) a.splice(i, 1): each pass removes the
   entry at i, and the entry that slides into position i is skipped.
   */
  function SpliceLoop<T>(s: seq<T>, i: nat): seq<T>
    decreases |s| - i
  {
    if i < |s| then SpliceLoop(s[..i] + s[i + 1..], i + 1) else s
  }

  /** The entries at odd positions, in order. */
  function OddEntries<T>(s: seq<T>): (r: seq<T>)
    ensures |r| == |s| / 2
    ensures forall k :: 0 <= k < |r| ==> r[k] == s[2 * k + 1]
  {
    if |s| < 2 then [] else [s[1]] + OddEntries(s[2..])
  }

  /** From position |p| on, the loop keeps the odd-positioned entries of the rest. */
  lemma {:induction false} SpliceLoopKeepsOddEntries<T>(p: seq<T>, rest: seq<T>)
    ensures SpliceLoop(p + rest, |p|) == p + OddEntries(rest)
    decreases |rest|
  {
    var s := p + rest;
    if |rest| == 0 {
      assert s == p;
    } else {
      assert s[..|p|] + s[|p| + 1..] == p + rest[1..];
      if |rest| == 1 {
        assert p + rest[1..] == p;
      } else {
        var p' := p + [rest[1]];
        assert p + rest[1..] == p' + rest[2..];
        SpliceLoopKeepsOddEntries(p', rest[2..]);
        assert p' + OddEntries(rest[2..]) == p + OddEntries(rest);
      }
    }
  }

  /** The splice loop run from 0: it keeps the ⌊n/2⌋ entries at odd positions. */
  function SpliceClear<T>(s: seq<T>): (r: seq<T>)
    ensures r == OddEntries(s)
    ensures |r| == |s| / 2
  {
    SpliceLoopKeepsOddEntries([], s);
    assert [] + s == s;
    SpliceLoop(s, 0)
  }

  // ---------------------------------------------------------------------
  // getAvailableMoves and gameIsOver over the persistent list

  /**
   getAvailableMoves on the port's persistent list: the half-cleared stale
   list, followed by the empty cells in row-major order.
   */
  function JsGetAvailableMoves(stale: seq<Move>, b: Board): (list: seq<Move>)
    ensures list == OddEntries(stale) + AvailableMoves(b)
    ensures |list| == |stale| / 2 + EmptyCount(b)
  {
    AvailableMovesSpec(b);
    (if |stale| > 0 then SpliceClear(stale) else stale) + AvailableMoves(b)
  }

  /** With at most one stale entry the port's list is exactly the Java list. */
  lemma ShortStaleListVanishes(stale: seq<Move>, b: Board)
    requires |stale| <= 1
    ensures JsGetAvailableMoves(stale, b) == AvailableMoves(b)
  {
    assert OddEntries(stale) == [];
  }

  /** gameIsOver of the port: either win test, or the (stale-prefixed) list is empty. */
  predicate JsGameIsOver(stale: seq<Move>, b: Board) {
    ThereIsAWin(b, X) || ThereIsAWin(b, O) || |JsGetAvailableMoves(stale, b)| == 0
  }

  /** The port's game is over on a win of its own test, or on a full board only while at most one entry is stale. */
  lemma JsGameIsOverIff(stale: seq<Move>, b: Board)
    ensures JsGameIsOver(stale, b) <==>
      ThereIsAWin(b, X) || ThereIsAWin(b, O) || (Full(b) && |stale| < 2)
  {
    AvailableMovesSpec(b);
    NoMovesIffFull(b);
  }

  /** A drawn full board with two stale entries in the list: the port does not see that the game is over. */
  lemma FullBoardNotOverWithStaleList(stale: seq<Move>)
    requires |stale| == 2
    ensures GameIsOver([1, -1, 1, 1, -1, -1, -1, 1, 1])
    ensures !JsGameIsOver(stale, [1, -1, 1, 1, -1, -1, -1, 1, 1])
  {
    var b: Board := [1, -1, 1, 1, -1, -1, -1, 1, 1];
    assert Full(b);
    NoMovesIffFull(b);
    JsGameIsOverIff(stale, b);
    NoPortWinOnDrawnBoard(X);
    NoPortWinOnDrawnBoard(O);
  }

  lemma NoPortWinOnDrawnBoard(v: int)
    requires v == X || v == O
    ensures !ThereIsAWin([1, -1, 1, 1, -1, -1, -1, 1, 1], v)
  {
    var b: Board := [1, -1, 1, 1, -1, -1, -1, 1, 1];
    ThereIsAWinIff(b, v);
    assert !ColumnUniform(b, 0) && !ColumnUniform(b, 1) && !ColumnUniform(b, 2);
    assert !RowFilled(b, 0, v) && !RowFilled(b, 1, v) && !RowFilled(b, 2, v);
  }

  // ---------------------------------------------------------------------
  // The terminal tests of minimax

  /**
   The three early returns of the port's minimax, in their order: an empty
   list scores 0, then X's win 1, then O's win -1.
   */
  function JsTerminalScore(stale: seq<Move>, b: Board): (v: int)
    requires JsGameIsOver(stale, b)
    ensures IsOutcome(v)
    ensures |stale| < 2 && Full(b) ==> v == 0
  {
    AvailableMovesSpec(b);
    NoMovesIffFull(b);
    if |JsGetAvailableMoves(stale, b)| == 0 then 0
    else if ThereIsAWin(b, X) then 1
    else -1
  }

  /**
   With a current list and a board on which both win tests agree, the port's
   terminal score is the Java minimax value of the finished game.
   */
  lemma JsTerminalMatchesJava(stale: seq<Move>, b: Board, depth: nat, isMax: bool)
    requires |stale| <= 1
    requires forall c :: 0 <= c < 3 ==> !ColumnUniform(b, c)
    requires JsGameIsOver(stale, b)
    ensures GameIsOver(b)
    ensures JsTerminalScore(stale, b) == Minimax(b, depth, isMax).value
  {
    ShortStaleListVanishes(stale, b);
    AgreesWithoutUniformColumn(b, X);
    AgreesWithoutUniformColumn(b, O);
  }

  // ---------------------------------------------------------------------
  // getBestMove with the Number.MIN_VALUE sentinel

  /** Number.MIN_VALUE: 2^-1074, the smallest positive double, written as an exact rational. */
  const MinValue: real := 1.0 / 202402253307310618352495346718917307049556649764142118356901358027430339567995346891960383701437124495187077864316811911389808737385793476867013399940738509921517424276566361364466907742093216341239767678472745068562007483424692698618103355649159556340810056512358769552333414615230502532186327508646006263307707741093494784.0

  /** A root node of the port: a value (a JavaScript number) and a move. */
  datatype Point = Point(value: real, move: Move)

  /** No node value exceeds Number.MIN_VALUE. */
  predicate NoneAboveSentinel(nodes: seq<Point>) {
    forall j :: 0 <= j < |nodes| ==> nodes[j].value <= MinValue
  }

  /**
   The position getBestMove settles on: the first node of largest value when
   some value exceeds Number.MIN_VALUE, and the first node otherwise.
   */
  predicate JsPick(nodes: seq<Point>, k: nat) {
    && k < |nodes|
    && (NoneAboveSentinel(nodes) ==> k == 0)
    && (!NoneAboveSentinel(nodes) ==>
          MinValue < nodes[k].value
          && (forall j :: 0 <= j < |nodes| ==> nodes[j].value <= nodes[k].value)
          && (forall j :: 0 <= j < k ==> nodes[j].value < nodes[k].value))
  }

  /** At most one position is the pick. */
  lemma JsPickUnique(nodes: seq<Point>, k1: nat, k2: nat)
    requires JsPick(nodes, k1) && JsPick(nodes, k2)
    ensures k1 == k2
  {
  }

  /**
   getBestMove of the port: max starts at Number.MIN_VALUE, so a node is
   taken only if its value exceeds Number.MIN_VALUE. An empty list makes
   nodes[0] undefined and the call throws; at least one node is required.
   */
  method JsGetBestMove(nodes: seq<Point>) returns (best: Move)
    requires |nodes| > 0
    ensures exists k: nat :: JsPick(nodes, k) && best == nodes[k].move
  {
    var max := MinValue;
    var index := 0;
    var i := 0;
    while i < |nodes|
      invariant 0 <= i <= |nodes|
      invariant 0 <= index < |nodes|
      invariant max == MinValue || (index < i && max == nodes[index].value && MinValue < max)
      invariant max == MinValue ==> index == 0 && forall j :: 0 <= j < i ==> nodes[j].value <= MinValue
      invariant forall j :: 0 <= j < i ==> nodes[j].value <= max
      invariant max != MinValue ==> forall j :: 0 <= j < index ==> nodes[j].value < max
    {
      if max < nodes[i].value {
        max := nodes[i].value;
        index := i;
      }
      i := i + 1;
    }
    assert JsPick(nodes, index);
    best := nodes[index].move;
  }

  /**
   On lists whose values are all at least Number.MIN_VALUE, as every list the
   port's root search pushes is, the sentinel of getBestMove makes no
   difference: the pick is the first node of largest value.
   */
  lemma JsPickIsFirstMax(nodes: seq<Point>, k: nat)
    requires forall j :: 0 <= j < |nodes| ==> MinValue <= nodes[j].value
    requires k < |nodes|
    ensures JsPick(nodes, k) <==>
      (forall j :: 0 <= j < |nodes| ==> nodes[j].value <= nodes[k].value)
      && (forall j :: 0 <= j < k ==> nodes[j].value < nodes[k].value)
  {
    if NoneAboveSentinel(nodes) && k > 0 {
      assert nodes[0].value == MinValue && nodes[k].value == MinValue;
    }
  }

  // ---------------------------------------------------------------------
  // The root maximiser of minimax and its Number.MIN_VALUE sentinel

  /**
   The values a maximiser folds with Math.max from start: entry k is the
   running maximum after the first k + 1 child values.
   */
  function JsRunningMax(start: real, cv: seq<real>): (run: seq<real>)
    ensures |run| == |cv|
    ensures forall k :: 0 <= k < |run| ==> start <= run[k]
    ensures forall k :: 0 <= k < |run| ==> run[k] == start || run[k] in cv[..k + 1]
    ensures forall k, j :: 0 <= j <= k < |run| ==> cv[j] <= run[k]
    decreases |cv|
  {
    if |cv| == 0 then []
    else
      var h := if start >= cv[0] then start else cv[0];
      var rest := JsRunningMax(h, cv[1..]);
      assert forall k :: 1 <= k < |cv| ==> cv[1..][..k] == cv[1..k + 1];
      assert forall j :: 1 <= j < |cv| ==> cv[1..][j - 1] == cv[j];
      assert forall k :: 0 <= k < |rest| ==> cv[0] <= rest[k];
      [h] + rest
  }

  /**
   The nodes the port's root maximiser pushes, given the values of its
   children: maxEval starts at Number.MIN_VALUE and each trial pushes the
   running maximum with its move.
   */
  function JsRootNodes(moves: seq<Move>, cv: seq<real>): (nodes: seq<Point>)
    requires |moves| == |cv|
    ensures |nodes| == |moves|
    ensures forall k :: 0 <= k < |nodes| ==> nodes[k].move == moves[k] && MinValue <= nodes[k].value
  {
    var run := JsRunningMax(MinValue, cv);
    seq(|moves|, k requires 0 <= k < |moves| => Point(run[k], moves[k]))
  }

  /**
   Without a winning root move (every child value at most Number.MIN_VALUE:
   a loss -1, a draw 0, or the sentinel itself) every node records
   Number.MIN_VALUE, and getBestMove returns the first available move,
   whether it loses or not.
   */
  lemma NoWinPicksFirstMove(moves: seq<Move>, cv: seq<real>)
    requires |moves| == |cv| > 0
    requires forall k :: 0 <= k < |cv| ==> cv[k] <= MinValue
    ensures forall k :: 0 <= k < |cv| ==> JsRootNodes(moves, cv)[k].value == MinValue
    ensures JsPick(JsRootNodes(moves, cv), 0)
  {
  }

  /**
   A losing first move and a drawing second one: the port records both with
   Number.MIN_VALUE and plays the loss, where the Java root, starting from
   Integer.MIN_VALUE, records -1 and 0 and plays the draw.
   */
  lemma LossBeforeDrawPicksLoss()
    ensures JsPick(JsRootNodes([Move(0, 0), Move(0, 1)], [-1.0, 0.0]), 0)
    ensures JsRootNodes([Move(0, 0), Move(0, 1)], [-1.0, 0.0])[0].move == Move(0, 0)
    ensures BestMove(RootNodes([Move(0, 0), Move(0, 1)], [-1, 0], true)) == Move(0, 1)
  {
  }

  // ---------------------------------------------------------------------
  // callMinimax over the persistent node list

  /** callMinimax of the port: the half-cleared previous nodes, followed by what the new search appends. */
  function JsCallMinimaxNodes<T>(previous: seq<T>, appended: seq<T>): (nodes: seq<T>)
    ensures nodes == OddEntries(previous) + appended
  {
    SpliceClear(previous) + appended
  }

  /**
   A winning node of the previous search survives the clearing, comes first
   and ties with the new search's winning move, so getBestMove returns the
   old move (1, 1) instead of the new search's (0, 2).
   */
  lemma StaleNodeOutranksNewSearch()
    ensures JsPick(JsCallMinimaxNodes([Point(MinValue, Move(0, 0)), Point(1.0, Move(1, 1))],
                                      [Point(MinValue, Move(0, 1)), Point(1.0, Move(0, 2))]), 0)
    ensures JsCallMinimaxNodes([Point(MinValue, Move(0, 0)), Point(1.0, Move(1, 1))],
                               [Point(MinValue, Move(0, 1)), Point(1.0, Move(0, 2))])[0].move == Move(1, 1)
    ensures JsPick([Point(MinValue, Move(0, 1)), Point(1.0, Move(0, 2))], 1)
  {
  }
}
