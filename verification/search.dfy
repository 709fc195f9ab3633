/**
 The exhaustive minimax search of the computer player.

 The source searches one shared grid in place: each trial marks an empty
 cell, recurses with the other side to move and resets the cell to 0. Here
 the board is an immutable value, so each trial works on the marked copy and
 the caller's board is untouched by construction; module InPlace repeats the
 search on a mutable array and proves that the reset restores it.

 The source appends the root's scored moves to a shared list as a side
 effect. Here every call returns the nodes it appended along with its value.
 */
module Search {
  import opened Board

  /** Java's Integer.MIN_VALUE and Integer.MAX_VALUE, the starting points of the running extremum. */
  const IntMin: int := -0x8000_0000
  const IntMax: int := 0x7fff_ffff

  /** A root move together with the value recorded for it. */
  datatype Node = Node(m: Move, value: int)

  /** What one minimax call yields: its value and the nodes it appended to the shared list. */
  datatype Eval = Eval(value: int, nodes: seq<Node>)

  /** The three game outcomes seen from X: loss, draw, win. */
  predicate IsOutcome(v: int) {
    v == -1 || v == 0 || v == 1
  }

  /** The mark placed by the side to move: X maximises, O minimises. */
  function Mark(isMax: bool): int {
    if isMax then X else O
  }

  /** Math.max for the maximiser, Math.min for the minimiser. */
  function Better(isMax: bool, a: int, b: int): int {
    if isMax then (if a >= b then a else b) else (if a <= b then a else b)
  }

  function Sentinel(isMax: bool): int {
    if isMax then IntMin else IntMax
  }

  // ---------------------------------------------------------------------
  // minimax

  /**
   minimax(depth, isMaximizer). The draw test (no available move) runs
   before the two win tests, so a full board scores 0 even when it holds a
   completed line. The value is always a game outcome, and only the root
   call (depth 0) appends nodes.
   */
  function Minimax(b: Board, depth: nat, isMax: bool): (r: Eval)
    ensures IsOutcome(r.value)
    ensures depth > 0 ==> r.nodes == []
    decreases EmptyCount(b), 1
  {
    var moves := AvailableMoves(b);
    if |moves| == 0 then Eval(0, [])
    else if HasWon(b, X) then Eval(1, [])
    else if HasWon(b, O) then Eval(-1, [])
    else Trials(b, depth, isMax, moves, 0, Sentinel(isMax), [])
  }

  /**
   The loop over the available moves from the i-th on: best is the running
   maximum (or minimum) so far, nodes what has been appended so far. At depth
   0 each trial appends its move with the running extremum, not with the
   child's own value.
   */
  function Trials(b: Board, depth: nat, isMax: bool, moves: seq<Move>, i: nat, best: int, nodes: seq<Node>): (r: Eval)
    requires moves == AvailableMoves(b) && 0 < |moves| && i <= |moves|
    requires if i == 0 then best == Sentinel(isMax) else IsOutcome(best)
    requires depth > 0 ==> nodes == []
    ensures IsOutcome(r.value)
    ensures depth > 0 ==> r.nodes == []
    decreases EmptyCount(b), 0, |moves| - i
  {
    if i == |moves| then Eval(best, nodes)
    else
      AvailableAreEmpty(b);
      var m := moves[i];
      PlaceOnEmptyDecrements(b, m, Mark(isMax));
      var child := Minimax(PlaceMove(b, m, Mark(isMax)), depth + 1, !isMax);
      var best' := Better(isMax, best, child.value);
      var nodes' := nodes + child.nodes + (if depth == 0 then [Node(m, best')] else []);
      Trials(b, depth, isMax, moves, i + 1, best', nodes')
  }

  // ---------------------------------------------------------------------
  // Reference definitions the search is proved against

  /** The values of the children, one per available move, in the order the moves are tried. */
  function ChildValues(b: Board, depth: nat, isMax: bool): (cv: seq<int>)
    ensures |cv| == |AvailableMoves(b)|
    ensures forall k :: 0 <= k < |cv| ==> IsOutcome(cv[k])
  {
    var moves := AvailableMoves(b);
    seq(|moves|, k requires 0 <= k < |moves| => Minimax(PlaceMove(b, moves[k], Mark(isMax)), depth + 1, !isMax).value)
  }

  /** The k-th child value is the value of the board after the k-th available move. */
  lemma ChildValueAt(b: Board, depth: nat, isMax: bool, k: nat)
    requires k < |AvailableMoves(b)|
    ensures ChildValues(b, depth, isMax)[k]
      == Minimax(PlaceMove(b, AvailableMoves(b)[k], Mark(isMax)), depth + 1, !isMax).value
  {
  }

  /** The largest (isMax) or smallest element of a non-empty sequence. */
  function Extreme(isMax: bool, s: seq<int>): (e: int)
    requires |s| > 0
    ensures e in s
    ensures isMax ==> forall k :: 0 <= k < |s| ==> s[k] <= e
    ensures !isMax ==> forall k :: 0 <= k < |s| ==> e <= s[k]
  {
    if |s| == 1 then s[0]
    else
      var e := Extreme(isMax, s[..|s| - 1]);
      assert forall k :: 0 <= k < |s| - 1 ==> s[k] == s[..|s| - 1][k];
      Better(isMax, e, s[|s| - 1])
  }

  /** The nodes the root appends: each move with the extremum of the children tried so far. */
  function RootNodes(moves: seq<Move>, cv: seq<int>, isMax: bool): (ns: seq<Node>)
    requires |cv| == |moves|
    ensures |ns| == |moves|
  {
    seq(|moves|, k requires 0 <= k < |moves| => Node(moves[k], Extreme(isMax, cv[..k + 1])))
  }

  lemma RootNodeAt(moves: seq<Move>, cv: seq<int>, isMax: bool, k: nat)
    requires |cv| == |moves| && k < |moves|
    ensures RootNodes(moves, cv, isMax)[k] == Node(moves[k], Extreme(isMax, cv[..k + 1]))
  {
  }

  /** Folding the next value into the running extremum gives the extremum of the longer prefix. */
  lemma RunningExtremeStep(isMax: bool, cv: seq<int>, i: nat, best: int)
    requires i < |cv| && IsOutcome(cv[i])
    requires if i == 0 then best == Sentinel(isMax) else best == Extreme(isMax, cv[..i]) && IsOutcome(best)
    ensures Better(isMax, best, cv[i]) == Extreme(isMax, cv[..i + 1])
    ensures IsOutcome(Better(isMax, best, cv[i]))
  {
    assert cv[..i + 1][..i] == cv[..i];
  }

  lemma AppendStep<T>(prefix: seq<T>, all: seq<T>, i: nat)
    requires i < |all|
    ensures prefix + [all[i]] + all[i + 1..] == prefix + all[i..]
  {
    assert all[i..] == [all[i]] + all[i + 1..];
  }

  /** One trial of the loop: the child's value is folded into the running extremum and, at the root, recorded. */
  lemma TrialsStep(b: Board, depth: nat, isMax: bool, i: nat, best: int, nodes: seq<Node>)
    requires 0 < |AvailableMoves(b)| && i < |AvailableMoves(b)|
    requires if i == 0 then best == Sentinel(isMax) else IsOutcome(best)
    requires depth > 0 ==> nodes == []
    ensures
      var best' := Better(isMax, best, ChildValues(b, depth, isMax)[i]);
      Trials(b, depth, isMax, AvailableMoves(b), i, best, nodes)
        == Trials(b, depth, isMax, AvailableMoves(b), i + 1, best',
                  if depth == 0 then nodes + [Node(AvailableMoves(b)[i], best')] else nodes)
  {
    var moves := AvailableMoves(b);
    ChildValueAt(b, depth, isMax, i);
    var child := Minimax(PlaceMove(b, moves[i], Mark(isMax)), depth + 1, !isMax);
    assert child.nodes == [];
    assert nodes + child.nodes == nodes;
    assert nodes + [] == nodes;
  }

  /** The loop leaves the extremum of all the child values as the value. */
  lemma {:induction false} TrialsValue(b: Board, depth: nat, isMax: bool, i: nat, best: int, nodes: seq<Node>)
    requires 0 < |AvailableMoves(b)| && i <= |AvailableMoves(b)|
    requires if i == 0 then best == Sentinel(isMax) else best == Extreme(isMax, ChildValues(b, depth, isMax)[..i])
    requires depth > 0 ==> nodes == []
    requires i > 0 ==> IsOutcome(best)
    ensures Trials(b, depth, isMax, AvailableMoves(b), i, best, nodes).value == Extreme(isMax, ChildValues(b, depth, isMax))
    decreases |AvailableMoves(b)| - i
  {
    var moves := AvailableMoves(b);
    var cv := ChildValues(b, depth, isMax);
    if i == |moves| {
      assert cv[..i] == cv;
    } else {
      TrialsStep(b, depth, isMax, i, best, nodes);
      var best' := Better(isMax, best, cv[i]);
      RunningExtremeStep(isMax, cv, i, best);
      var nodes' := if depth == 0 then nodes + [Node(moves[i], best')] else nodes;
      TrialsValue(b, depth, isMax, i + 1, best', nodes');
    }
  }

  /** At the root the loop appends, from the i-th move on, each move with the running extremum. */
  lemma {:induction false} TrialsNodes(b: Board, isMax: bool, i: nat, best: int, nodes: seq<Node>)
    requires 0 < |AvailableMoves(b)| && i <= |AvailableMoves(b)|
    requires if i == 0 then best == Sentinel(isMax) else best == Extreme(isMax, ChildValues(b, 0, isMax)[..i])
    requires i > 0 ==> IsOutcome(best)
    ensures Trials(b, 0, isMax, AvailableMoves(b), i, best, nodes).nodes
      == nodes + RootNodes(AvailableMoves(b), ChildValues(b, 0, isMax), isMax)[i..]
    decreases |AvailableMoves(b)| - i
  {
    var moves := AvailableMoves(b);
    var cv := ChildValues(b, 0, isMax);
    var all := RootNodes(moves, cv, isMax);
    if i == |moves| {
      assert all[i..] == [];
    } else {
      TrialsStep(b, 0, isMax, i, best, nodes);
      var best' := Better(isMax, best, cv[i]);
      RunningExtremeStep(isMax, cv, i, best);
      RootNodeAt(moves, cv, isMax, i);
      TrialsNodes(b, isMax, i + 1, best', nodes + [Node(moves[i], best')]);
      AppendStep(nodes, all, i);
    }
  }

  /**
   Off a finished game, minimax returns the maximum (maximiser) or minimum
   (minimiser) of its children's values, one child per available move.
   */
  lemma MinimaxIsExtremeOfChildren(b: Board, depth: nat, isMax: bool)
    requires !GameIsOver(b)
    ensures Minimax(b, depth, isMax).value == Extreme(isMax, ChildValues(b, depth, isMax))
  {
    TrialsValue(b, depth, isMax, 0, Sentinel(isMax), []);
  }

  /**
   A root call on a board where the game is not over appends one node per
   available move, in row-major order, each carrying the running extremum of
   the child values so far.
   */
  lemma RootCallRecordsRunningExtreme(b: Board, isMax: bool)
    requires !GameIsOver(b)
    ensures |Minimax(b, 0, isMax).nodes| == |AvailableMoves(b)|
    ensures forall k :: 0 <= k < |AvailableMoves(b)| ==>
      Minimax(b, 0, isMax).nodes[k] == Node(AvailableMoves(b)[k], Extreme(isMax, ChildValues(b, 0, isMax)[..k + 1]))
  {
    var moves := AvailableMoves(b);
    var cv := ChildValues(b, 0, isMax);
    var all := RootNodes(moves, cv, isMax);
    assert Minimax(b, 0, isMax) == Trials(b, 0, isMax, moves, 0, Sentinel(isMax), []);
    TrialsNodes(b, isMax, 0, Sentinel(isMax), []);
    assert [] + all[0..] == all;
    forall k | 0 <= k < |moves|
      ensures Minimax(b, 0, isMax).nodes[k] == Node(moves[k], Extreme(isMax, cv[..k + 1]))
    {
      RootNodeAt(moves, cv, isMax, k);
    }
  }

  /**
   When the game is over minimax appends nothing and scores the board in this
   order: a full board is a draw (even if it holds a line), else an X line
   scores 1, else it is an O line and scores -1.
   */
  lemma MinimaxOnFinishedGame(b: Board, depth: nat, isMax: bool)
    requires GameIsOver(b)
    ensures Minimax(b, depth, isMax).nodes == []
    ensures Full(b) ==> Minimax(b, depth, isMax).value == 0
    ensures !Full(b) && ThreeInALine(b, X) ==> Minimax(b, depth, isMax).value == 1
    ensures !Full(b) && !ThreeInALine(b, X) ==> ThreeInALine(b, O) && Minimax(b, depth, isMax).value == -1
  {
    GameIsOverIff(b);
    NoMovesIffFull(b);
    HasWonIffThreeInALine(b, X);
    HasWonIffThreeInALine(b, O);
  }

  /** The depth argument only decides whether nodes are recorded: the value does not depend on it. */
  lemma {:induction false} ValueIgnoresDepth(b: Board, d1: nat, d2: nat, isMax: bool)
    ensures Minimax(b, d1, isMax).value == Minimax(b, d2, isMax).value
    decreases EmptyCount(b)
  {
    if GameIsOver(b) {
      MinimaxOnFinishedGame(b, d1, isMax);
      MinimaxOnFinishedGame(b, d2, isMax);
    } else {
      var moves := AvailableMoves(b);
      var cv1 := ChildValues(b, d1, isMax);
      var cv2 := ChildValues(b, d2, isMax);
      AvailableAreEmpty(b);
      forall k | 0 <= k < |moves|
        ensures cv1[k] == cv2[k]
      {
        ChildValueAt(b, d1, isMax, k);
        ChildValueAt(b, d2, isMax, k);
        PlaceOnEmptyDecrements(b, moves[k], Mark(isMax));
        ValueIgnoresDepth(PlaceMove(b, moves[k], Mark(isMax)), d1 + 1, d2 + 1, !isMax);
      }
      assert cv1 == cv2;
      MinimaxIsExtremeOfChildren(b, d1, isMax);
      MinimaxIsExtremeOfChildren(b, d2, isMax);
    }
  }

  // ---------------------------------------------------------------------
  // getBestMove

  /** The first position holding the maximum of a non-empty sequence. */
  function FirstArgMax(s: seq<int>): (k: nat)
    requires |s| > 0
    ensures k < |s|
    ensures forall j :: 0 <= j < |s| ==> s[j] <= s[k]
    ensures forall j :: 0 <= j < k ==> s[j] < s[k]
  {
    if |s| == 1 then 0
    else
      var k := FirstArgMax(s[..|s| - 1]);
      assert forall j :: 0 <= j < |s| - 1 ==> s[j] == s[..|s| - 1][j];
      if s[k] < s[|s| - 1] then |s| - 1 else k
  }

  /** The properties that pin FirstArgMax down: any first maximum position is it. */
  lemma FirstArgMaxUnique(s: seq<int>, k: nat)
    requires k < |s|
    requires forall j :: 0 <= j < |s| ==> s[j] <= s[k]
    requires forall j :: 0 <= j < k ==> s[j] < s[k]
    ensures FirstArgMax(s) == k
  {
  }

  function Values(nodes: seq<Node>): (vs: seq<int>)
    ensures |vs| == |nodes|
  {
    seq(|nodes|, k requires 0 <= k < |nodes| => nodes[k].value)
  }

  /** The move of the first node holding the largest value. */
  function BestMove(nodes: seq<Node>): Move
    requires |nodes| > 0
  {
    nodes[FirstArgMax(Values(nodes))].m
  }

  /**
   getBestMove: a scan with a strict comparison against a running maximum
   that starts at Integer.MIN_VALUE, so ties go to the earliest node. The
   source reads nodes.get(index) with index 0 on an empty list, which throws:
   at least one node is required.
   */
  method GetBestMove(nodes: seq<Node>) returns (best: Move)
    requires |nodes| > 0
    requires forall k :: 0 <= k < |nodes| ==> IntMin <= nodes[k].value
    ensures best == BestMove(nodes)
  {
    var max := IntMin;
    var index := 0;
    var i := 0;
    while i < |nodes|
      invariant 0 <= i <= |nodes|
      invariant 0 <= index < |nodes|
      invariant i == 0 ==> max == IntMin && index == 0
      invariant i > 0 ==> index < i && max == nodes[index].value
      invariant forall j :: 0 <= j < i ==> nodes[j].value <= max
      invariant forall j :: 0 <= j < index ==> nodes[j].value < max
    {
      if max < nodes[i].value {
        max := nodes[i].value;
        index := i;
      }
      i := i + 1;
    }
    FirstArgMaxUnique(Values(nodes), index);
    best := nodes[index].m;
  }

  /**
   The first maximum of the running maxima is the first maximum of the
   values themselves: recording the running maximum rather than each child's
   own value does not change which root move is picked.
   */
  lemma FirstArgMaxOfRunningMax(cv: seq<int>, run: seq<int>)
    requires |cv| > 0 && |run| == |cv|
    requires forall k :: 0 <= k < |cv| ==> run[k] == Extreme(true, cv[..k + 1])
    ensures FirstArgMax(run) == FirstArgMax(cv)
  {
    var a := FirstArgMax(cv);
    forall j | 0 <= j < |run|
      ensures run[j] <= run[a]
    {
      assert cv[..a + 1][a] == cv[a];
      var w :| w in cv[..j + 1] && w == run[j];
    }
    forall j | 0 <= j < a
      ensures run[j] < run[a]
    {
      assert cv[..a + 1][a] == cv[a];
      assert run[j] in cv[..j + 1];
    }
    FirstArgMaxUnique(run, a);
  }

  // ---------------------------------------------------------------------
  // callMinimax and the computer's turn

  /** The state the source keeps in static fields: the grid and the root nodes of the last search. */
  datatype Game = Game(cells: Board, nodes: seq<Node>)

  /**
   callMinimax: clears the node list, then searches. The grid is left as it
   was; the new list holds exactly what the search appended, so nothing from
   an earlier search survives.
   */
  function CallMinimax(g: Game, depth: nat, isMax: bool): (r: Game)
    ensures r.cells == g.cells
    ensures GameIsOver(g.cells) || depth > 0 ==> r.nodes == []
    ensures !GameIsOver(g.cells) && depth == 0 ==>
      |r.nodes| == |AvailableMoves(g.cells)|
      && forall k :: 0 <= k < |r.nodes| ==> r.nodes[k].m == AvailableMoves(g.cells)[k] && IsOutcome(r.nodes[k].value)
  {
    RootNodesAreOutcomes(g.cells, depth, isMax);
    var cleared := Game(g.cells, []);
    Game(cleared.cells, cleared.nodes + Minimax(cleared.cells, depth, isMax).nodes)
  }

  lemma RootNodesAreOutcomes(b: Board, depth: nat, isMax: bool)
    ensures GameIsOver(b) || depth > 0 ==> Minimax(b, depth, isMax).nodes == []
    ensures !GameIsOver(b) && depth == 0 ==>
      |Minimax(b, depth, isMax).nodes| == |AvailableMoves(b)|
      && forall k :: 0 <= k < |AvailableMoves(b)| ==>
        Minimax(b, depth, isMax).nodes[k].m == AvailableMoves(b)[k] && IsOutcome(Minimax(b, depth, isMax).nodes[k].value)
  {
    if !GameIsOver(b) && depth == 0 {
      RootCallRecordsRunningExtreme(b, isMax);
      var cv := ChildValues(b, 0, isMax);
      var ns := Minimax(b, depth, isMax).nodes;
      forall k | 0 <= k < |ns|
        ensures IsOutcome(ns[k].value)
      {
        var e := Extreme(isMax, cv[..k + 1]);
        assert ns[k].value == e;
        var j :| 0 <= j <= k && cv[..k + 1][j] == e;
        assert cv[j] == e;
      }
    } else if GameIsOver(b) {
      MinimaxOnFinishedGame(b, depth, isMax);
    }
  }

  /** The value to X of playing m on b, O then to move. */
  function MoveValue(b: Board, m: Move): int
    requires InRange(m)
  {
    Minimax(PlaceMove(b, m, X), 1, false).value
  }

  /**
   The computer's turn: callMinimax(0, true), then getBestMove. It picks the
   first available move, in row-major order, whose value is the board's
   minimax value and so the largest value any move has.
   */
  function ComputerMove(g: Game): (m: Move)
    requires !GameIsOver(g.cells)
    ensures m in AvailableMoves(g.cells)
    ensures MoveValue(g.cells, m) == Minimax(g.cells, 0, true).value
    ensures forall k :: 0 <= k < |AvailableMoves(g.cells)| ==>
      MoveValue(g.cells, AvailableMoves(g.cells)[k]) <= MoveValue(g.cells, m)
  {
    var b := g.cells;
    var moves := AvailableMoves(b);
    var cv := ChildValues(b, 0, true);
    var a := FirstArgMax(cv);
    RootBestMove(b);
    MinimaxIsExtremeOfChildren(b, 0, true);
    ChildValueAt(b, 0, true, a);
    forall k | 0 <= k < |moves|
      ensures MoveValue(b, moves[k]) <= MoveValue(b, moves[a])
    {
      ChildValueAt(b, 0, true, k);
    }
    assert CallMinimax(g, 0, true).nodes == Minimax(b, 0, true).nodes;
    assert moves[a] in moves;
    BestMove(CallMinimax(g, 0, true).nodes)
  }

  /**
   getBestMove on the nodes of a root search for X takes the move at the
   first maximum of the children's values: recording running maxima does not
   change the pick.
   */
  lemma RootBestMove(b: Board)
    requires !GameIsOver(b)
    ensures FirstArgMax(ChildValues(b, 0, true)) < |AvailableMoves(b)|
    ensures |Minimax(b, 0, true).nodes| == |AvailableMoves(b)|
    ensures BestMove(Minimax(b, 0, true).nodes) == AvailableMoves(b)[FirstArgMax(ChildValues(b, 0, true))]
  {
    var cv := ChildValues(b, 0, true);
    var nodes := Minimax(b, 0, true).nodes;
    RootCallRecordsRunningExtreme(b, true);
    FirstArgMaxOfRunningMax(cv, Values(nodes));
  }

  /** The computer's move is the available move at the first maximum of the children's values. */
  lemma ComputerMoveAt(g: Game)
    requires !GameIsOver(g.cells)
    ensures FirstArgMax(ChildValues(g.cells, 0, true)) < |AvailableMoves(g.cells)|
    ensures ComputerMove(g) == AvailableMoves(g.cells)[FirstArgMax(ChildValues(g.cells, 0, true))]
  {
    RootBestMove(g.cells);
    assert CallMinimax(g, 0, true).nodes == Minimax(g.cells, 0, true).nodes;
  }

  /** Of the moves with the largest value, the computer takes the first in row-major order. */
  lemma ComputerMoveIsFirstBest(g: Game, k: nat)
    requires !GameIsOver(g.cells) && k < |AvailableMoves(g.cells)|
    requires AvailableMoves(g.cells)[k] == ComputerMove(g)
    ensures forall j :: 0 <= j < k ==>
      MoveValue(g.cells, AvailableMoves(g.cells)[j]) < MoveValue(g.cells, ComputerMove(g))
  {
    var b := g.cells;
    var moves := AvailableMoves(b);
    var cv := ChildValues(b, 0, true);
    var a := FirstArgMax(cv);
    ComputerMoveAt(g);
    AvailableInRowMajorOrder(b);
    assert k == a;
    forall j | 0 <= j < k
      ensures MoveValue(b, moves[j]) < MoveValue(b, moves[a])
    {
      assert cv[j] == MoveValue(b, moves[j]);
      assert cv[a] == MoveValue(b, moves[a]);
    }
  }

  /** Conversely, the first move of largest value is the one the computer takes, and its value is the board's. */
  lemma ComputerMoveIsFirstWith(g: Game, k: nat)
    requires !GameIsOver(g.cells) && k < |AvailableMoves(g.cells)|
    requires forall j :: 0 <= j < |AvailableMoves(g.cells)| ==>
      MoveValue(g.cells, AvailableMoves(g.cells)[j]) <= MoveValue(g.cells, AvailableMoves(g.cells)[k])
    requires forall j :: 0 <= j < k ==>
      MoveValue(g.cells, AvailableMoves(g.cells)[j]) < MoveValue(g.cells, AvailableMoves(g.cells)[k])
    ensures ComputerMove(g) == AvailableMoves(g.cells)[k]
    ensures Minimax(g.cells, 0, true).value == MoveValue(g.cells, AvailableMoves(g.cells)[k])
  {
    var b := g.cells;
    var moves := AvailableMoves(b);
    var cv := ChildValues(b, 0, true);
    forall j | 0 <= j < |moves|
      ensures cv[j] == MoveValue(b, moves[j])
    {
      ChildValueAt(b, 0, true, j);
    }
    FirstArgMaxUnique(cv, k);
    ComputerMoveAt(g);
  }

  /** Searching again on the unchanged grid, with the nodes the last search left behind, picks the same move. */
  lemma RepeatedSearchPicksSameMove(g: Game)
    requires !GameIsOver(g.cells)
    ensures CallMinimax(CallMinimax(g, 0, true), 0, true) == CallMinimax(g, 0, true)
    ensures BestMove(CallMinimax(CallMinimax(g, 0, true), 0, true).nodes) == ComputerMove(g)
  {
  }

  /**
   If the computer can complete a line with a move that does not fill the
   board, the position is a win for it and the chosen move also has value 1.
   */
  lemma ImmediateWinIsTaken(g: Game, m: Move)
    requires !GameIsOver(g.cells) && InRange(m) && Cell(g.cells, m.r, m.c) == Empty
    requires ThreeInALine(PlaceMove(g.cells, m, X), X)
    requires EmptyCount(g.cells) >= 2
    ensures Minimax(g.cells, 0, true).value == 1
    ensures MoveValue(g.cells, ComputerMove(g)) == 1
  {
    CompletableLineWins(g.cells, 0, m);
  }

  /** At any depth, a board on which X to move can complete a line without filling the board is worth 1. */
  lemma CompletableLineWins(b: Board, depth: nat, m: Move)
    requires !GameIsOver(b) && InRange(m) && Cell(b, m.r, m.c) == Empty
    requires ThreeInALine(PlaceMove(b, m, X), X)
    requires EmptyCount(b) >= 2
    ensures Minimax(b, depth, true).value == 1
  {
    var moves := AvailableMoves(b);
    var cv := ChildValues(b, depth, true);
    CompletingMoveWins(b, m);
    AvailableAreAll(b);
    var k :| 0 <= k < |moves| && moves[k] == m;
    ChildValueAt(b, depth, true, k);
    ValueIgnoresDepth(PlaceMove(b, m, X), depth + 1, 1, false);
    MinimaxIsExtremeOfChildren(b, depth, true);
  }

  /** When every move leads to a position of value v, the position itself has value v. */
  lemma UniformChildren(b: Board, depth: nat, isMax: bool, v: int)
    requires !GameIsOver(b)
    requires forall m :: InRange(m) && Cell(b, m.r, m.c) == Empty ==>
      Minimax(PlaceMove(b, m, Mark(isMax)), depth + 1, !isMax).value == v
    ensures Minimax(b, depth, isMax).value == v
  {
    var moves := AvailableMoves(b);
    var cv := ChildValues(b, depth, isMax);
    AvailableAreEmpty(b);
    forall k | 0 <= k < |cv|
      ensures cv[k] == v
    {
      ChildValueAt(b, depth, isMax, k);
      assert InRange(moves[k]) && Cell(b, moves[k].r, moves[k].c) == Empty;
    }
    MinimaxIsExtremeOfChildren(b, depth, isMax);
  }

  /** A move that completes a line for X without filling the board has value 1. */
  lemma CompletingMoveWins(b: Board, m: Move)
    requires InRange(m) && Cell(b, m.r, m.c) == Empty
    requires ThreeInALine(PlaceMove(b, m, X), X)
    requires EmptyCount(b) >= 2
    ensures MoveValue(b, m) == 1
  {
    var child := PlaceMove(b, m, X);
    PlaceOnEmptyDecrements(b, m, X);
    AvailableMovesSpec(child);
    HasWonIffThreeInALine(child, X);
    assert |AvailableMoves(child)| > 0;
  }
}
