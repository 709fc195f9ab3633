/**
 minimax as the source runs it: on one mutable grid, placing a mark, searching,
 and resetting the cell to 0 on every trial. Proved to leave the grid as it
 found it and to compute exactly the pure Search.Minimax.
 */
module InPlace {
  import opened Board
  import opened Search

  method MinimaxInPlace(cells: array<int>, depth: nat, isMax: bool) returns (r: Eval)
    requires cells.Length == 9
    modifies cells
    ensures cells[..] == old(cells[..])
    ensures r == Minimax(old(cells[..]), depth, isMax)
    decreases EmptyCount(cells[..]), 3
  {
    if |AvailableMoves(cells[..])| == 0 {
      return Eval(0, []);
    }
    if HasWon(cells[..], X) {
      return Eval(1, []);
    }
    if HasWon(cells[..], O) {
      return Eval(-1, []);
    }
    r := TrialsInPlace(cells, depth, isMax);
  }

  /** The loop of minimax over the available moves; the grid is the same before and after every trial. */
  method TrialsInPlace(cells: array<int>, depth: nat, isMax: bool) returns (r: Eval)
    requires cells.Length == 9 && |AvailableMoves(cells[..])| > 0
    modifies cells
    ensures cells[..] == old(cells[..])
    ensures r == Trials(old(cells[..]), depth, isMax, AvailableMoves(old(cells[..])), 0, Sentinel(isMax), [])
    decreases EmptyCount(cells[..]), 2
  {
    var b: Board := cells[..];
    var best := Sentinel(isMax);
    var nodes: seq<Node> := [];
    var i := 0;
    while i < |AvailableMoves(cells[..])|
      invariant cells[..] == b
      invariant 0 <= i <= |AvailableMoves(b)|
      invariant if i == 0 then best == Sentinel(isMax) else IsOutcome(best)
      invariant depth > 0 ==> nodes == []
      invariant Trials(b, depth, isMax, AvailableMoves(b), i, best, nodes)
        == Trials(b, depth, isMax, AvailableMoves(b), 0, Sentinel(isMax), [])
    {
      best, nodes := TrialInPlace(cells, depth, isMax, i, best, nodes);
      i := i + 1;
    }
    return Eval(best, nodes);
  }

  /**
   One trial: search the board after the mover's mark on the i-th available
   cell, fold the child's value into the running extremum and, at the root,
   record it with the move.
   */
  method TrialInPlace(cells: array<int>, depth: nat, isMax: bool, i: nat, best: int, nodes: seq<Node>)
    returns (best': int, nodes': seq<Node>)
    requires cells.Length == 9 && i < |AvailableMoves(cells[..])|
    requires if i == 0 then best == Sentinel(isMax) else IsOutcome(best)
    requires depth > 0 ==> nodes == []
    modifies cells
    ensures cells[..] == old(cells[..])
    ensures best' == Better(isMax, best, ChildValues(old(cells[..]), depth, isMax)[i])
    ensures nodes' == if depth == 0 then nodes + [Node(AvailableMoves(old(cells[..]))[i], best')] else nodes
    ensures IsOutcome(best') && (depth > 0 ==> nodes' == [])
    ensures Trials(old(cells[..]), depth, isMax, AvailableMoves(old(cells[..])), i, best, nodes)
      == Trials(old(cells[..]), depth, isMax, AvailableMoves(old(cells[..])), i + 1, best', nodes')
    decreases EmptyCount(cells[..]), 1
  {
    var b: Board := cells[..];
    var m := AvailableMoves(b)[i];
    AvailableAreEmpty(b);
    var v := SearchChild(cells, depth, isMax, m);
    TrialStepByChild(b, depth, isMax, i, best, nodes);
    ChildValueAt(b, depth, isMax, i);
    best' := Better(isMax, best, v);
    nodes' := if depth == 0 then nodes + [Node(m, best')] else nodes;
  }

  /** Place the mover's mark on the empty cell of m, search the board below, and reset the cell to 0. */
  method SearchChild(cells: array<int>, depth: nat, isMax: bool, m: Move) returns (v: int)
    requires cells.Length == 9 && InRange(m) && Cell(cells[..], m.r, m.c) == Empty
    modifies cells
    ensures cells[..] == old(cells[..])
    ensures v == Minimax(PlaceMove(old(cells[..]), m, Mark(isMax)), depth + 1, !isMax).value
    decreases EmptyCount(cells[..]), 0
  {
    var b: Board := cells[..];
    PlaceOnEmptyDecrements(b, m, Mark(isMax));
    cells[Index(m)] := Mark(isMax);
    assert cells[..] == PlaceMove(b, m, Mark(isMax));
    var child := MinimaxInPlace(cells, depth + 1, !isMax);
    v := child.value;
    cells[Index(m)] := Empty;
    PlaceThenUndo(b, m, Mark(isMax));
    assert cells[..] == PlaceMove(PlaceMove(b, m, Mark(isMax)), m, Empty);
  }

  /** TrialsStep with the child's value written as the search of the board after the i-th move. */
  lemma TrialStepByChild(b: Board, depth: nat, isMax: bool, i: nat, best: int, nodes: seq<Node>)
    requires i < |AvailableMoves(b)|
    requires if i == 0 then best == Sentinel(isMax) else IsOutcome(best)
    requires depth > 0 ==> nodes == []
    ensures
      var v := Minimax(PlaceMove(b, AvailableMoves(b)[i], Mark(isMax)), depth + 1, !isMax).value;
      var best' := Better(isMax, best, v);
      IsOutcome(best')
      && Trials(b, depth, isMax, AvailableMoves(b), i, best, nodes)
        == Trials(b, depth, isMax, AvailableMoves(b), i + 1, best',
                  if depth == 0 then nodes + [Node(AvailableMoves(b)[i], best')] else nodes)
  {
    TrialsStep(b, depth, isMax, i, best, nodes);
    ChildValueAt(b, depth, isMax, i);
  }
}
