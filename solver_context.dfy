/**
 * `Move` and `SolverContext` (src/SolverCommon.hpp): the solver's private
 * copy of the graph, the move log, the move budget and the stop flag.
 */
module Solving {
  import opened Edges
  import opened Firing
  import opened Adjacency
  import opened Graphs

  datatype MoveType = Give | Take

  datatype Move = Move(kind: MoveType, node: nat)

  predicate NodesBelow(moves: seq<Move>, n: nat) {
    forall i :: 0 <= i < |moves| ==> moves[i].node < n
  }

  /** The values reached from `v` by playing `moves` in order on the
      neighbour lists `adj`. */
  ghost function Replay(v: seq<int>, adj: seq<seq<nat>>, moves: seq<Move>): (w: seq<int>)
    requires |adj| == |v| && WellFormed(adj) && NodesBelow(moves, |v|)
    ensures |w| == |v|
    decreases |moves|
  {
    if moves == [] then v
    else
      var m := moves[|moves| - 1];
      Fire(Replay(v, adj, moves[..|moves| - 1]), adj[m.node], m.node, m.kind == Give)
  }

  lemma ReplayStep(v: seq<int>, adj: seq<seq<nat>>, moves: seq<Move>, m: Move)
    requires |adj| == |v| && WellFormed(adj) && NodesBelow(moves, |v|) && m.node < |v|
    ensures NodesBelow(moves + [m], |v|)
    ensures Replay(v, adj, moves + [m]) == Fire(Replay(v, adj, moves), adj[m.node], m.node, m.kind == Give)
  {
    assert (moves + [m])[..|moves|] == moves;
  }

  /** Playing `a` then `b` is playing `a + b`. */
  lemma {:induction false} ReplayAppend(v: seq<int>, adj: seq<seq<nat>>, a: seq<Move>, b: seq<Move>)
    requires |adj| == |v| && WellFormed(adj) && NodesBelow(a, |v|) && NodesBelow(b, |v|)
    ensures NodesBelow(a + b, |v|)
    ensures Replay(v, adj, a + b) == Replay(Replay(v, adj, a), adj, b)
    decreases |b|
  {
    if b == [] {
      assert a + b == a;
    } else {
      var b', m := b[..|b| - 1], b[|b| - 1];
      assert b == b' + [m];
      assert a + b == (a + b') + [m];
      ReplayAppend(v, adj, a, b');
      ReplayStep(v, adj, a + b', m);
      ReplayStep(Replay(v, adj, a), adj, b', m);
    }
  }

  /** No sequence of moves changes the total. */
  lemma {:induction false} ReplayConservesSum(v: seq<int>, adj: seq<seq<nat>>, moves: seq<Move>)
    requires |adj| == |v| && WellFormed(adj) && NodesBelow(moves, |v|)
    ensures Sum(Replay(v, adj, moves)) == Sum(v)
    decreases |moves|
  {
    if moves != [] {
      var m := moves[|moves| - 1];
      ReplayConservesSum(v, adj, moves[..|moves| - 1]);
      FireConservesSum(Replay(v, adj, moves[..|moves| - 1]), adj[m.node], m.node, m.kind == Give);
    }
  }

  /** No sequence of moves changes whether the graph is solvable. */
  lemma ReplayKeepsSolvable(v: seq<int>, adj: seq<seq<nat>>, moves: seq<Move>)
    requires |adj| == |v| && WellFormed(adj) && NodesBelow(moves, |v|)
    ensures Solvable(Replay(v, adj, moves), adj) == Solvable(v, adj)
  {
    ReplayConservesSum(v, adj, moves);
  }

  /** The opposite move on the same node. */
  function Opposite(m: Move): (o: Move)
    ensures o.node == m.node && o.kind != m.kind
  {
    Move(if m.kind == Give then Take else Give, m.node)
  }

  lemma OppositeInvolutive(m: Move)
    ensures Opposite(Opposite(m)) == m
  {
  }

  /** Undoing: the opposite moves in reverse order. */
  function Undo(moves: seq<Move>): (u: seq<Move>)
    ensures |u| == |moves|
    ensures forall i :: 0 <= i < |moves| ==> u[i] == Opposite(moves[|moves| - 1 - i])
  {
    if moves == [] then [] else [Opposite(moves[|moves| - 1])] + Undo(moves[..|moves| - 1])
  }

  /** Playing any log and then its undo restores the starting values. */
  lemma {:induction false} ReplayUndo(v: seq<int>, adj: seq<seq<nat>>, moves: seq<Move>)
    requires |adj| == |v| && WellFormed(adj) && NodesBelow(moves, |v|)
    ensures NodesBelow(Undo(moves), |v|)
    ensures Replay(Replay(v, adj, moves), adj, Undo(moves)) == v
    decreases |moves|
  {
    var u := Undo(moves);
    assert NodesBelow(u, |v|);
    if moves != [] {
      var rest, m := moves[..|moves| - 1], moves[|moves| - 1];
      var w := Replay(v, adj, rest);
      var o := Opposite(m);
      assert u == [o] + Undo(rest);
      assert NodesBelow(Undo(rest), |v|);
      ReplayAppend(Replay(v, adj, moves), adj, [o], Undo(rest));
      ReplayStep(Replay(v, adj, moves), adj, [], o);
      assert [] + [o] == [o];
      FireInverse(w, adj[m.node], m.node, m.kind == Give);
      assert Replay(Replay(v, adj, moves), adj, [o]) == w;
      ReplayUndo(v, adj, rest);
    }
  }

  class SolverContext {
    var shouldStop: bool
    var graph: Graph
    var moves: seq<Move>
    var moveLimit: nat
    /** The values the graph had when the context was made. */
    ghost var start: seq<int>

    /** The private graph is the starting graph with the logged moves played on it. */
    ghost predicate Valid()
      reads this, graph
    {
      && graph.Valid()
      && |start| == |graph.values|
      && NodesBelow(moves, |start|)
      && graph.values == Replay(start, graph.Adj(), moves)
    }

    /** Copies the graph, clears the log and starts unstopped. */
    constructor (g: Graph, limit: nat)
      requires g.Valid()
      ensures Valid() && fresh(graph)
      ensures graph.values == g.values && graph.connections == g.connections && graph.buffer == g.buffer
      ensures graph.Adj() == g.Adj()
      ensures moves == [] && !shouldStop && moveLimit == limit && start == g.values
    {
      graph := new Graph.Copy(g);
      moves := [];
      shouldStop := false;
      moveLimit := limit;
      start := g.values;
    }

    /** `registerMove(move)`: log the move, then play it on the private graph. */
    method RegisterMove(move: Move)
      requires Valid() && move.node != NullNode && move.node < |graph.values|
      modifies this, graph
      ensures Valid() && graph == old(graph) && start == old(start)
      ensures moves == old(moves) + [move]
      ensures shouldStop == old(shouldStop) && moveLimit == old(moveLimit)
      ensures graph.connections == old(graph.connections) && graph.buffer == old(graph.buffer)
      ensures graph.Adj() == old(graph.Adj())
      ensures graph.values == Fire(old(graph.values), old(graph.Neighbours(move.node)), move.node, move.kind == Give)
    {
      ghost var adj := graph.Adj();
      ReplayStep(start, adj, moves, move);
      moves := moves + [move];
      if move.kind == Take {
        graph.Take(move.node);
      } else if move.kind == Give {
        graph.Give(move.node);
      }
      assert graph.Adj() == adj;
    }

    /** The typed overload `registerMove<type>(handle)`. */
    method RegisterMoveOf(kind: MoveType, handle: nat)
      requires Valid() && handle != NullNode && handle < |graph.values|
      modifies this, graph
      ensures Valid() && graph == old(graph) && start == old(start)
      ensures moves == old(moves) + [Move(kind, handle)]
      ensures shouldStop == old(shouldStop) && moveLimit == old(moveLimit)
      ensures graph.connections == old(graph.connections) && graph.buffer == old(graph.buffer)
      ensures graph.Adj() == old(graph.Adj())
      ensures graph.values == Fire(old(graph.values), old(graph.Neighbours(handle)), handle, kind == Give)
    {
      RegisterMove(Move(kind, handle));
    }

    /** `isSolved()`: raise the stop flag once the log exceeds the budget, then
        report stopped-or-solved. */
    method IsSolved() returns (r: bool)
      modifies this`shouldStop
      ensures old(Valid()) ==> Valid()
      ensures shouldStop == (old(shouldStop) || |moves| > moveLimit)
      ensures r == (shouldStop || Solved(graph.values))
    {
      if |moves| > moveLimit {
        shouldStop := true;
      }
      r := shouldStop || graph.IsSolved();
    }

    /** `stop()`: raise the stop flag. */
    method Stop()
      modifies this`shouldStop
      ensures old(Valid()) ==> Valid()
      ensures shouldStop
    {
      shouldStop := true;
    }

    /** `wasStopped()`. */
    function WasStopped(): bool
      reads this
    {
      shouldStop
    }

    /** `isSolvable()` of the private graph. */
    method IsSolvable() returns (r: bool)
      requires Valid()
      ensures r == Solvable(graph.values, graph.Adj())
      ensures r == Solvable(start, graph.Adj())
    {
      r := graph.IsSolvable();
      ReplayKeepsSolvable(start, graph.Adj(), moves);
    }
  }
}
