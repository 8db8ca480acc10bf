/**
 * The two greedy solver plugins (src/solvers/TakePoorestSolver.cpp and
 * src/solvers/GiveRichestSolver.cpp): while the context reports unsolved,
 * play one move on the node of least (resp. greatest) value.
 */
module Greedy {
  import opened Edges
  import opened Firing
  import opened Adjacency
  import opened Graphs
  import opened Solving

  /** `getPoorestNode`: the first index of a least value, as `std::min_element`
      finds it; 0 (the end position) on an empty graph. */
  function PoorestNode(values: seq<int>): (i: nat)
    ensures |values| == 0 ==> i == 0
    ensures |values| > 0 ==> i < |values|
    ensures |values| > 0 ==> forall j :: 0 <= j < |values| ==> values[i] <= values[j]
    ensures |values| > 0 ==> forall j :: 0 <= j < i ==> values[j] > values[i]
    decreases |values|
  {
    if |values| <= 1 then 0
    else
      var p := PoorestNode(values[..|values| - 1]);
      if values[|values| - 1] < values[p] then |values| - 1 else p
  }

  /** `getRichestNode`: the first index of a greatest value, as `std::max_element`
      finds it; 0 (the end position) on an empty graph. */
  function RichestNode(values: seq<int>): (i: nat)
    ensures |values| == 0 ==> i == 0
    ensures |values| > 0 ==> i < |values|
    ensures |values| > 0 ==> forall j :: 0 <= j < |values| ==> values[i] >= values[j]
    ensures |values| > 0 ==> forall j :: 0 <= j < i ==> values[j] < values[i]
    decreases |values|
  {
    if |values| <= 1 then 0
    else
      var p := RichestNode(values[..|values| - 1]);
      if values[|values| - 1] > values[p] then |values| - 1 else p
  }

  /** A graph is solved exactly when its poorest node is out of debt. */
  lemma SolvedIffPoorestNonNegative(values: seq<int>)
    requires |values| > 0
    ensures Solved(values) <==> values[PoorestNode(values)] >= 0
  {
  }

  /** An unsolved graph is non-empty and its poorest node is in debt. */
  lemma PoorestInDebt(values: seq<int>)
    requires !Solved(values)
    ensures |values| > 0 && values[PoorestNode(values)] < 0
  {
  }

  /** The node each solver moves on, and the move it plays there. */
  function Choice(kind: MoveType, values: seq<int>): nat {
    if kind == Take then PoorestNode(values) else RichestNode(values)
  }

  /** `trace` is what the `kind` solver plays from `v`: every move is made from
      an unsolved state, on that state's chosen node. */
  ghost predicate GreedyTrace(kind: MoveType, v: seq<int>, adj: seq<seq<nat>>, trace: seq<Move>)
    requires |adj| == |v| && WellFormed(adj)
  {
    && NodesBelow(trace, |v|)
    && forall i {:trigger trace[..i]} :: 0 <= i < |trace| ==>
         && !Solved(Replay(v, adj, trace[..i]))
         && trace[i] == Move(kind, Choice(kind, Replay(v, adj, trace[..i])))
  }

  /** One more greedy move from an unsolved state extends the trace. */
  lemma TraceExtend(kind: MoveType, v: seq<int>, adj: seq<seq<nat>>, trace: seq<Move>)
    requires |adj| == |v| && WellFormed(adj) && GreedyTrace(kind, v, adj, trace)
    requires !Solved(Replay(v, adj, trace))
    ensures var m := Move(kind, Choice(kind, Replay(v, adj, trace)));
            && m.node < |v|
            && GreedyTrace(kind, v, adj, trace + [m])
            && Replay(v, adj, trace + [m]) == Fire(Replay(v, adj, trace), adj[m.node], m.node, kind == Give)
  {
    var w := Replay(v, adj, trace);
    var m := Move(kind, Choice(kind, w));
    PoorestInDebt(w);
    var t := trace + [m];
    assert t[..|trace|] == trace;
    forall i | 0 <= i < |trace| ensures t[..i] == trace[..i] {
    }
    ReplayStep(v, adj, trace, m);
  }

  /** Every Take the poorest-first solver plays is on a node in debt. */
  lemma TakenNodesInDebt(v: seq<int>, adj: seq<seq<nat>>, trace: seq<Move>, i: nat)
    requires |adj| == |v| && WellFormed(adj) && GreedyTrace(Take, v, adj, trace) && i < |trace|
    ensures Replay(v, adj, trace[..i])[trace[i].node] < 0
  {
    PoorestInDebt(Replay(v, adj, trace[..i]));
  }

  /** The most moves a solver loop can leave in the log. */
  function MoveBound(logged: nat, limit: nat): nat {
    if logged > limit then logged else limit + 1
  }

  /** What holds of the context between iterations of a solver loop that
      started from values `v0` and log `m0` on neighbour lists `adj`. */
  ghost predicate Running(ctx: SolverContext, kind: MoveType, v0: seq<int>, m0: seq<Move>, adj: seq<seq<nat>>)
    reads ctx, ctx.graph
  {
    && ctx.Valid()
    && ctx.graph.Adj() == adj && |ctx.graph.values| == |v0| && |v0| <= NullNode
    && (!ctx.shouldStop ==> |ctx.moves| <= ctx.moveLimit)
    && |m0| <= |ctx.moves| <= MoveBound(|m0|, ctx.moveLimit)
    && ctx.moves[..|m0|] == m0
    && GreedyTrace(kind, v0, adj, ctx.moves[|m0|..])
    && ctx.graph.values == Replay(v0, adj, ctx.moves[|m0|..])
  }

  /** One greedy move appended to a log whose tail after `m0` is a greedy
      trace keeps the head and extends the trace by that move. */
  lemma LogStep(kind: MoveType, v0: seq<int>, adj: seq<seq<nat>>, m0: seq<Move>, log: seq<Move>, node: nat)
    requires |adj| == |v0| && WellFormed(adj) && |m0| <= |log| && log[..|m0|] == m0
    requires GreedyTrace(kind, v0, adj, log[|m0|..])
    requires !Solved(Replay(v0, adj, log[|m0|..])) && node == Choice(kind, Replay(v0, adj, log[|m0|..]))
    ensures node < |v0|
    ensures (log + [Move(kind, node)])[..|m0|] == m0
    ensures (log + [Move(kind, node)])[|m0|..] == log[|m0|..] + [Move(kind, node)]
    ensures GreedyTrace(kind, v0, adj, (log + [Move(kind, node)])[|m0|..])
    ensures Replay(v0, adj, (log + [Move(kind, node)])[|m0|..]) ==
            Fire(Replay(v0, adj, log[|m0|..]), adj[node], node, kind == Give)
  {
    var m := Move(kind, node);
    TraceExtend(kind, v0, adj, log[|m0|..]);
    assert (log + [m])[..|m0|] == log[..|m0|];
    assert (log + [m])[|m0|..] == log[|m0|..] + [m];
  }

  /** The body of both solver loops: register the chosen move, then ask
      `isSolved()` again. */
  method Advance(ctx: SolverContext, kind: MoveType, node: nat,
                 ghost v0: seq<int>, ghost m0: seq<Move>, ghost adj: seq<seq<nat>>)
    returns (solved: bool)
    requires Running(ctx, kind, v0, m0, adj)
    requires !ctx.shouldStop && !Solved(ctx.graph.values) && node == Choice(kind, ctx.graph.values)
    modifies ctx, ctx.graph
    ensures Running(ctx, kind, v0, m0, adj)
    ensures ctx.graph == old(ctx.graph) && ctx.start == old(ctx.start) && ctx.moveLimit == old(ctx.moveLimit)
    ensures ctx.graph.connections == old(ctx.graph.connections) && ctx.graph.buffer == old(ctx.graph.buffer)
    ensures |ctx.moves| == |old(ctx.moves)| + 1
    ensures solved == (ctx.shouldStop || Solved(ctx.graph.values))
    ensures ctx.shouldStop == (|ctx.moves| > ctx.moveLimit)
  {
    LogStep(kind, v0, adj, m0, ctx.moves, node);
    ctx.RegisterMoveOf(kind, node);
    solved := ctx.IsSolved();
  }

  /** The TakePoorest solve loop. */
  method TakePoorest(ctx: SolverContext)
    requires ctx.Valid() && |ctx.graph.values| <= NullNode
    modifies ctx, ctx.graph
    ensures ctx.Valid() && ctx.graph == old(ctx.graph) && ctx.start == old(ctx.start)
    ensures ctx.moveLimit == old(ctx.moveLimit)
    ensures ctx.graph.connections == old(ctx.graph.connections) && ctx.graph.buffer == old(ctx.graph.buffer)
    ensures ctx.shouldStop || Solved(ctx.graph.values)
    ensures ctx.shouldStop == (old(ctx.shouldStop) || |ctx.moves| > ctx.moveLimit)
    ensures old(ctx.shouldStop) ==> ctx.moves == old(ctx.moves)
    ensures |old(ctx.moves)| <= |ctx.moves| <= MoveBound(|old(ctx.moves)|, ctx.moveLimit)
    ensures ctx.moves[..|old(ctx.moves)|] == old(ctx.moves)
    ensures GreedyTrace(Take, old(ctx.graph.values), ctx.graph.Adj(), ctx.moves[|old(ctx.moves)|..])
    ensures ctx.graph.values == Replay(old(ctx.graph.values), ctx.graph.Adj(), ctx.moves[|old(ctx.moves)|..])
  {
    ghost var v0, m0, adj := ctx.graph.values, ctx.moves, ctx.graph.Adj();
    assert ctx.moves[|m0|..] == [];
    var solved := ctx.IsSolved();
    while !solved
      invariant Running(ctx, Take, v0, m0, adj)
      invariant ctx.graph == old(ctx.graph) && ctx.start == old(ctx.start) && ctx.moveLimit == old(ctx.moveLimit)
      invariant ctx.graph.connections == old(ctx.graph.connections) && ctx.graph.buffer == old(ctx.graph.buffer)
      invariant ctx.shouldStop == (old(ctx.shouldStop) || |ctx.moves| > ctx.moveLimit)
      invariant old(ctx.shouldStop) ==> ctx.moves == old(ctx.moves) && solved
      invariant solved == (ctx.shouldStop || Solved(ctx.graph.values))
      decreases if solved then 0 else ctx.moveLimit + 1 - |ctx.moves|
    {
      var poorestNode := PoorestNode(ctx.graph.values);
      solved := Advance(ctx, Take, poorestNode, v0, m0, adj);
    }
  }

  /** The GiveRichest solve loop; the total is kept throughout. */
  method GiveRichest(ctx: SolverContext)
    requires ctx.Valid() && |ctx.graph.values| <= NullNode
    modifies ctx, ctx.graph
    ensures ctx.Valid() && ctx.graph == old(ctx.graph) && ctx.start == old(ctx.start)
    ensures ctx.moveLimit == old(ctx.moveLimit)
    ensures ctx.graph.connections == old(ctx.graph.connections) && ctx.graph.buffer == old(ctx.graph.buffer)
    ensures ctx.shouldStop || Solved(ctx.graph.values)
    ensures ctx.shouldStop == (old(ctx.shouldStop) || |ctx.moves| > ctx.moveLimit)
    ensures old(ctx.shouldStop) ==> ctx.moves == old(ctx.moves)
    ensures |old(ctx.moves)| <= |ctx.moves| <= MoveBound(|old(ctx.moves)|, ctx.moveLimit)
    ensures ctx.moves[..|old(ctx.moves)|] == old(ctx.moves)
    ensures GreedyTrace(Give, old(ctx.graph.values), ctx.graph.Adj(), ctx.moves[|old(ctx.moves)|..])
    ensures ctx.graph.values == Replay(old(ctx.graph.values), ctx.graph.Adj(), ctx.moves[|old(ctx.moves)|..])
    ensures Sum(ctx.graph.values) == Sum(old(ctx.graph.values))
  {
    ghost var v0, m0, adj := ctx.graph.values, ctx.moves, ctx.graph.Adj();
    assert ctx.moves[|m0|..] == [];
    var solved := ctx.IsSolved();
    while !solved
      invariant Running(ctx, Give, v0, m0, adj)
      invariant ctx.graph == old(ctx.graph) && ctx.start == old(ctx.start) && ctx.moveLimit == old(ctx.moveLimit)
      invariant ctx.graph.connections == old(ctx.graph.connections) && ctx.graph.buffer == old(ctx.graph.buffer)
      invariant ctx.shouldStop == (old(ctx.shouldStop) || |ctx.moves| > ctx.moveLimit)
      invariant old(ctx.shouldStop) ==> ctx.moves == old(ctx.moves) && solved
      invariant solved == (ctx.shouldStop || Solved(ctx.graph.values))
      decreases if solved then 0 else ctx.moveLimit + 1 - |ctx.moves|
    {
      var richestNode := RichestNode(ctx.graph.values);
      solved := Advance(ctx, Give, richestNode, v0, m0, adj);
    }
    ReplayConservesSum(v0, adj, ctx.moves[|m0|..]);
  }
}
