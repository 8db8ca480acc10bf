/**
 * `GraphSolver::solve` (src/Solver.cpp): the checks made before control
 * passes to the solver plugin.  The two `std::invalid_argument` exceptions
 * become the two `SolveError` values.
 */
module SolverHost {
  import opened Wrappers
  import opened Edges
  import opened Ranges
  import opened Graphs
  import opened Solving
  import opened Greedy

  datatype SolveError = DanglingNodes | Unsolvable

  /** The plugins this model can hand the context to. */
  datatype SolverPlugin = TakePoorestPlugin | GiveRichestPlugin

  /** The move each plugin plays. */
  function PluginMove(plugin: SolverPlugin): MoveType {
    match plugin
    case TakePoorestPlugin => Take
    case GiveRichestPlugin => Give
  }

  /** Some node's slice is empty. */
  predicate HasDanglingNode(connections: seq<Range>) {
    exists i :: 0 <= i < |connections| && connections[i].Empty()
  }

  /** A node is dangling exactly when its neighbour list is empty. */
  lemma DanglingIffEmptyList(g: Graph)
    requires g.Valid()
    ensures HasDanglingNode(g.connections) <==> exists i :: 0 <= i < |g.values| && g.Adj()[i] == []
  {
    var adj := g.Adj();
    if HasDanglingNode(g.connections) {
      var i :| 0 <= i < |g.connections| && g.connections[i].Empty();
      assert adj[i] == [];
    }
    if exists i :: 0 <= i < |g.values| && adj[i] == [] {
      var i :| 0 <= i < |g.values| && adj[i] == [];
      assert g.connections[i].Empty();
    }
  }

  /** The two checks of `solve`, dangling nodes first. */
  method Validate(ctx: SolverContext) returns (o: Outcome<SolveError>)
    requires ctx.Valid()
    ensures o == Fail(DanglingNodes) <==> HasDanglingNode(ctx.graph.connections)
    ensures o == Fail(Unsolvable) <==>
              !HasDanglingNode(ctx.graph.connections) && !Solvable(ctx.graph.values, ctx.graph.Adj())
    ensures o == Pass <==>
              !HasDanglingNode(ctx.graph.connections) && Solvable(ctx.graph.values, ctx.graph.Adj())
  {
    if HasDanglingNode(ctx.graph.connections) {
      return Fail(DanglingNodes);
    }
    var solvable := ctx.IsSolvable();
    if !solvable {
      return Fail(Unsolvable);
    }
    return Pass;
  }

  /** `solve`: validate, then run the plugin; a rejected context is left as it was. */
  method Solve(ctx: SolverContext, plugin: SolverPlugin) returns (o: Outcome<SolveError>)
    requires ctx.Valid() && |ctx.graph.values| <= NullNode
    modifies ctx, ctx.graph
    ensures ctx.Valid() && ctx.graph == old(ctx.graph) && ctx.start == old(ctx.start)
    ensures ctx.moveLimit == old(ctx.moveLimit)
    ensures ctx.graph.connections == old(ctx.graph.connections) && ctx.graph.buffer == old(ctx.graph.buffer)
    ensures ctx.graph.Adj() == old(ctx.graph.Adj())
    ensures o.Fail? ==> unchanged(ctx) && unchanged(ctx.graph)
    ensures o == Fail(DanglingNodes) <==> HasDanglingNode(old(ctx.graph.connections))
    ensures o == Fail(Unsolvable) <==>
              !HasDanglingNode(old(ctx.graph.connections)) && !Solvable(old(ctx.graph.values), old(ctx.graph.Adj()))
    ensures o == Pass ==> ctx.shouldStop || Solved(ctx.graph.values)
    ensures o == Pass ==> ctx.shouldStop == (old(ctx.shouldStop) || |ctx.moves| > ctx.moveLimit)
    ensures o == Pass && old(ctx.shouldStop) ==> ctx.moves == old(ctx.moves)
    ensures o == Pass ==> |old(ctx.moves)| <= |ctx.moves| && ctx.moves[..|old(ctx.moves)|] == old(ctx.moves)
                          && |ctx.moves| <= MoveBound(|old(ctx.moves)|, ctx.moveLimit)
    ensures o == Pass ==>
              && GreedyTrace(PluginMove(plugin), old(ctx.graph.values), ctx.graph.Adj(), ctx.moves[|old(ctx.moves)|..])
              && ctx.graph.values == Replay(old(ctx.graph.values), ctx.graph.Adj(), ctx.moves[|old(ctx.moves)|..])
  {
    o := Validate(ctx);
    if o == Pass {
      match plugin {
        case TakePoorestPlugin => TakePoorest(ctx);
        case GiveRichestPlugin => GiveRichest(ctx);
      }
    }
  }
}
