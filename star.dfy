/**
 * The Star generator (src/generators/StarGenerator.cpp): node 0 is the hub,
 * joined to every other node.
 */
module Star {
  import opened Edges
  import opened EdgeSets
  import opened Firing
  import opened Adjacency
  import opened Graphs
  import opened GeneratorCommon

  /** The edge from the hub to node `i`. */
  function Spoke(i: nat): (e: Edge)
    ensures e == Edge(0, i)
  {
    Edge(0, i)
  }

  /** The spokes to nodes 1 .. m-1, in the set's iteration order. */
  function Spokes(m: nat): (s: seq<Edge>)
    ensures |s| == if m == 0 then 0 else m - 1
    ensures forall j :: 0 <= j < |s| ==> s[j] == Spoke(j + 1)
  {
    if m == 0 then [] else seq(m - 1, j requires 0 <= j => Spoke(j + 1))
  }

  /** The next spoke is greater than every earlier one, and extends the star. */
  lemma SpokesGrow(m: nat)
    requires m >= 1
    ensures forall j :: 0 <= j < |Spokes(m)| ==> Less(Spokes(m)[j], Spoke(m))
    ensures Spokes(m) + [Spoke(m)] == Spokes(m + 1)
  {
  }

  lemma SpokesShape(n: nat)
    ensures Sorted(Spokes(n)) && EndpointsBelow(Spokes(n), n) && NoSelfLoops(Spokes(n))
  {
  }

  /** The hub has degree n-1, every other node degree 1. */
  lemma {:induction false} SpokesDegree(n: nat, i: nat)
    requires n >= 1
    ensures Degree(Spokes(n), i) == if i == 0 then n - 1 else if i < n then 1 else 0
  {
    if n > 1 {
      assert Spokes(n)[..n - 2] == Spokes(n - 1);
      SpokesDegree(n - 1, i);
    }
  }

  /** With two or more nodes no node is left without a neighbour. */
  lemma NoDanglingNode(n: nat, i: nat)
    requires n >= 2 && i < n
    ensures Degree(Spokes(n), i) >= 1
  {
    SpokesDegree(n, i);
  }

  /** The genus of a star is 0: it is solvable exactly when the total is not negative. */
  lemma StarGenus(values: seq<int>)
    requires |values| >= 1
    ensures Solvable(values, NeighbourLists(|values|, Spokes(|values|))) <==> Sum(values) >= 0
  {
    SpokesShape(|values|);
    InitGenus(values, Spokes(|values|));
  }

  /** The edge-building loop: one spoke per node after the hub. */
  method BuildStar(n: nat) returns (edges: seq<Edge>)
    requires n <= NullNode
    ensures edges == Spokes(n)
    ensures Sorted(edges) && EndpointsBelow(edges, n)
  {
    edges := [];
    var nodeIt := 1;
    while nodeIt < n
      invariant 1 <= nodeIt <= if n == 0 then 1 else n
      invariant edges == Spokes(nodeIt)
    {
      var edge := Spoke(nodeIt);
      SpokesGrow(nodeIt);
      InsertGreatest(edges, edge);
      edges := Insert(edges, edge);
      nodeIt := nodeIt + 1;
    }
    if n == 0 {
      assert Spokes(1) == [] == Spokes(0);
    }
    SpokesShape(n);
  }

  /** `GENERATOR_generate`: draw the values, build the star, `init` once. */
  method Generate(g: Graph, params: GeneratorParams, draws: seq<int>)
    requires params.size <= NullNode && DrawsFit(params, draws)
    modifies g
    ensures g.Valid() && g.Contiguous()
    ensures |g.values| == params.size && g.values == draws[..params.size]
    ensures forall k :: 0 <= k < |g.values| ==> params.minValue <= g.values[k] <= params.maxValue
    ensures g.Adj() == NeighbourLists(params.size, Spokes(params.size))
  {
    var values := DrawValues(params, draws);
    var edges := BuildStar(params.size);
    g.Init(values, edges);
  }
}
