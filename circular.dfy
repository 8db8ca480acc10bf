/**
 * The Circular generator (src/generators/CircularGenerator.cpp): a path
 * 0-1-...-(n-1) closed by the edge (n-1, 0).
 */
module Circular {
  import opened Edges
  import opened EdgeSets
  import opened Firing
  import opened Adjacency
  import opened Graphs
  import opened GeneratorCommon

  /** The edge from node `i` to node `i + 1`. */
  function Link(i: nat): (e: Edge)
    ensures e == Edge(i, i + 1)
  {
    Edge(i, i + 1)
  }

  /** The edges (lo, lo+1), (lo+1, lo+2), ... of a path with `m` edges. */
  function PathFrom(lo: nat, m: nat): (p: seq<Edge>)
    ensures |p| == m
    ensures forall j :: 0 <= j < m ==> p[j] == Link(lo + j)
  {
    seq(m, j requires 0 <= j => Link(lo + j))
  }

  /** The set the generator builds, in its iteration order: for three or more
      nodes the closing edge (n-1, 0) sorts right after (0, 1); for two nodes it
      coincides with (0, 1); a single node gets the self-loop (0, 0). */
  function Cycle(n: nat): seq<Edge>
    requires n >= 1
  {
    if n == 1 then [Edge(0, 0)]
    else if n == 2 then [Edge(0, 1)]
    else [Edge(0, 1), Edge(n - 1, 0)] + PathFrom(1, n - 2)
  }

  /** The next link is greater than every link of the path, and extends it. */
  lemma PathGrow(lo: nat, m: nat)
    ensures forall j :: 0 <= j < m ==> Less(PathFrom(lo, m)[j], Link(lo + m))
    ensures PathFrom(lo, m) + [Link(lo + m)] == PathFrom(lo, m + 1)
  {
  }

  lemma PathSorted(lo: nat, m: nat)
    ensures Sorted(PathFrom(lo, m))
  {
  }

  /** Node degrees on a path: one per edge starting at the node, one per edge ending there. */
  lemma {:induction false} PathDegree(lo: nat, m: nat, i: nat)
    ensures Degree(PathFrom(lo, m), i) ==
            (if lo <= i < lo + m then 1 else 0) + (if lo < i <= lo + m then 1 else 0)
  {
    if m > 0 {
      assert PathFrom(lo, m)[..m - 1] == PathFrom(lo, m - 1);
      PathDegree(lo, m - 1, i);
    }
  }

  /** Closing the path with (n-1, 0) yields `Cycle(n)`. */
  lemma CloseCycle(n: nat)
    requires n >= 1
    ensures Insert(PathFrom(0, n - 1), Edge(n - 1, 0)) == Cycle(n)
  {
    var e := Edge(n - 1, 0);
    var p := PathFrom(0, n - 1);
    if n == 1 {
      assert p == [];
    } else if n == 2 {
      assert p == [Edge(0, 1)];
      assert p[1..] == [];
    } else {
      assert p[0] == Edge(0, 1) && Less(p[0], e);
      assert p[1..] == PathFrom(1, n - 2);
      assert p[1..][0] == Edge(1, 2) && Less(e, p[1..][0]);
      assert Insert(p[1..], e) == [e] + p[1..];
      assert Insert(p, e) == [p[0]] + Insert(p[1..], e);
    }
  }

  lemma CycleSorted(n: nat)
    requires n >= 1
    ensures Sorted(Cycle(n))
  {
    PathSorted(0, n - 1);
    InsertSorted(PathFrom(0, n - 1), Edge(n - 1, 0));
    CloseCycle(n);
  }

  /** The undirected edges of a cycle: {i, i+1} for i < n-1, and {n-1, 0}. */
  ghost function CycleKeys(n: nat): set<(nat, nat)>
    requires n >= 1
  {
    {Key(Edge(n - 1, 0))} + set i | 0 <= i < n - 1 :: Key(Link(i))
  }

  /** For three or more nodes the cycle has n edges. */
  lemma CycleSize(n: nat)
    requires n >= 3
    ensures |Cycle(n)| == n
  {
  }

  /** The built set holds exactly the cycle's undirected edges. */
  lemma CycleEdges(n: nat)
    requires n >= 1
    ensures Keys(Cycle(n)) == CycleKeys(n)
  {
    var c := Cycle(n);
    forall k | k in Keys(c) ensures k in CycleKeys(n) {
      KeysMembership(c, k);
      var j :| 0 <= j < |c| && Key(c[j]) == k;
      if n >= 3 && j >= 2 {
        assert k == Key(Link(j - 1)) && 0 <= j - 1 < n - 1;
      } else if n >= 2 && j == 0 {
        assert k == Key(Link(0));
      }
    }
    forall k | k in CycleKeys(n) ensures k in Keys(c) {
      KeysMembership(c, k);
      if k != Key(Edge(n - 1, 0)) {
        var i :| 0 <= i < n - 1 && k == Key(Link(i));
        if i == 0 {
          assert Key(c[0]) == k;
        } else {
          assert Key(c[i + 1]) == k;
        }
      } else if n >= 3 {
        assert Key(c[1]) == k;
      } else {
        assert Key(c[0]) == k;
      }
    }
  }

  /** For three or more nodes every node has degree exactly 2. */
  lemma CycleDegree(n: nat, i: nat)
    requires n >= 3 && i < n
    ensures Degree(Cycle(n), i) == 2
  {
    var head := [Edge(0, 1), Edge(n - 1, 0)];
    NeighboursConcat(head, PathFrom(1, n - 2), i);
    NeighboursConcat([Edge(0, 1)], [Edge(n - 1, 0)], i);
    assert [Edge(0, 1)] + [Edge(n - 1, 0)] == head;
    SingleNeighbours(Edge(0, 1), i);
    SingleNeighbours(Edge(n - 1, 0), i);
    PathDegree(1, n - 2, i);
  }

  /** For two nodes the closing edge collapses onto (0, 1). */
  lemma TwoNodeCycle()
    ensures Cycle(2) == [Edge(0, 1)] && Equivalent(Edge(1, 0), Edge(0, 1))
  {
  }

  lemma CycleEndpoints(n: nat)
    requires n >= 1
    ensures EndpointsBelow(Cycle(n), n)
  {
  }

  /** The genus of a cycle of three or more nodes is 1. */
  lemma CycleGenus(values: seq<int>)
    requires |values| >= 3
    ensures Solvable(values, NeighbourLists(|values|, Cycle(|values|))) <==> Sum(values) >= 1
  {
    var n := |values|;
    var c := Cycle(n);
    CycleSorted(n);
    CycleSize(n);
    CycleEndpoints(n);
    InitGenus(values, c);
    assert |c| - n + 1 == 1;
  }

  /** A 4-cycle whose values add up to 1 is solvable; one adding up to 0 is not. */
  lemma FourCycleExamples()
    ensures Solvable([1, -1, 2, -1], NeighbourLists(4, Cycle(4)))
    ensures !Solvable([1, -1, 2, -2], NeighbourLists(4, Cycle(4)))
  {
    CycleGenus([1, -1, 2, -1]);
    CycleGenus([1, -1, 2, -2]);
    assert Sum([1, -1, 2, -1]) == 1 by {
      assert [1, -1, 2, -1][..3] == [1, -1, 2];
      assert [1, -1, 2][..2] == [1, -1];
      assert [1, -1][..1] == [1];
      assert [1][..0] == [];
    }
    assert Sum([1, -1, 2, -2]) == 0 by {
      assert [1, -1, 2, -2][..3] == [1, -1, 2];
      assert [1, -1, 2][..2] == [1, -1];
      assert [1, -1][..1] == [1];
      assert [1][..0] == [];
    }
  }

  /** The edge-building loops: the path edges in order, then the closing edge. */
  method BuildCycle(n: nat) returns (edges: seq<Edge>)
    requires 1 <= n <= NullNode
    ensures edges == Cycle(n)
    ensures Sorted(edges) && EndpointsBelow(edges, n)
  {
    edges := [];
    var nodeIt := 0;
    while nodeIt < n - 1
      invariant 0 <= nodeIt <= n - 1
      invariant edges == PathFrom(0, nodeIt)
    {
      var edge := Edge(nodeIt, nodeIt + 1);
      PathGrow(0, nodeIt);
      assert edge == Link(nodeIt);
      InsertGreatest(edges, edge);
      edges := Insert(edges, edge);
      nodeIt := nodeIt + 1;
    }
    CloseCycle(n);
    CycleSorted(n);
    CycleEndpoints(n);
    edges := Insert(edges, Edge(n - 1, 0));
  }

  /** `GENERATOR_generate`: draw the values, build the cycle, `init` once. */
  method Generate(g: Graph, params: GeneratorParams, draws: seq<int>)
    requires 1 <= params.size <= NullNode && DrawsFit(params, draws)
    modifies g
    ensures g.Valid() && g.Contiguous()
    ensures |g.values| == params.size && g.values == draws[..params.size]
    ensures forall k :: 0 <= k < |g.values| ==> params.minValue <= g.values[k] <= params.maxValue
    ensures g.Adj() == NeighbourLists(params.size, Cycle(params.size))
  {
    var values := DrawValues(params, draws);
    var edges := BuildCycle(params.size);
    g.Init(values, edges);
  }
}
