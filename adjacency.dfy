/**
 * What `Graph::init` (src/Graph.cpp) computes from an edge sequence, stated
 * as functions: the neighbour list of every node, node degrees, and the set
 * of distinct undirected edges that `Graph::isSolvable` rebuilds from the
 * neighbour lists.
 */
module Adjacency {
  import opened Edges
  import opened EdgeSets
  import opened Firing

  /** Every endpoint names one of the `n` nodes. */
  ghost predicate EndpointsBelow(edges: seq<Edge>, n: nat) {
    forall j :: 0 <= j < |edges| ==> edges[j].a < n && edges[j].b < n
  }

  /** The entries one edge adds to node `i`'s list: `init` first writes `b` into
      the slot of `a`, then `a` into the slot of `b`. */
  function Contribution(e: Edge, i: nat): seq<nat> {
    (if e.a == i then [e.b] else []) + (if e.b == i then [e.a] else [])
  }

  /** Node `i`'s neighbour list after processing `edges` in iteration order. */
  ghost function NeighboursOf(edges: seq<Edge>, i: nat): seq<nat> {
    if |edges| == 0 then []
    else NeighboursOf(edges[..|edges| - 1], i) + Contribution(edges[|edges| - 1], i)
  }

  ghost function Degree(edges: seq<Edge>, i: nat): nat {
    |NeighboursOf(edges, i)|
  }

  /** The neighbour lists of nodes 0 .. n-1. */
  ghost function NeighbourLists(n: nat, edges: seq<Edge>): seq<seq<nat>> {
    seq(n, i requires 0 <= i => NeighboursOf(edges, i))
  }

  /** Every neighbour list stays within the `n` nodes. */
  ghost predicate WellFormed(adj: seq<seq<nat>>) {
    forall i :: 0 <= i < |adj| ==> AllBelow(adj[i], |adj|)
  }

  function Zeros(n: nat): (z: seq<int>)
    ensures |z| == n && Sum(z) == 0
  {
    if n == 0 then [] else
      var z := Zeros(n - 1) + [0];
      assert z[..n - 1] == Zeros(n - 1);
      z
  }

  /** The `connectionCount` vector after counting the endpoints of `edges`. */
  ghost function DegreeCounts(edges: seq<Edge>, n: nat): (c: seq<int>)
    requires EndpointsBelow(edges, n)
    ensures |c| == n
  {
    if |edges| == 0 then Zeros(n)
    else
      var e := edges[|edges| - 1];
      AddEach(DegreeCounts(edges[..|edges| - 1], n), [e.a, e.b], 1)
  }

  lemma {:induction false} ZerosAt(n: nat, i: nat)
    requires i < n
    ensures Zeros(n)[i] == 0
  {
    if i < n - 1 { ZerosAt(n - 1, i); }
  }

  /** The counting loop computes every degree. */
  lemma {:induction false} DegreeCountsAt(edges: seq<Edge>, n: nat, i: nat)
    requires EndpointsBelow(edges, n) && i < n
    ensures DegreeCounts(edges, n)[i] == Degree(edges, i)
  {
    if |edges| == 0 {
      ZerosAt(n, i);
    } else {
      var m := |edges| - 1;
      var e := edges[m];
      DegreeCountsAt(edges[..m], n, i);
      AddEachAt(DegreeCounts(edges[..m], n), [e.a, e.b], 1, i);
      var ab: seq<nat> := [e.a, e.b];
      assert ab[..1] == [e.a] && [e.a][..0] == [];
      assert Count([e.a], i) == Count([], i) + (if e.a == i then 1 else 0);
      assert Count(ab, i) == Count([e.a], i) + (if e.b == i then 1 else 0);
      assert Count([e.a, e.b], i) == (if e.a == i then 1 else 0) + (if e.b == i then 1 else 0);
      assert Degree(edges, i) == Degree(edges[..m], i) + |Contribution(e, i)|;
    }
  }

  /** Counting one more edge bumps the counters of its two endpoints. */
  lemma DegreeCountsStep(edges: seq<Edge>, n: nat, k: nat)
    requires EndpointsBelow(edges, n) && k < |edges|
    ensures var c, e := DegreeCounts(edges[..k], n), edges[k];
            DegreeCounts(edges[..k + 1], n) == c[e.a := c[e.a] + 1][e.b := c[e.a := c[e.a] + 1][e.b] + 1]
  {
    var c, e := DegreeCounts(edges[..k], n), edges[k];
    assert edges[..k + 1][..k] == edges[..k];
    var ab: seq<nat> := [e.a, e.b];
    assert ab[..1] == [e.a] && [e.a][..0] == [];
    assert AddEach(c, [e.a], 1) == c[e.a := c[e.a] + 1];
  }

  /** The degrees add up to twice the number of edges. */
  lemma {:induction false} DegreeCountsSum(edges: seq<Edge>, n: nat)
    requires EndpointsBelow(edges, n)
    ensures Sum(DegreeCounts(edges, n)) == 2 * |edges|
  {
    if |edges| > 0 {
      var m := |edges| - 1;
      var e := edges[m];
      DegreeCountsSum(edges[..m], n);
      AddEachSum(DegreeCounts(edges[..m], n), [e.a, e.b], 1);
    }
  }

  lemma {:induction false} NeighboursConcat(e1: seq<Edge>, e2: seq<Edge>, i: nat)
    ensures NeighboursOf(e1 + e2, i) == NeighboursOf(e1, i) + NeighboursOf(e2, i)
  {
    if |e2| > 0 {
      var m := |e2| - 1;
      NeighboursConcat(e1, e2[..m], i);
      assert (e1 + e2)[..|e1 + e2| - 1] == e1 + e2[..m];
    } else {
      assert e1 + e2 == e1;
    }
  }

  lemma SingleNeighbours(e: Edge, i: nat)
    ensures NeighboursOf([e], i) == Contribution(e, i)
  {
    assert [e][..0] == [];
  }

  /** Splicing an edge into a sequence adds its contribution to each list's length. */
  lemma DegreeSplice(s: seq<Edge>, e: Edge, p: nat, i: nat)
    requires p <= |s|
    ensures Degree(s[..p] + [e] + s[p..], i) == Degree(s, i) + |Contribution(e, i)|
  {
    var front, back := s[..p], s[p..];
    NeighboursConcat(front + [e], back, i);
    NeighboursConcat(front, [e], i);
    NeighboursConcat(front, back, i);
    SingleNeighbours(e, i);
    assert front + back == s;
  }

  /** `std::set::insert` adds one edge's worth of entries to each list when the
      edge is new, and nothing otherwise. */
  lemma InsertDegree(s: seq<Edge>, e: Edge, i: nat)
    requires Sorted(s)
    ensures Degree(Insert(s, e), i) == Degree(s, i) + if Contains(s, e) then 0 else |Contribution(e, i)|
  {
    InsertSize(s, e);
    var r := Insert(s, e);
    if !Contains(s, e) {
      var p :| 0 <= p <= |s| && r == s[..p] + [e] + s[p..];
      DegreeSplice(s, e, p, i);
    }
  }

  /** A neighbour entry is the other end of some edge touching the node. */
  lemma {:induction false} NeighbourMembership(edges: seq<Edge>, i: nat, y: nat)
    ensures y in NeighboursOf(edges, i) <==>
              exists j :: 0 <= j < |edges| && ((edges[j].a == i && edges[j].b == y) || (edges[j].b == i && edges[j].a == y))
  {
    if |edges| > 0 {
      var m := |edges| - 1;
      NeighbourMembership(edges[..m], i, y);
      if exists j :: 0 <= j < |edges| && ((edges[j].a == i && edges[j].b == y) || (edges[j].b == i && edges[j].a == y)) {
        var j :| 0 <= j < |edges| && ((edges[j].a == i && edges[j].b == y) || (edges[j].b == i && edges[j].a == y));
        if j < m { assert edges[..m][j] == edges[j]; }
      }
      if exists j :: 0 <= j < m && ((edges[..m][j].a == i && edges[..m][j].b == y) || (edges[..m][j].b == i && edges[..m][j].a == y)) {
        var j :| 0 <= j < m && ((edges[..m][j].a == i && edges[..m][j].b == y) || (edges[..m][j].b == i && edges[..m][j].a == y));
        assert edges[j] == edges[..m][j];
      }
    }
  }

  lemma {:induction false} NeighboursBelow(edges: seq<Edge>, n: nat, i: nat)
    requires EndpointsBelow(edges, n)
    ensures AllBelow(NeighboursOf(edges, i), n)
  {
    if |edges| > 0 {
      var m := |edges| - 1;
      assert EndpointsBelow(edges[..m], n);
      NeighboursBelow(edges[..m], n, i);
    }
  }

  lemma AdjacencyWellFormed(n: nat, edges: seq<Edge>)
    requires EndpointsBelow(edges, n)
    ensures WellFormed(NeighbourLists(n, edges))
  {
    forall i | 0 <= i < n ensures AllBelow(NeighbourLists(n, edges)[i], n) {
      NeighboursBelow(edges, n, i);
    }
  }

  // ----- the distinct undirected edges read back from neighbour lists -----

  /** The unordered pairs {i, row[q]} for the entries of one neighbour list. */
  ghost function RowKeys(i: nat, row: seq<nat>): set<(nat, nat)> {
    if |row| == 0 then {} else RowKeys(i, row[..|row| - 1]) + {Key(Edge(i, row[|row| - 1]))}
  }

  /** The unordered pairs read from the lists of nodes 0 .. m-1. */
  ghost function PairKeys(adj: seq<seq<nat>>, m: nat): set<(nat, nat)>
    requires m <= |adj|
  {
    if m == 0 then {} else PairKeys(adj, m - 1) + RowKeys(m - 1, adj[m - 1])
  }

  /** The distinct undirected edges of a graph given by its neighbour lists. */
  ghost function DistinctEdges(adj: seq<seq<nat>>): set<(nat, nat)> {
    PairKeys(adj, |adj|)
  }

  lemma {:induction false} RowKeysMembership(i: nat, row: seq<nat>, k: (nat, nat))
    ensures k in RowKeys(i, row) <==> exists q :: 0 <= q < |row| && k == Key(Edge(i, row[q]))
  {
    if |row| > 0 {
      var m := |row| - 1;
      RowKeysMembership(i, row[..m], k);
      if exists q :: 0 <= q < |row| && k == Key(Edge(i, row[q])) {
        var q :| 0 <= q < |row| && k == Key(Edge(i, row[q]));
        if q < m { assert row[..m][q] == row[q]; }
      }
      if exists q :: 0 <= q < m && k == Key(Edge(i, row[..m][q])) {
        var q :| 0 <= q < m && k == Key(Edge(i, row[..m][q]));
        assert row[q] == row[..m][q];
      }
    }
  }

  lemma RowKeysStep(i: nat, row: seq<nat>, q: nat)
    requires q < |row|
    ensures RowKeys(i, row[..q + 1]) == RowKeys(i, row[..q]) + {Key(Edge(i, row[q]))}
  {
    assert row[..q + 1][..q] == row[..q];
  }

  lemma {:induction false} PairKeysMembership(adj: seq<seq<nat>>, m: nat, k: (nat, nat))
    requires m <= |adj|
    ensures k in PairKeys(adj, m) <==>
              exists j, q :: 0 <= j < m && 0 <= q < |adj[j]| && k == Key(Edge(j, adj[j][q]))
  {
    if m > 0 {
      PairKeysMembership(adj, m - 1, k);
      RowKeysMembership(m - 1, adj[m - 1], k);
    }
  }

  /** Reading the edges back from the lists that `init` builds yields exactly
      the unordered pairs of the input edges. */
  lemma DistinctEdgesOfAdjacency(n: nat, edges: seq<Edge>)
    requires EndpointsBelow(edges, n)
    ensures DistinctEdges(NeighbourLists(n, edges)) == Keys(edges)
  {
    var adj := NeighbourLists(n, edges);
    forall k | k in DistinctEdges(adj) ensures k in Keys(edges) {
      PairKeysMembership(adj, n, k);
      var j, q :| 0 <= j < n && 0 <= q < |adj[j]| && k == Key(Edge(j, adj[j][q]));
      var y := adj[j][q];
      assert y in NeighboursOf(edges, j);
      NeighbourMembership(edges, j, y);
      var t :| 0 <= t < |edges| && ((edges[t].a == j && edges[t].b == y) || (edges[t].b == j && edges[t].a == y));
      assert Key(edges[t]) == k;
      KeysMembership(edges, k);
    }
    forall k | k in Keys(edges) ensures k in DistinctEdges(adj) {
      KeysMembership(edges, k);
      var t :| 0 <= t < |edges| && Key(edges[t]) == k;
      var a, b := edges[t].a, edges[t].b;
      NeighbourMembership(edges, a, b);
      var row := NeighboursOf(edges, a);
      assert b in row;
      var q :| 0 <= q < |row| && row[q] == b;
      assert adj[a] == row;
      assert k == Key(Edge(a, adj[a][q]));
      PairKeysMembership(adj, n, k);
    }
  }

  /** For an ordered edge set, the edges read back are as many as the set holds. */
  lemma EdgeCountOfAdjacency(n: nat, edges: seq<Edge>)
    requires EndpointsBelow(edges, n) && Sorted(edges)
    ensures |DistinctEdges(NeighbourLists(n, edges))| == |edges|
  {
    DistinctEdgesOfAdjacency(n, edges);
    SortedSizeIsKeyCount(edges);
  }
}
