/**
 * The Uniform generator (src/generators/UniformGenerator.cpp): every node
 * adds two edges not yet in the set, each to the node a random offset in
 * [1, n-1] further round the ring.  The offsets are supplied; the source
 * retries until it finds fresh edges, and the model stops with `None` when
 * the supplied offsets run out first.
 */
module Uniform {
  import opened Wrappers
  import opened Edges
  import opened EdgeSets
  import opened Firing
  import opened Adjacency
  import opened Graphs
  import opened GeneratorCommon

  /** Every offset lies in the range of `connDist`, [1, n-1], where n-1 is
      computed in 32 bits and so is `NullNode` for n = 0. */
  predicate OffsetsFit(n: nat, offsets: seq<nat>) {
    forall k :: 0 <= k < |offsets| ==> 1 <= offsets[k] <= if n == 0 then NullNode else n - 1
  }

  /** Stepping a positive offset smaller than n round the ring never lands
      back on the starting node. */
  lemma OffsetMovesAway(n: nat, node: nat, offset: nat)
    requires node < n && 1 <= offset <= n - 1
    ensures (node + offset) % n < n && (node + offset) % n != node
  {
    if node + offset >= n {
      assert (node + offset) % n == node + offset - n by {
        assert node + offset == n + (node + offset - n);
      }
    }
  }

  /** The set invariant of the loops: ordered, no self-loops, endpoints in range. */
  ghost predicate EdgeSetShape(edges: seq<Edge>, n: nat) {
    Sorted(edges) && NoSelfLoops(edges) && EndpointsBelow(edges, n)
  }

  /** Inserting an edge between two different nodes keeps the shape, grows the
      set by one exactly when the edge is new, and never lowers a degree. */
  lemma InsertKeepsShape(edges: seq<Edge>, n: nat, e: Edge)
    requires EdgeSetShape(edges, n) && e.a < n && e.b < n && e.a != e.b
    ensures EdgeSetShape(Insert(edges, e), n)
    ensures |Insert(edges, e)| == if Contains(edges, e) then |edges| else |edges| + 1
    ensures forall j :: Degree(Insert(edges, e), j) >= Degree(edges, j)
    ensures !Contains(edges, e) ==> Degree(Insert(edges, e), e.a) == Degree(edges, e.a) + 1
  {
    var r := Insert(edges, e);
    InsertSorted(edges, e);
    InsertElements(edges, e);
    InsertSize(edges, e);
    forall i | 0 <= i < |r| ensures r[i].a != r[i].b && r[i].a < n && r[i].b < n {
      assert r[i] in r;
      if r[i] != e {
        var j :| 0 <= j < |edges| && edges[j] == r[i];
      }
    }
    forall j ensures Degree(Insert(edges, e), j) >= Degree(edges, j) {
      InsertDegree(edges, e, j);
    }
    InsertDegree(edges, e, e.a);
  }

  /** `e` joins a node to the node one of the first `used` offsets reaches from it. */
  ghost predicate Reached(n: nat, offsets: seq<nat>, used: nat, e: Edge) {
    e.a < n && exists k :: 0 <= k < used && k < |offsets| && e.b == (e.a + offsets[k]) % n
  }

  /** Consuming more offsets keeps every edge reached. */
  lemma ReachedGrow(n: nat, offsets: seq<nat>, used: nat, more: nat, e: Edge)
    requires Reached(n, offsets, used, e) && used <= more
    ensures Reached(n, offsets, more, e)
  {
    var k :| 0 <= k < used && k < |offsets| && e.b == (e.a + offsets[k]) % n;
    assert 0 <= k < more;
  }

  /** Inserting a reached edge into a set of reached edges leaves only reached edges. */
  lemma InsertReached(edges: seq<Edge>, n: nat, offsets: seq<nat>, used: nat, e: Edge)
    requires forall i :: 0 <= i < |edges| ==> Reached(n, offsets, used, edges[i])
    requires Reached(n, offsets, used + 1, e)
    ensures forall i :: 0 <= i < |Insert(edges, e)| ==> Reached(n, offsets, used + 1, Insert(edges, e)[i])
  {
    var r := Insert(edges, e);
    InsertElements(edges, e);
    forall i | 0 <= i < |r| ensures Reached(n, offsets, used + 1, r[i]) {
      assert r[i] in r;
      if r[i] != e {
        var j :| 0 <= j < |edges| && edges[j] == r[i];
        ReachedGrow(n, offsets, used, used + 1, edges[j]);
      }
    }
  }

  /** Every edge of the set is reached by one of the first `used` offsets. */
  ghost predicate AllReached(n: nat, offsets: seq<nat>, used: nat, edges: seq<Edge>) {
    forall q :: 0 <= q < |edges| ==> Reached(n, offsets, used, edges[q])
  }

  /** What the loops keep: the set's shape, two new edges per finished node
      and `i` for the current one. */
  ghost predicate Progress(n: nat, nodeIt: nat, i: nat, edges: seq<Edge>) {
    && EdgeSetShape(edges, n) && |edges| == 2 * nodeIt + i
    && (forall j :: 0 <= j < nodeIt ==> Degree(edges, j) >= 2)
    && (nodeIt < n ==> Degree(edges, nodeIt) >= i)
  }

  /** The invariant of both loops once `next` offsets are drawn. */
  ghost predicate Building(n: nat, offsets: seq<nat>, nodeIt: nat, i: nat, next: nat, edges: seq<Edge>) {
    && n <= 0x8000_0000 && OffsetsFit(n, offsets)
    && Progress(n, nodeIt, i, edges) && AllReached(n, offsets, next, edges)
    && 2 * nodeIt + i <= next
  }

  /** What a completed build promises: an ordered, loop-free set in range
      with exactly 2n edges, degree at least 2 everywhere, every edge reached
      by a supplied offset, and at least 2n offsets supplied. */
  ghost predicate Completed(n: nat, offsets: seq<nat>, edges: seq<Edge>) {
    && EdgeSetShape(edges, n) && |edges| == 2 * n
    && (forall j :: 0 <= j < n ==> Degree(edges, j) >= 2)
    && AllReached(n, offsets, |offsets|, edges)
    && 2 * n <= |offsets|
  }

  /** One attempt of the inner loop keeps `Progress`. */
  lemma AttemptProgress(n: nat, offsets: seq<nat>, nodeIt: nat, i: nat, next: nat, edges: seq<Edge>)
    requires n <= 0x8000_0000 && OffsetsFit(n, offsets)
    requires nodeIt < n && i < 2 && next < |offsets| && Progress(n, nodeIt, i, edges)
    ensures var e := Edge(nodeIt, (nodeIt + offsets[next]) % n);
            Progress(n, nodeIt, if Contains(edges, e) then i else i + 1, Insert(edges, e))
  {
    OffsetMovesAway(n, nodeIt, offsets[next]);
    var e := Edge(nodeIt, (nodeIt + offsets[next]) % n);
    InsertKeepsShape(edges, n, e);
  }

  /** One attempt of the inner loop keeps every edge reached by a drawn offset. */
  lemma AttemptReached(n: nat, offsets: seq<nat>, nodeIt: nat, next: nat, edges: seq<Edge>)
    requires nodeIt < n && next < |offsets| && AllReached(n, offsets, next, edges)
    ensures AllReached(n, offsets, next + 1, Insert(edges, Edge(nodeIt, (nodeIt + offsets[next]) % n)))
  {
    var e := Edge(nodeIt, (nodeIt + offsets[next]) % n);
    assert Reached(n, offsets, next + 1, e) by {
      assert 0 <= next < next + 1 && e.b == (e.a + offsets[next]) % n;
    }
    InsertReached(edges, n, offsets, next, e);
  }

  /** A node with two new edges hands `Building` on to the next node. */
  lemma NextNodeBuilding(n: nat, offsets: seq<nat>, nodeIt: nat, next: nat, edges: seq<Edge>)
    requires nodeIt < n
    ensures Building(n, offsets, nodeIt, 2, next, edges) ==> Building(n, offsets, nodeIt + 1, 0, next, edges)
  {
    if Building(n, offsets, nodeIt, 2, next, edges) {
      assert forall j :: 0 <= j < nodeIt + 1 ==> Degree(edges, j) >= 2;
    }
  }

  /** One attempt of the inner loop keeps `Building`. */
  lemma AttemptBuilding(n: nat, offsets: seq<nat>, nodeIt: nat, i: nat, next: nat, edges: seq<Edge>)
    requires nodeIt < n && i < 2 && next < |offsets|
    ensures var e := Edge(nodeIt, (nodeIt + offsets[next]) % n);
            Building(n, offsets, nodeIt, i, next, edges) ==>
              Building(n, offsets, nodeIt, if Contains(edges, e) then i else i + 1, next + 1, Insert(edges, e))
  {
    if Building(n, offsets, nodeIt, i, next, edges) {
      AttemptProgress(n, offsets, nodeIt, i, next, edges);
      AttemptReached(n, offsets, nodeIt, next, edges);
    }
  }

  /** Once every node has its two edges, `Building` is `Completed`. */
  lemma DoneBuilding(n: nat, offsets: seq<nat>, next: nat, edges: seq<Edge>)
    requires next <= |offsets|
    ensures Building(n, offsets, n, 0, next, edges) ==> Completed(n, offsets, edges)
  {
    if Building(n, offsets, n, 0, next, edges) {
      forall q | 0 <= q < |edges| ensures Reached(n, offsets, |offsets|, edges[q]) {
        ReachedGrow(n, offsets, next, |offsets|, edges[q]);
      }
    }
  }

  /** The state of the two loops: node `nodeIt` has found `i` new edges so far
      and `next` offsets have been drawn. */
  predicate LoopState(n: nat, offsets: seq<nat>, nodeIt: nat, i: nat, next: nat) {
    nodeIt <= n && i <= 2 && next <= |offsets| && (nodeIt == n ==> i == 0)
  }

  /** The edge set the loops build from a state, drawing one offset per
      attempt; `None` once the offsets run out before every node has two new
      edges.  Started from a `Building` state, a completed set is `Completed`. */
  function UniformFrom(n: nat, offsets: seq<nat>, nodeIt: nat, i: nat, next: nat, edges: seq<Edge>): (r: Option<seq<Edge>>)
    requires LoopState(n, offsets, nodeIt, i, next)
    ensures r.Some? && Building(n, offsets, nodeIt, i, next, edges) ==> Completed(n, offsets, r.value)
    decreases |offsets| - next, n - nodeIt, 2 - i
  {
    if nodeIt == n then
      DoneBuilding(n, offsets, next, edges);
      Some(edges)
    else if i == 2 then
      NextNodeBuilding(n, offsets, nodeIt, next, edges);
      UniformFrom(n, offsets, nodeIt + 1, 0, next, edges)
    else if next == |offsets| then None
    else
      var e := Edge(nodeIt, (nodeIt + offsets[next]) % n);
      AttemptBuilding(n, offsets, nodeIt, i, next, edges);
      UniformFrom(n, offsets, nodeIt, if Contains(edges, e) then i else i + 1, next + 1, Insert(edges, e))
  }

  /** The edge set the generator builds from the offsets `offsets`. */
  function UniformEdges(n: nat, offsets: seq<nat>): (r: Option<seq<Edge>>)
    ensures r.Some? && n <= 0x8000_0000 && OffsetsFit(n, offsets) ==> Completed(n, offsets, r.value)
  {
    UniformFrom(n, offsets, 0, 0, 0, [])
  }

  /** Past the last node the build returns its set. */
  lemma UnfoldDone(n: nat, offsets: seq<nat>, next: nat, edges: seq<Edge>)
    requires LoopState(n, offsets, n, 0, next)
    ensures UniformFrom(n, offsets, n, 0, next, edges) == Some(edges)
  {
  }

  /** A node with two new edges hands the build on to the next node. */
  lemma UnfoldNextNode(n: nat, offsets: seq<nat>, nodeIt: nat, next: nat, edges: seq<Edge>)
    requires LoopState(n, offsets, nodeIt, 2, next) && nodeIt < n
    ensures UniformFrom(n, offsets, nodeIt, 2, next, edges) == UniformFrom(n, offsets, nodeIt + 1, 0, next, edges)
  {
  }

  /** One attempt of the inner loop, as `UniformFrom` takes it. */
  lemma UnfoldAttempt(n: nat, offsets: seq<nat>, nodeIt: nat, i: nat, next: nat, edges: seq<Edge>)
    requires LoopState(n, offsets, nodeIt, i, next) && nodeIt < n && i < 2 && next < |offsets|
    ensures var e := Edge(nodeIt, (nodeIt + offsets[next]) % n);
            UniformFrom(n, offsets, nodeIt, i, next, edges)
            == UniformFrom(n, offsets, nodeIt, if Contains(edges, e) then i else i + 1, next + 1, Insert(edges, e))
  {
  }

  /** A size-0 build succeeds at once with no edges. */
  lemma EmptyUniform(offsets: seq<nat>)
    ensures UniformEdges(0, offsets) == Some([])
  {
  }

  /** The inner loop for node `nodeIt`: draw offsets until `insert` has
      reported two new edges, or stop with `done` false once they run out. */
  method AddNodeEdges(n: nat, offsets: seq<nat>, nodeIt: nat, next0: nat, edges0: seq<Edge>)
    returns (done: bool, next: nat, edges: seq<Edge>)
    requires nodeIt < n && next0 <= |offsets|
    ensures LoopState(n, offsets, nodeIt + 1, 0, next)
    ensures !done ==> UniformFrom(n, offsets, nodeIt, 0, next0, edges0) == None
    ensures done ==> UniformFrom(n, offsets, nodeIt, 0, next0, edges0) == UniformFrom(n, offsets, nodeIt + 1, 0, next, edges)
  {
    next, edges := next0, edges0;
    var i := 0;
    while i < 2
      invariant LoopState(n, offsets, nodeIt, i, next)
      invariant UniformFrom(n, offsets, nodeIt, 0, next0, edges0) == UniformFrom(n, offsets, nodeIt, i, next, edges)
      decreases |offsets| - next
    {
      if next == |offsets| {
        return false, next, edges;
      }
      var other := (nodeIt + offsets[next]) % n;
      var edge := Edge(nodeIt, other);
      var inserted := !Contains(edges, edge);
      UnfoldAttempt(n, offsets, nodeIt, i, next, edges);
      edges := Insert(edges, edge);
      next := next + 1;
      if inserted {
        i := i + 1;
      }
    }
    UnfoldNextNode(n, offsets, nodeIt, next, edges);
    done := true;
  }

  /** The edge-building loops: node after node, draw offsets until `insert`
      has reported two new edges; `None` once the offsets run out. */
  method BuildUniform(n: nat, offsets: seq<nat>) returns (r: Option<seq<Edge>>)
    requires n != 1 && n <= 0x8000_0000 && OffsetsFit(n, offsets)
    ensures r == UniformEdges(n, offsets)
    ensures r.Some? ==> Completed(n, offsets, r.value)
  {
    var edges: seq<Edge> := [];
    var next := 0;
    var nodeIt := 0;
    while nodeIt < n
      invariant LoopState(n, offsets, nodeIt, 0, next)
      invariant UniformFrom(n, offsets, nodeIt, 0, next, edges) == UniformEdges(n, offsets)
    {
      var done;
      done, next, edges := AddNodeEdges(n, offsets, nodeIt, next, edges);
      if !done {
        return None;
      }
      nodeIt := nodeIt + 1;
    }
    UnfoldDone(n, offsets, next, edges);
    r := Some(edges);
  }

  /** The genus of a completed Uniform graph is n + 1. */
  lemma UniformGenus(values: seq<int>, edges: seq<Edge>)
    requires EdgeSetShape(edges, |values|) && |edges| == 2 * |values|
    ensures Solvable(values, NeighbourLists(|values|, edges)) <==> Sum(values) >= |values| + 1
  {
    InitGenus(values, edges);
  }

  /** `GENERATOR_generate`: draw the values, build the edge set, `init` once. */
  method Generate(g: Graph, params: GeneratorParams, draws: seq<int>, offsets: seq<nat>)
    returns (r: Option<seq<Edge>>)
    requires params.size != 1 && params.size <= 0x8000_0000
    requires DrawsFit(params, draws) && OffsetsFit(params.size, offsets)
    modifies g
    ensures r == UniformEdges(params.size, offsets)
    ensures r.None? ==> unchanged(g)
    ensures r.Some? ==> g.Valid() && g.Contiguous()
    ensures r.Some? ==> |g.values| == params.size && g.values == draws[..params.size]
    ensures r.Some? ==> forall k :: 0 <= k < |g.values| ==> params.minValue <= g.values[k] <= params.maxValue
    ensures r.Some? ==> EdgeSetShape(r.value, params.size) && |r.value| == 2 * params.size
    ensures r.Some? ==> g.Adj() == NeighbourLists(params.size, r.value)
    ensures r.Some? ==> (Solvable(g.values, g.Adj()) <==> Sum(g.values) >= params.size + 1)
  {
    var values := DrawValues(params, draws);
    r := BuildUniform(params.size, offsets);
    if r.Some? {
      g.Init(values, r.value);
      UniformGenus(values, r.value);
    }
  }
}
