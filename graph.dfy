/**
 * `Graph` (src/Graph.hpp, src/Graph.cpp): node values plus one flat
 * neighbour buffer carved into a contiguous slice per node.  The slices are
 * `Range`s holding offsets into `buffer` instead of raw pointers.
 */
module Graphs {
  import opened Edges
  import opened EdgeSets
  import opened Ranges
  import opened Firing
  import opened Adjacency

  /** The engine's solvability test: the total is at least the genus
      |E| - |V| + 1, where E are the distinct undirected edges. */
  ghost predicate Solvable(values: seq<int>, adj: seq<seq<nat>>) {
    Sum(values) >= |DistinctEdges(adj)| - |values| + 1
  }

  /** A state in which no node is in debt. */
  predicate Solved(values: seq<int>) {
    forall i :: 0 <= i < |values| ==> values[i] >= 0
  }

  /** Where node `i`'s slice starts when slices are laid out back to back. */
  function Start(counts: seq<int>, i: nat): int
    requires i <= |counts|
  {
    Sum(counts[..i])
  }

  predicate NonNegative(counts: seq<int>) {
    forall i :: 0 <= i < |counts| ==> counts[i] >= 0
  }

  /** A slice of `size` entries at `at` whose first `cursor` entries are `list`. */
  ghost predicate SlotHolds(buf: seq<nat>, at: int, size: int, cursor: int, list: seq<nat>) {
    0 <= at && at + size <= |buf| && cursor == |list| <= size && buf[at..at + |list|] == list
  }

  /** The buffer holds node `i`'s list over `prefix` at the start of its slice,
      the cursor of node `i` points just past it, and no list outgrows its slice. */
  ghost predicate Filled(buf: seq<nat>, counts: seq<int>, cursor: seq<int>, prefix: seq<Edge>) {
    |counts| == |cursor| && NonNegative(counts) && Start(counts, |counts|) <= |buf| &&
    forall i {:trigger NeighboursOf(prefix, i)} :: 0 <= i < |counts| ==>
      SlotHolds(buf, Start(counts, i), counts[i], cursor[i], NeighboursOf(prefix, i))
  }

  /** Writing at a slot's cursor appends to that slot's list. */
  lemma SlotAppend(buf: seq<nat>, at: int, size: int, cursor: int, list: seq<nat>, x: nat)
    requires SlotHolds(buf, at, size, cursor, list) && cursor < size
    ensures SlotHolds(buf[at + cursor := x], at, size, cursor + 1, list + [x])
  {
    var buf' := buf[at + cursor := x];
    assert buf'[at..at + cursor + 1] == buf[at..at + cursor] + [x];
  }

  /** Writing outside a slot leaves it alone. */
  lemma SlotUntouched(buf: seq<nat>, at: int, size: int, cursor: int, list: seq<nat>, p: int, x: nat)
    requires SlotHolds(buf, at, size, cursor, list) && 0 <= p < |buf| && (p < at || at + size <= p)
    ensures SlotHolds(buf[p := x], at, size, cursor, list)
  {
    assert buf[p := x][at..at + |list|] == buf[at..at + |list|];
  }

  lemma {:induction false} StartStep(counts: seq<int>, i: nat)
    requires i < |counts|
    ensures Start(counts, i + 1) == Start(counts, i) + counts[i]
  {
    assert counts[..i + 1][..i] == counts[..i];
  }

  lemma {:induction false} StartMonotone(counts: seq<int>, i: nat, j: nat)
    requires NonNegative(counts) && i <= j <= |counts|
    ensures Start(counts, i) <= Start(counts, j)
  {
    if i < j {
      StartMonotone(counts, i, j - 1);
      StartStep(counts, j - 1);
    }
  }

  /** A position inside slice `j` lies outside every other slice. */
  lemma SlotsApart(counts: seq<int>, i: nat, j: nat, q: int)
    requires NonNegative(counts) && i < |counts| && j < |counts| && i != j && 0 <= q < counts[j]
    ensures Start(counts, j) + q < Start(counts, i) || Start(counts, i) + counts[i] <= Start(counts, j) + q
  {
    StartStep(counts, i);
    StartStep(counts, j);
    if i < j {
      StartMonotone(counts, i + 1, j);
    } else {
      StartMonotone(counts, j + 1, i);
    }
  }

  /** Writing `e.b` at `p1`, the cursor of `e.a`, and then `e.a` at `p2`, the
      advanced cursor of `e.b`, appends edge `e`'s contribution to the slot of
      node `i`, which starts at `st`. */
  lemma FillSlot(buf: seq<nat>, st: int, size: int, cursor: seq<int>, e: Edge, i: nat, list: seq<nat>,
                 p1: int, p2: int)
    requires i < |cursor| && e.a < |cursor| && e.b < |cursor|
    requires SlotHolds(buf, st, size, cursor[i], list)
    requires 0 <= p1 < |buf| && 0 <= p2 < |buf|
    requires if i == e.a then p1 == st + cursor[i] && cursor[i] < size else p1 < st || st + size <= p1
    requires if i == e.b then p2 == st + cursor[e.a := cursor[e.a] + 1][i] && cursor[e.a := cursor[e.a] + 1][i] < size
             else p2 < st || st + size <= p2
    ensures SlotHolds(buf[p1 := e.b][p2 := e.a], st, size,
                      cursor[e.a := cursor[e.a] + 1][e.b := cursor[e.a := cursor[e.a] + 1][e.b] + 1][i],
                      list + Contribution(e, i))
  {
    var c1 := cursor[e.a := cursor[e.a] + 1];
    var c2 := c1[e.b := c1[e.b] + 1];
    var buf1 := buf[p1 := e.b];
    if i == e.a && i == e.b {
      SlotAppend(buf, st, size, cursor[i], list, e.b);
      SlotAppend(buf1, st, size, cursor[i] + 1, list + [e.b], e.a);
      assert list + [e.b] + [e.a] == list + Contribution(e, i);
    } else if i == e.a {
      SlotAppend(buf, st, size, cursor[i], list, e.b);
      SlotUntouched(buf1, st, size, cursor[i] + 1, list + [e.b], p2, e.a);
    } else if i == e.b {
      SlotUntouched(buf, st, size, cursor[i], list, p1, e.b);
      SlotAppend(buf1, st, size, cursor[i], list, e.a);
    } else {
      SlotUntouched(buf, st, size, cursor[i], list, p1, e.b);
      SlotUntouched(buf1, st, size, cursor[i], list, p2, e.a);
      assert list + Contribution(e, i) == list;
    }
  }

  /** Writing both ends of edge `k` at the two cursors `p1` and `p2` extends the
      filled lists by that edge. */
  lemma FillEdge(buf: seq<nat>, counts: seq<int>, cursor: seq<int>, edges: seq<Edge>, k: nat, p1: int, p2: int)
    requires k < |edges| && edges[k].a < |counts| && edges[k].b < |counts|
    requires counts[edges[k].a] == Degree(edges, edges[k].a) && counts[edges[k].b] == Degree(edges, edges[k].b)
    requires Filled(buf, counts, cursor, edges[..k])
    requires p1 == Start(counts, edges[k].a) + cursor[edges[k].a]
    requires p2 == Start(counts, edges[k].b) + cursor[edges[k].a := cursor[edges[k].a] + 1][edges[k].b]
    ensures 0 <= p1 < |buf| && 0 <= p2 < |buf|
    ensures Filled(buf[p1 := edges[k].b][p2 := edges[k].a], counts,
                   cursor[edges[k].a := cursor[edges[k].a] + 1][edges[k].b := cursor[edges[k].a := cursor[edges[k].a] + 1][edges[k].b] + 1],
                   edges[..k + 1])
  {
    var e := edges[k];
    var c1 := cursor[e.a := cursor[e.a] + 1];
    var c2 := c1[e.b := c1[e.b] + 1];
    DegreeStep(edges, k, e.a);
    DegreeStep(edges, k, e.b);
    assert SlotHolds(buf, Start(counts, e.a), counts[e.a], cursor[e.a], NeighboursOf(edges[..k], e.a));
    assert SlotHolds(buf, Start(counts, e.b), counts[e.b], cursor[e.b], NeighboursOf(edges[..k], e.b));
    assert c1[e.b] < counts[e.b];
    var buf2 := buf[p1 := e.b][p2 := e.a];
    forall i {:trigger Start(counts, i)} | 0 <= i < |counts|
      ensures SlotHolds(buf2, Start(counts, i), counts[i], c2[i], NeighboursOf(edges[..k + 1], i))
    {
      assert SlotHolds(buf, Start(counts, i), counts[i], cursor[i], NeighboursOf(edges[..k], i));
      FillNode(buf, counts, cursor, edges, k, e, p1, p2, i);
    }
    FilledIntro(buf2, counts, c2, edges[..k + 1]);
  }

  /** The effect of writing edge `k` on the slice of one node `i`. */
  lemma FillNode(buf: seq<nat>, counts: seq<int>, cursor: seq<int>, edges: seq<Edge>, k: nat, e: Edge,
                 p1: int, p2: int, i: nat)
    requires k < |edges| && e == edges[k] && e.a < |counts| && e.b < |counts| && i < |counts|
    requires |cursor| == |counts| && NonNegative(counts)
    requires SlotHolds(buf, Start(counts, i), counts[i], cursor[i], NeighboursOf(edges[..k], i))
    requires 0 <= p1 < |buf| && 0 <= p2 < |buf|
    requires p1 == Start(counts, e.a) + cursor[e.a] && 0 <= cursor[e.a] < counts[e.a]
    requires p2 == Start(counts, e.b) + cursor[e.a := cursor[e.a] + 1][e.b]
    requires 0 <= cursor[e.a := cursor[e.a] + 1][e.b] < counts[e.b]
    ensures SlotHolds(buf[p1 := e.b][p2 := e.a], Start(counts, i), counts[i],
                      cursor[e.a := cursor[e.a] + 1][e.b := cursor[e.a := cursor[e.a] + 1][e.b] + 1][i],
                      NeighboursOf(edges[..k + 1], i))
  {
    var c1 := cursor[e.a := cursor[e.a] + 1];
    DegreeStep(edges, k, i);
    if i != e.a {
      SlotsApart(counts, i, e.a, cursor[e.a]);
    }
    if i != e.b {
      SlotsApart(counts, i, e.b, c1[e.b]);
    }
    FillSlot(buf, Start(counts, i), counts[i], cursor, e, i, NeighboursOf(edges[..k], i), p1, p2);
  }

  lemma FilledIntro(buf: seq<nat>, counts: seq<int>, cursor: seq<int>, prefix: seq<Edge>)
    requires |counts| == |cursor| && NonNegative(counts) && Start(counts, |counts|) <= |buf|
    requires forall i {:trigger NeighboursOf(prefix, i)} :: 0 <= i < |counts| ==>
               SlotHolds(buf, Start(counts, i), counts[i], cursor[i], NeighboursOf(prefix, i))
    ensures Filled(buf, counts, cursor, prefix)
  {
  }

  lemma {:induction false} DegreeStep(edges: seq<Edge>, k: nat, i: nat)
    requires k < |edges|
    ensures NeighboursOf(edges[..k + 1], i) == NeighboursOf(edges[..k], i) + Contribution(edges[k], i)
    ensures Degree(edges[..k + 1], i) <= Degree(edges, i)
  {
    assert edges[..k + 1][..k] == edges[..k];
    NeighboursConcat(edges[..k + 1], edges[k + 1..], i);
    assert edges[..k + 1] + edges[k + 1..] == edges;
  }

  /** Solvability depends only on the total and the adjacency, which moves keep. */
  lemma SolvableUnderFire(v: seq<int>, adj: seq<seq<nat>>, node: nat, give: bool)
    requires |adj| == |v| && WellFormed(adj) && node < |v|
    ensures Solvable(Fire(v, adj[node], node, give), adj) == Solvable(v, adj)
  {
    FireConservesSum(v, adj[node], node, give);
  }

  /** After `init` from an ordered edge set the genus is |edges| - |values| + 1. */
  lemma InitGenus(values: seq<int>, edges: seq<Edge>)
    requires EndpointsBelow(edges, |values|) && Sorted(edges)
    ensures Solvable(values, NeighbourLists(|values|, edges)) <==> Sum(values) >= |edges| - |values| + 1
  {
    EdgeCountOfAdjacency(|values|, edges);
  }

  /** `n` slices inside the buffer whose entries are all nodes. */
  ghost predicate Layout(n: nat, connections: seq<Range>, buffer: seq<nat>) {
    && (forall i :: 0 <= i < |connections| ==>
          connections[i].WellFormed() && connections[i].last <= |buffer|)
    && (forall i :: 0 <= i < |connections| ==>
          AllBelow(connections[i].Elements(buffer), n))
  }

  /** Slices that follow each other in node order and fill the buffer. */
  ghost predicate Packed(connections: seq<Range>, buffer: seq<nat>) {
    && (|connections| > 0 ==> connections[0].first == 0)
    && (forall i :: 0 < i < |connections| ==> connections[i].first == connections[i - 1].last)
    && |buffer| == (if |connections| == 0 then 0 else connections[|connections| - 1].last)
  }

  /** The three passes of `init` together lay out the neighbour lists of `edges`. */
  lemma InitLayout(n: nat, edges: seq<Edge>, count: seq<int>, conns: seq<Range>, buf: seq<nat>)
    requires EndpointsBelow(edges, n)
    requires |count| == n && NonNegative(count) && Start(count, n) == |buf|
    requires |conns| == n && forall j {:trigger conns[j]} {:trigger Start(count, j)} :: 0 <= j < n ==>
               conns[j].WellFormed() && conns[j].first == Start(count, j) &&
               conns[j].last == Start(count, j) + count[j]
    requires forall j {:trigger Start(count, j)} :: 0 <= j < n ==>
               0 <= Start(count, j) && Start(count, j) + count[j] <= |buf| &&
               buf[Start(count, j)..Start(count, j) + count[j]] == NeighboursOf(edges, j)
    ensures Layout(n, conns, buf) && Packed(conns, buf)
    ensures forall j :: 0 <= j < n ==> conns[j].Elements(buf) == NeighboursOf(edges, j)
  {
    forall j | 0 <= j < n
      ensures conns[j].Elements(buf) == NeighboursOf(edges, j)
      ensures AllBelow(conns[j].Elements(buf), n)
    {
      NeighboursBelow(edges, n, j);
    }
    CarvedPacked(count, conns, buf);
  }

  /** Slices carved back to back from the counts are packed into the buffer. */
  lemma CarvedPacked(count: seq<int>, conns: seq<Range>, buf: seq<nat>)
    requires Start(count, |count|) == |buf|
    requires |conns| == |count| && forall j {:trigger conns[j]} {:trigger Start(count, j)} :: 0 <= j < |count| ==>
               conns[j].first == Start(count, j) && conns[j].last == Start(count, j) + count[j]
    ensures Packed(conns, buf)
  {
    var n := |count|;
    forall j | 0 < j < n ensures conns[j].first == conns[j - 1].last {
      StartStep(count, j - 1);
    }
    if n > 0 { StartStep(count, n - 1); }
  }

  /** The inner loop of `isSolvable`: emplace the edge from `node` to every
      entry of its neighbour list. */
  method EmplaceRow(edges0: seq<Edge>, node: nat, row: seq<nat>) returns (edges: seq<Edge>)
    requires Sorted(edges0)
    ensures Sorted(edges) && Keys(edges) == Keys(edges0) + RowKeys(node, row)
  {
    edges := edges0;
    var q := 0;
    while q < |row|
      invariant 0 <= q <= |row|
      invariant Sorted(edges)
      invariant Keys(edges) == Keys(edges0) + RowKeys(node, row[..q])
    {
      var e := Edge(node, row[q]);
      InsertSorted(edges, e);
      InsertKeys(edges, e);
      RowKeysStep(node, row, q);
      edges := Insert(edges, e);
      q := q + 1;
    }
    assert row[..|row|] == row;
  }

  /** The summing loop of `isSolvable`. */
  method Total(values: seq<int>) returns (sum: int)
    ensures sum == Sum(values)
  {
    sum := 0;
    var k := 0;
    while k < |values|
      invariant 0 <= k <= |values|
      invariant sum == Sum(values[..k])
    {
      assert values[..k + 1][..k] == values[..k];
      sum := sum + values[k];
      k := k + 1;
    }
    assert values[..|values|] == values;
  }

  /** First pass of `init`: count the connections of every node. */
  method CountConnections(edges: seq<Edge>, n: nat) returns (count: seq<int>)
    requires EndpointsBelow(edges, n)
    ensures |count| == n && NonNegative(count) && Start(count, n) == 2 * |edges|
    ensures forall i :: 0 <= i < n ==> count[i] == Degree(edges, i)
  {
    count := Zeros(n);
    var k := 0;
    while k < |edges|
      invariant 0 <= k <= |edges|
      invariant count == DegreeCounts(edges[..k], n)
    {
      var e := edges[k];
      DegreeCountsStep(edges, n, k);
      count := count[e.a := count[e.a] + 1];
      count := count[e.b := count[e.b] + 1];
      k := k + 1;
    }
    assert edges[..|edges|] == edges;
    forall i | 0 <= i < n ensures count[i] == Degree(edges, i) {
      DegreeCountsAt(edges, n, i);
    }
    DegreeCountsSum(edges, n);
    assert count[..n] == count;
  }

  /** Second pass of `init`: slices laid out back to back, each as long as its count. */
  method CarveSlices(count: seq<int>) returns (conns: seq<Range>)
    requires NonNegative(count)
    ensures |conns| == |count|
    ensures forall j {:trigger conns[j]} {:trigger Start(count, j)} :: 0 <= j < |count| ==>
              conns[j].WellFormed() && conns[j].first == Start(count, j) &&
              conns[j].last == Start(count, j) + count[j]
  {
    conns := [];
    var it := 0;
    var i := 0;
    while i < |count|
      invariant 0 <= i <= |count| && |conns| == i
      invariant it == Start(count, i) && it >= 0
      invariant forall j {:trigger conns[j]} {:trigger Start(count, j)} :: 0 <= j < i ==>
                  conns[j].WellFormed() && conns[j].first == Start(count, j) &&
                  conns[j].last == Start(count, j) + count[j]
    {
      StartStep(count, i);
      conns := conns + [MakeRange(it, count[i])];
      it := it + count[i];
      i := i + 1;
    }
  }

  /** One iteration of the third pass: write `b` at `a`'s cursor and `a` at
      `b`'s cursor, advancing both. */
  method WriteEdge(edges: seq<Edge>, n: nat, k: nat, count: seq<int>, conns: seq<Range>,
                   buf0: seq<nat>, cursor0: seq<int>)
    returns (buf: seq<nat>, cursor: seq<int>)
    requires EndpointsBelow(edges, n) && k < |edges| && |count| == n
    requires forall i :: 0 <= i < n ==> count[i] == Degree(edges, i)
    requires |conns| == n && forall j :: 0 <= j < n ==> conns[j].first == Start(count, j)
    requires Filled(buf0, count, cursor0, edges[..k])
    ensures |buf| == |buf0|
    ensures Filled(buf, count, cursor, edges[..k + 1])
  {
    var e := edges[k];
    var p1 := conns[e.a].first + cursor0[e.a];
    var c1 := cursor0[e.a := cursor0[e.a] + 1];
    var p2 := conns[e.b].first + c1[e.b];
    FillEdge(buf0, count, cursor0, edges, k, p1, p2);
    buf := buf0[p1 := e.b];
    cursor := c1;
    buf := buf[p2 := e.a];
    cursor := cursor[e.b := cursor[e.b] + 1];
  }

  /** Before the third pass: every cursor is at the start of its empty slice. */
  lemma FilledInitially(buf: seq<nat>, count: seq<int>, edges: seq<Edge>)
    requires NonNegative(count) && Start(count, |count|) == |buf|
    ensures Filled(buf, count, Zeros(|count|), edges[..0])
  {
    var n, cursor := |count|, Zeros(|count|);
    forall j {:trigger Start(count, j)} | 0 <= j < n
      ensures SlotHolds(buf, Start(count, j), count[j], cursor[j], NeighboursOf(edges[..0], j))
    {
      ZerosAt(n, j);
      StartMonotone(count, 0, j);
      StartStep(count, j);
      StartMonotone(count, j + 1, n);
      assert NeighboursOf(edges[..0], j) == [];
    }
    FilledIntro(buf, count, cursor, edges[..0]);
  }

  /** After the third pass every slice holds exactly its node's neighbour list. */
  lemma FilledFinally(buf: seq<nat>, count: seq<int>, cursor: seq<int>, edges: seq<Edge>)
    requires Filled(buf, count, cursor, edges)
    requires forall i :: 0 <= i < |count| ==> count[i] == Degree(edges, i)
    ensures forall j {:trigger Start(count, j)} :: 0 <= j < |count| ==>
              0 <= Start(count, j) && Start(count, j) + count[j] <= |buf| &&
              buf[Start(count, j)..Start(count, j) + count[j]] == NeighboursOf(edges, j)
  {
    forall j {:trigger Start(count, j)} | 0 <= j < |count|
      ensures buf[Start(count, j)..Start(count, j) + count[j]] == NeighboursOf(edges, j)
    {
      assert SlotHolds(buf, Start(count, j), count[j], cursor[j], NeighboursOf(edges, j));
    }
  }

  /** Third pass of `init`: write both endpoints of every edge into the slices,
      advancing one cursor per node. */
  method FillSlices(edges: seq<Edge>, n: nat, count: seq<int>, conns: seq<Range>, buf0: seq<nat>)
    returns (buf: seq<nat>)
    requires EndpointsBelow(edges, n)
    requires |count| == n && NonNegative(count) && Start(count, n) == |buf0|
    requires forall i :: 0 <= i < n ==> count[i] == Degree(edges, i)
    requires |conns| == n && forall j :: 0 <= j < n ==> conns[j].first == Start(count, j)
    ensures |buf| == |buf0|
    ensures forall j {:trigger Start(count, j)} :: 0 <= j < n ==>
              0 <= Start(count, j) && Start(count, j) + count[j] <= |buf| &&
              buf[Start(count, j)..Start(count, j) + count[j]] == NeighboursOf(edges, j)
  {
    buf := buf0;
    var cursor := Zeros(n);
    FilledInitially(buf, count, edges);
    var k := 0;
    while k < |edges|
      invariant 0 <= k <= |edges| && |buf| == |buf0|
      invariant Filled(buf, count, cursor, edges[..k])
    {
      buf, cursor := WriteEdge(edges, n, k, count, conns, buf, cursor);
      k := k + 1;
    }
    assert edges[..|edges|] == edges;
    FilledFinally(buf, count, cursor, edges);
  }

  class Graph {
    var values: seq<int>
    var connections: seq<Range>
    var buffer: seq<nat>

    /** Every node has a slice inside the buffer, and every neighbour entry is a node. */
    ghost predicate Valid()
      reads this
    {
      |connections| == |values| && Layout(|values|, connections, buffer)
    }

    /** The slices follow each other in node order and fill the buffer. */
    ghost predicate Contiguous()
      reads this
    {
      Packed(connections, buffer)
    }

    /** The neighbour list of `node`, in buffer order. */
    function Neighbours(node: nat): (nb: seq<nat>)
      reads this
      requires Valid() && node < |values|
      ensures AllBelow(nb, |values|)
    {
      connections[node].Elements(buffer)
    }

    /** All neighbour lists. */
    ghost function Adj(): (adj: seq<seq<nat>>)
      reads this
      requires Valid()
      ensures |adj| == |values| && WellFormed(adj)
      ensures forall i :: 0 <= i < |values| ==> adj[i] == Neighbours(i)
    {
      seq(|values|, i reads this requires 0 <= i < |values| && Valid() => Neighbours(i))
    }

    function Size(): nat
      reads this
    {
      |values|
    }

    /** `getNodeValue`, which asserts that the handle is not `NullNode`. */
    function GetNodeValue(handle: nat): int
      reads this
      requires handle != NullNode && handle < |values|
    {
      values[handle]
    }

    /** `getNodeConnections`, which asserts that the handle is not `NullNode`. */
    function GetNodeConnections(handle: nat): Range
      reads this
      requires handle != NullNode && handle < |connections|
    {
      connections[handle]
    }

    /** `isSolved()`: every value is non-negative. */
    predicate IsSolved()
      reads this
    {
      Solved(values)
    }

    /** The default constructor: no nodes. */
    constructor ()
      ensures Valid() && Contiguous()
      ensures values == [] && connections == [] && buffer == []
    {
      values, connections, buffer := [], [], [];
    }

    /** The copy constructor: same values, same buffer contents, and ranges
        rebased onto the copy's own buffer. */
    constructor Copy(rhs: Graph)
      requires rhs.Valid()
      ensures Valid()
      ensures values == rhs.values && buffer == rhs.buffer && connections == rhs.connections
      ensures Adj() == rhs.Adj()
    {
      var conns: seq<Range> := [];
      var i := 0;
      while i < |rhs.connections|
        invariant 0 <= i <= |rhs.connections|
        invariant conns == rhs.connections[..i]
      {
        var conn := rhs.connections[i];
        conns := conns + [MakeRange(conn.first, conn.Size())];
        i := i + 1;
      }
      buffer := rhs.buffer;
      values := rhs.values;
      connections := conns;
      new;
      assert connections == rhs.connections;
    }

    /** `give(node)`: every neighbour gains 1 per occurrence in the list, the
        node loses its degree. */
    method Give(node: nat)
      requires Valid() && node != NullNode && node < |values|
      modifies this
      ensures Valid()
      ensures connections == old(connections) && buffer == old(buffer)
      ensures values == Fire(old(values), old(Neighbours(node)), node, true)
    {
      var range := connections[node];
      assert AllBelow(range.Elements(buffer), |values|);
      var k := range.first;
      while k < range.last
        invariant range.first <= k <= range.last
        invariant connections == old(connections) && buffer == old(buffer)
        invariant forall j :: range.first <= j < range.last ==> buffer[j] < |old(values)|
        invariant values == AddEach(old(values), buffer[range.first..k], 1)
      {
        assert buffer[range.first..k + 1][..k - range.first] == buffer[range.first..k];
        var connection := buffer[k];
        values := values[connection := values[connection] + 1];
        k := k + 1;
      }
      values := values[node := values[node] - range.Size()];
    }

    /** `take(node)`: every neighbour loses 1 per occurrence in the list, the
        node gains its degree. */
    method Take(node: nat)
      requires Valid() && node != NullNode && node < |values|
      modifies this
      ensures Valid()
      ensures connections == old(connections) && buffer == old(buffer)
      ensures values == Fire(old(values), old(Neighbours(node)), node, false)
    {
      var range := connections[node];
      assert AllBelow(range.Elements(buffer), |values|);
      var k := range.first;
      while k < range.last
        invariant range.first <= k <= range.last
        invariant connections == old(connections) && buffer == old(buffer)
        invariant forall j :: range.first <= j < range.last ==> buffer[j] < |old(values)|
        invariant values == AddEach(old(values), buffer[range.first..k], -1)
      {
        assert buffer[range.first..k + 1][..k - range.first] == buffer[range.first..k];
        var connection := buffer[k];
        values := values[connection := values[connection] - 1];
        k := k + 1;
      }
      values := values[node := values[node] + range.Size()];
    }

    /** `init(values, edges)`: count degrees, carve one slice per node out of a
        buffer of 2|edges| entries, then fill the slices in edge order. */
    method Init(vals: seq<int>, edges: seq<Edge>)
      requires EndpointsBelow(edges, |vals|)
      modifies this
      ensures Valid() && Contiguous()
      ensures values == vals
      ensures |buffer| == 2 * |edges|
      ensures Adj() == NeighbourLists(|vals|, edges)
      ensures forall i :: 0 <= i < |vals| ==> connections[i].Size() == Degree(edges, i)
    {
      var n := |vals|;
      values := vals;
      var count := CountConnections(edges, n);
      var conns := CarveSlices(count);
      var size := 2 * |edges|;
      var current := buffer;
      var buf := seq(size, j requires 0 <= j => if j < |current| then current[j] else 0);
      buf := FillSlices(edges, n, count, conns, buf);
      InitLayout(n, edges, count, conns, buf);
      connections := conns;
      buffer := buf;
      AdjOfLayout(this, edges);
    }

    /** `isSolvable()`: rebuild the set of undirected edges from the neighbour
        lists, then compare the total with the genus. */
    method IsSolvable() returns (r: bool)
      requires Valid()
      ensures r == Solvable(values, Adj())
    {
      ghost var adj := Adj();
      var edges: seq<Edge> := [];
      var n := |values|;
      var nodeIt := 0;
      while nodeIt < n
        invariant 0 <= nodeIt <= n
        invariant Sorted(edges) && Keys(edges) == PairKeys(adj, nodeIt)
      {
        var row := connections[nodeIt].Elements(buffer);
        assert row == adj[nodeIt];
        edges := EmplaceRow(edges, nodeIt, row);
        nodeIt := nodeIt + 1;
      }
      SortedSizeIsKeyCount(edges);
      assert |edges| == |DistinctEdges(adj)|;
      var edgeCount := |edges|;
      var genus := edgeCount - n + 1;
      var sum := Total(values);
      r := sum >= genus;
    }
  }

  /** A valid graph whose slices hold the lists of `edges` has those lists as its adjacency. */
  lemma AdjOfLayout(g: Graph, edges: seq<Edge>)
    requires g.Valid()
    requires forall j :: 0 <= j < |g.values| ==> g.connections[j].Elements(g.buffer) == NeighboursOf(edges, j)
    ensures g.Adj() == NeighbourLists(|g.values|, edges)
    ensures forall j :: 0 <= j < |g.values| ==> g.connections[j].Size() == Degree(edges, j)
  {
    var adj, lists := g.Adj(), NeighbourLists(|g.values|, edges);
    forall j | 0 <= j < |g.values| ensures adj[j] == lists[j] {
      assert adj[j] == g.Neighbours(j);
    }
  }
}
