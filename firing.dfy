/**
 * The arithmetic of the two chip-firing moves on a value vector
 * (src/Graph.cpp, `Graph::give` and `Graph::take`).  A node with neighbour
 * list `nb` gives by adding 1 to the value of each entry of `nb` (once per
 * occurrence) and then subtracting `|nb|` from its own value; taking is the
 * same with the signs flipped.
 */
module Firing {

  /** The sum of all node values. */
  function Sum(v: seq<int>): int {
    if |v| == 0 then 0 else Sum(v[..|v| - 1]) + v[|v| - 1]
  }

  /** How often `x` occurs in `s`. */
  function Count(s: seq<nat>, x: nat): nat {
    if |s| == 0 then 0 else Count(s[..|s| - 1], x) + (if s[|s| - 1] == x then 1 else 0)
  }

  /** Every entry of `s` indexes into a vector of length `n`. */
  predicate AllBelow(s: seq<nat>, n: nat) {
    forall k :: 0 <= k < |s| ==> s[k] < n
  }

  /** The effect of the neighbour loop: add `d` at every listed position, in order. */
  function AddEach(v: seq<int>, nb: seq<nat>, d: int): (w: seq<int>)
    requires AllBelow(nb, |v|)
    ensures |w| == |v|
  {
    if |nb| == 0 then v
    else
      var u := AddEach(v, nb[..|nb| - 1], d);
      u[nb[|nb| - 1] := u[nb[|nb| - 1]] + d]
  }

  /** The value vector after node `node`, whose neighbour list is `nb`, gives
      (`give` true) or takes (`give` false). */
  function Fire(v: seq<int>, nb: seq<nat>, node: nat, give: bool): (w: seq<int>)
    requires node < |v| && AllBelow(nb, |v|)
    ensures |w| == |v|
  {
    if give then
      var u := AddEach(v, nb, 1);
      u[node := u[node] - |nb|]
    else
      var u := AddEach(v, nb, -1);
      u[node := u[node] + |nb|]
  }

  lemma {:induction false} SumUpdate(v: seq<int>, i: nat, x: int)
    requires i < |v|
    ensures Sum(v[i := x]) == Sum(v) - v[i] + x
  {
    var n := |v|;
    if i < n - 1 {
      SumUpdate(v[..n - 1], i, x);
      assert v[i := x][..n - 1] == v[..n - 1][i := x];
    } else {
      assert v[i := x][..n - 1] == v[..n - 1];
    }
  }

  /** Each listed position receives `d` once per occurrence; nothing else changes. */
  lemma {:induction false} AddEachAt(v: seq<int>, nb: seq<nat>, d: int, j: nat)
    requires AllBelow(nb, |v|) && j < |v|
    ensures AddEach(v, nb, d)[j] == v[j] + d * Count(nb, j)
  {
    if |nb| > 0 {
      var m := |nb| - 1;
      AddEachAt(v, nb[..m], d, j);
      var c := Count(nb[..m], j);
      if nb[m] == j {
        assert d * (c + 1) == d * c + d;
      }
    }
  }

  lemma {:induction false} AddEachSum(v: seq<int>, nb: seq<nat>, d: int)
    requires AllBelow(nb, |v|)
    ensures Sum(AddEach(v, nb, d)) == Sum(v) + d * |nb|
  {
    if |nb| > 0 {
      var m := |nb| - 1;
      AddEachSum(v, nb[..m], d);
      var u := AddEach(v, nb[..m], d);
      SumUpdate(u, nb[m], u[nb[m]] + d);
      assert d * (m + 1) == d * m + d;
    }
  }

  /** `give(n)` adds 1 to each neighbour per occurrence and subtracts the degree
      from `n`; `take(n)` does the opposite; no other value changes. */
  lemma {:induction false} FireAt(v: seq<int>, nb: seq<nat>, node: nat, give: bool, j: nat)
    requires node < |v| && AllBelow(nb, |v|) && j < |v|
    ensures give ==> Fire(v, nb, node, give)[j] ==
                       v[j] + Count(nb, j) - (if j == node then |nb| else 0)
    ensures !give ==> Fire(v, nb, node, give)[j] ==
                        v[j] - Count(nb, j) + (if j == node then |nb| else 0)
    ensures Count(nb, j) == 0 && j != node ==> Fire(v, nb, node, give)[j] == v[j]
  {
    var d := if give then 1 else -1;
    AddEachAt(v, nb, d, j);
  }

  /** Both moves conserve the total. */
  lemma {:induction false} FireConservesSum(v: seq<int>, nb: seq<nat>, node: nat, give: bool)
    requires node < |v| && AllBelow(nb, |v|)
    ensures Sum(Fire(v, nb, node, give)) == Sum(v)
  {
    if give {
      var u := AddEach(v, nb, 1);
      assert Fire(v, nb, node, give) == u[node := u[node] - |nb|];
      AddEachSum(v, nb, 1);
      SumUpdate(u, node, u[node] - |nb|);
    } else {
      var u := AddEach(v, nb, -1);
      assert Fire(v, nb, node, give) == u[node := u[node] + |nb|];
      AddEachSum(v, nb, -1);
      SumUpdate(u, node, u[node] + |nb|);
    }
  }

  /** `take(n)` undoes `give(n)` and `give(n)` undoes `take(n)`. */
  lemma {:induction false} FireInverse(v: seq<int>, nb: seq<nat>, node: nat, give: bool)
    requires node < |v| && AllBelow(nb, |v|)
    ensures Fire(Fire(v, nb, node, give), nb, node, !give) == v
  {
    var w := Fire(v, nb, node, give);
    var x := Fire(w, nb, node, !give);
    forall j | 0 <= j < |v| ensures x[j] == v[j] {
      FireAt(v, nb, node, give, j);
      FireAt(w, nb, node, !give, j);
    }
  }

  /** A 4-cycle with values [1, -1, 2, -2]: node 0 (neighbours 1 and 3) gives. */
  lemma FourCycleGiveExample()
    ensures Fire([1, -1, 2, -2], [1, 3], 0, true) == [-1, 0, 2, -1]
    ensures Sum([-1, 0, 2, -1]) == Sum([1, -1, 2, -2]) == 0
  {
    var v, nb := [1, -1, 2, -2], [1, 3];
    assert nb[..1] == [1] && [1][..0] == [];
    assert Count(nb, 0) == 0 && Count(nb, 1) == 1 && Count(nb, 2) == 0 && Count(nb, 3) == 1;
    var w := Fire(v, nb, 0, true);
    FireAt(v, nb, 0, true, 0);
    FireAt(v, nb, 0, true, 1);
    FireAt(v, nb, 0, true, 2);
    FireAt(v, nb, 0, true, 3);
    assert w == [-1, 0, 2, -1];
    assert [-1, 0, 2, -1][..3] == [-1, 0, 2] && [-1, 0, 2][..2] == [-1, 0] && [-1, 0][..1] == [-1];
    assert v[..3] == [1, -1, 2] && [1, -1, 2][..2] == [1, -1] && [1, -1][..1] == [1];
    FireConservesSum(v, nb, 0, true);
  }
}
