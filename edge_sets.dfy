/**
 * `std::set<Edge>` as used by the graph engine and the generators: a sequence
 * strictly increasing under `Edges.Less`, which is also the set's iteration
 * order.  Inserting an edge equivalent to a stored one leaves the set as it
 * is (the stored orientation is kept), exactly as `std::set::insert` does.
 */
module EdgeSets {
  import opened Edges

  /** The representation invariant of an ordered set of edges. */
  ghost predicate Sorted(s: seq<Edge>) {
    forall i, j :: 0 <= i < j < |s| ==> Less(s[i], s[j])
  }

  /** No edge joins a node to itself. */
  predicate NoSelfLoops(s: seq<Edge>) {
    forall i :: 0 <= i < |s| ==> s[i].a != s[i].b
  }

  /** Some stored edge is equivalent to `e` (insert would report failure). */
  predicate Contains(s: seq<Edge>, e: Edge) {
    exists i | 0 <= i < |s| :: Equivalent(s[i], e)
  }

  /** The unordered pairs held by the set. */
  ghost function Keys(s: seq<Edge>): set<(nat, nat)> {
    if s == [] then {} else {Key(s[0])} + Keys(s[1..])
  }

  /** `std::set<Edge>::insert`: the result is the set itself or the set with
      `e` placed at one position. */
  function Insert(s: seq<Edge>, e: Edge): (r: seq<Edge>)
    ensures r == s || exists p :: 0 <= p <= |s| && r == s[..p] + [e] + s[p..]
  {
    if s == [] then
      assert [e] == s[..0] + [e] + s[0..];
      [e]
    else if Less(e, s[0]) then
      assert [e] + s == s[..0] + [e] + s[0..];
      [e] + s
    else if Less(s[0], e) then
      var t := Insert(s[1..], e);
      assert [s[0]] + s[1..] == s;
      assert t != s[1..] ==> exists p :: 0 <= p <= |s| && [s[0]] + t == s[..p] + [e] + s[p..] by {
        if t != s[1..] {
          var p :| 0 <= p <= |s[1..]| && t == s[1..][..p] + [e] + s[1..][p..];
          assert [s[0]] + t == s[..p + 1] + [e] + s[p + 1..];
        }
      }
      [s[0]] + t
    else s
  }

  lemma {:induction false} InsertKeys(s: seq<Edge>, e: Edge)
    ensures Keys(Insert(s, e)) == Keys(s) + {Key(e)}
  {
    if s != [] {
      if Less(e, s[0]) {
        assert ([e] + s)[1..] == s;
      } else if Less(s[0], e) {
        InsertKeys(s[1..], e);
        assert ([s[0]] + Insert(s[1..], e))[1..] == Insert(s[1..], e);
      } else {
        EquivalentIffSameKey(s[0], e);
      }
    }
  }

  lemma {:induction false} InsertElements(s: seq<Edge>, e: Edge)
    ensures forall x :: x in Insert(s, e) ==> x in s || x == e
  {
    var r := Insert(s, e);
    if r != s {
      var p :| 0 <= p <= |s| && r == s[..p] + [e] + s[p..];
      forall x | x in r ensures x in s || x == e {
        if x in s[..p] { assert x in s; }
        else if x in s[p..] { assert x in s; }
      }
    }
  }

  lemma {:induction false} InsertSorted(s: seq<Edge>, e: Edge)
    requires Sorted(s)
    ensures Sorted(Insert(s, e))
  {
    if s != [] && !Less(e, s[0]) && Less(s[0], e) {
      var t := Insert(s[1..], e);
      InsertSorted(s[1..], e);
      InsertElements(s[1..], e);
      forall j | 0 <= j < |t| ensures Less(s[0], t[j]) {
        assert t[j] in t;
        if t[j] != e {
          var i :| 0 <= i < |s[1..]| && s[1..][i] == t[j];
          assert s[i + 1] == t[j];
        }
      }
      var r := [s[0]] + t;
      forall i, j | 0 <= i < j < |r| ensures Less(r[i], r[j]) {
        if i > 0 { assert r[i] == t[i - 1] && r[j] == t[j - 1]; }
        else { assert r[j] == t[j - 1]; }
      }
    } else if s != [] && Less(e, s[0]) {
      var r := [e] + s;
      forall i, j | 0 <= i < j < |r| ensures Less(r[i], r[j]) {
        if i > 0 { assert r[i] == s[i - 1] && r[j] == s[j - 1]; }
        else if j > 1 { LessTransitive(e, s[0], s[j - 1]); }
      }
    }
  }

  /** In a sorted set no two elements share an unordered pair. */
  lemma SortedKeysDistinct(s: seq<Edge>, i: int, j: int)
    requires Sorted(s) && 0 <= i < j < |s|
    ensures Key(s[i]) != Key(s[j])
  {
    EquivalentIffSameKey(s[i], s[j]);
  }

  /** Membership in `Keys` in terms of the stored edges. */
  lemma {:induction false} KeysMembership(s: seq<Edge>, k: (nat, nat))
    ensures k in Keys(s) <==> exists i :: 0 <= i < |s| && Key(s[i]) == k
  {
    if s != [] {
      KeysMembership(s[1..], k);
      if exists i :: 0 <= i < |s| && Key(s[i]) == k {
        var i :| 0 <= i < |s| && Key(s[i]) == k;
        if i > 0 { assert Key(s[1..][i - 1]) == k; }
      }
      if exists i :: 0 <= i < |s[1..]| && Key(s[1..][i]) == k {
        var i :| 0 <= i < |s[1..]| && Key(s[1..][i]) == k;
        assert Key(s[i + 1]) == k;
      }
    }
  }

  /** The size of a set is the number of distinct unordered pairs it holds. */
  lemma {:induction false} SortedSizeIsKeyCount(s: seq<Edge>)
    requires Sorted(s)
    ensures |Keys(s)| == |s|
  {
    if s != [] {
      var t := s[1..];
      assert Sorted(t);
      SortedSizeIsKeyCount(t);
      KeysMembership(t, Key(s[0]));
      if Key(s[0]) in Keys(t) {
        var i :| 0 <= i < |t| && Key(t[i]) == Key(s[0]);
        SortedKeysDistinct(s, 0, i + 1);
      }
    }
  }

  /** `Contains` asks whether the unordered pair of `e` is already held. */
  lemma ContainsIffKey(s: seq<Edge>, e: Edge)
    ensures Contains(s, e) <==> Key(e) in Keys(s)
  {
    KeysMembership(s, Key(e));
    if Contains(s, e) {
      var i :| 0 <= i < |s| && Equivalent(s[i], e);
      EquivalentIffSameKey(s[i], e);
    }
    if Key(e) in Keys(s) {
      var i :| 0 <= i < |s| && Key(s[i]) == Key(e);
      EquivalentIffSameKey(s[i], e);
    }
  }

  /** Inserting into a set grows it by one exactly when the edge is new. */
  lemma InsertSize(s: seq<Edge>, e: Edge)
    requires Sorted(s)
    ensures |Insert(s, e)| == if Contains(s, e) then |s| else |s| + 1
    ensures Contains(s, e) ==> Insert(s, e) == s
  {
    var r := Insert(s, e);
    InsertSorted(s, e);
    InsertKeys(s, e);
    SortedSizeIsKeyCount(s);
    SortedSizeIsKeyCount(r);
    ContainsIffKey(s, e);
    if r != s {
      var p :| 0 <= p <= |s| && r == s[..p] + [e] + s[p..];
      assert |r| == |s| + 1;
    }
  }

  /** Inserting an edge greater than every stored one appends it. */
  lemma {:induction false} InsertGreatest(s: seq<Edge>, e: Edge)
    requires forall i :: 0 <= i < |s| ==> Less(s[i], e)
    ensures Insert(s, e) == s + [e]
  {
    if s != [] {
      LessIrreflexive(e);
      assert !Less(e, s[0]) by {
        if Less(e, s[0]) { LessTransitive(e, s[0], e); }
      }
      InsertGreatest(s[1..], e);
      assert [s[0]] + (s[1..] + [e]) == s + [e];
    }
  }
}
