/**
 * Node handles and undirected edges (src/Graph.hpp).
 *
 * A handle is a 32-bit unsigned integer; the model uses `nat` and states the
 * 32-bit bound where the source relies on it.  An `Edge` stores its two
 * endpoints in a fixed orientation, but the ordering `Less` (the source's
 * `operator<`) compares the canonical pair (min, max), so `Edge(a, b)` and
 * `Edge(b, a)` are one element of an ordered set.
 */
module Edges {

  /** `std::numeric_limits<uint32_t>::max()`, the reserved "no node" handle. */
  const NullNode: nat := 0xFFFF_FFFF

  /** A value representable as a `NodeHandle` (uint32). */
  predicate IsHandle(h: nat) { h <= NullNode }

  datatype Edge = Edge(a: nat, b: nat)

  function Lo(e: Edge): nat { if e.a <= e.b then e.a else e.b }
  function Hi(e: Edge): nat { if e.a <= e.b then e.b else e.a }

  /** The canonical unordered pair (min, max) of an edge. */
  function Key(e: Edge): (k: (nat, nat))
    ensures k.0 <= k.1
    ensures k == (e.a, e.b) || k == (e.b, e.a)
  {
    (Lo(e), Hi(e))
  }

  /** `operator<(const Edge&, const Edge&)`, the comparator of `std::set<Edge>`. */
  predicate Less(lhs: Edge, rhs: Edge) {
    var lhsA, lhsB := Lo(lhs), Hi(lhs);
    var rhsA, rhsB := Lo(rhs), Hi(rhs);
    lhsA < rhsA || (!(rhsA < lhsA) && lhsB < rhsB)
  }

  /** Two edges that an ordered set built on `Less` treats as the same element. */
  predicate Equivalent(lhs: Edge, rhs: Edge) {
    !Less(lhs, rhs) && !Less(rhs, lhs)
  }

  /** Strict lexicographic order on canonical pairs. */
  predicate LexLess(p: (nat, nat), q: (nat, nat)) {
    p.0 < q.0 || (p.0 == q.0 && p.1 < q.1)
  }

  /** `std::hash<Edge>`: the exclusive or of the two 32-bit endpoints. */
  function Hash(e: Edge): (h: bv32)
    requires IsHandle(e.a) && IsHandle(e.b)
  {
    Xor32(e.a, e.b)
  }

  /** Bitwise exclusive or of two 32-bit handles. */
  function Xor32(x: nat, y: nat): bv32
    requires IsHandle(x) && IsHandle(y)
  {
    (x as bv32) ^ (y as bv32)
  }

  lemma LessIsLexicographic(lhs: Edge, rhs: Edge)
    ensures Less(lhs, rhs) <==> LexLess(Key(lhs), Key(rhs))
  {
  }

  lemma LessIrreflexive(e: Edge)
    ensures !Less(e, e)
  {
  }

  lemma LessTransitive(x: Edge, y: Edge, z: Edge)
    requires Less(x, y) && Less(y, z)
    ensures Less(x, z)
  {
  }

  /** Equivalence under `Less` is exactly equality of the unordered pairs. */
  lemma EquivalentIffSameKey(lhs: Edge, rhs: Edge)
    ensures Equivalent(lhs, rhs) <==> Key(lhs) == Key(rhs)
    ensures Equivalent(lhs, rhs) <==>
              (lhs.a == rhs.a && lhs.b == rhs.b) || (lhs.a == rhs.b && lhs.b == rhs.a)
  {
  }

  /** `Less` is total on distinct unordered pairs. */
  lemma LessTotal(lhs: Edge, rhs: Edge)
    requires Key(lhs) != Key(rhs)
    ensures Less(lhs, rhs) || Less(rhs, lhs)
  {
  }

  lemma ReversedEdgeEquivalent(a: nat, b: nat)
    ensures Equivalent(Edge(a, b), Edge(b, a))
    ensures !Less(Edge(a, b), Edge(b, a)) && !Less(Edge(b, a), Edge(a, b))
  {
  }

  /** The hash is symmetric in the two endpoints. */
  lemma HashSymmetric(a: nat, b: nat)
    requires IsHandle(a) && IsHandle(b)
    ensures Hash(Edge(a, b)) == Hash(Edge(b, a))
  {
    Xor32Commutes(a, b);
  }

  lemma Xor32Commutes(x: nat, y: nat)
    requires IsHandle(x) && IsHandle(y)
    ensures Xor32(x, y) == Xor32(y, x)
  {
    var u, v := x as bv32, y as bv32;
    assert Xor32(x, y) == u ^ v;
    assert Xor32(y, x) == v ^ u;
    XorCommutes(u, v);
  }

  lemma XorCommutes(u: bv32, v: bv32)
    ensures u ^ v == v ^ u
  {
  }

  /** The hash agrees with the set's notion of sameness. */
  lemma HashRespectsEquivalence(lhs: Edge, rhs: Edge)
    requires IsHandle(lhs.a) && IsHandle(lhs.b) && IsHandle(rhs.a) && IsHandle(rhs.b)
    requires Equivalent(lhs, rhs)
    ensures Hash(lhs) == Hash(rhs)
  {
    EquivalentIffSameKey(lhs, rhs);
    if lhs != rhs {
      assert rhs == Edge(lhs.b, lhs.a);
      HashSymmetric(lhs.a, lhs.b);
    }
  }
}
