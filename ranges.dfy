/**
 * `Range<T>` (src/Graph.hpp): a non-owning view [first, last) into a buffer.
 * The source stores two pointers; the model stores the same two positions as
 * offsets into the buffer they point into.
 */
module Ranges {

  datatype Range = Range(first: nat, last: nat) {

    /** The two positions delimit a (possibly empty) slice. */
    predicate WellFormed() { first <= last }

    /** `size()`: the distance from first to last. */
    function Size(): nat
      requires WellFormed()
    {
      last - first
    }

    /** `empty()`: first and last coincide. */
    predicate Empty() { first == last }

    /** The slice of `buffer` that the range views. */
    function Elements<T>(buffer: seq<T>): seq<T>
      requires WellFormed() && last <= |buffer|
    {
      buffer[first..last]
    }

    /** `operator[]`, which asserts `i < size()`. */
    function At<T>(buffer: seq<T>, i: nat): (x: T)
      requires WellFormed() && last <= |buffer|
      requires i < Size()
      ensures x == Elements(buffer)[i]
    {
      buffer[first + i]
    }
  }

  /** The default constructor: two null pointers. */
  const EmptyRange: Range := Range(0, 0)

  /** `Range(first, count)`. */
  function MakeRange(first: nat, count: nat): (r: Range)
    ensures r.WellFormed() && r.first == first && r.Size() == count
  {
    Range(first, first + count)
  }

  lemma EmptyIffSizeZero(r: Range)
    requires r.WellFormed()
    ensures r.Empty() <==> r.Size() == 0
  {
  }

  lemma ElementsOfMakeRange<T>(buffer: seq<T>, first: nat, count: nat)
    requires first + count <= |buffer|
    ensures |MakeRange(first, count).Elements(buffer)| == count
    ensures MakeRange(first, count).Elements(buffer) == buffer[first..first + count]
  {
  }
}
