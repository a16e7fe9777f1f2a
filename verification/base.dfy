/** Small shared vocabulary: optional values, results, and facts about sequences. */
module Base {

  /** A value that may be absent (Python's None). */
  datatype Option<T> = None | Some(value: T)

  /** The outcome of an operation that may raise. */
  datatype Result<T, E> = Success(value: T) | Failure(error: E)

  function Min(a: int, b: int): int { if a <= b then a else b }

  function Max(a: int, b: int): int { if a >= b then a else b }

  /** No element occurs twice. */
  predicate Distinct<T(==)>(s: seq<T>) {
    forall i, j :: 0 <= i < j < |s| ==> s[i] != s[j]
  }

  /** The set of elements of a sequence. */
  function Elements<T>(s: seq<T>): set<T> {
    set x | x in s
  }

  /** Some member of a non-empty set. */
  method Pick<T>(s: set<T>) returns (x: T)
    requires s != {}
    ensures x in s
  {
    x :| x in s;
  }

  /**
   * Lists the members of a set in some order, each exactly once: the shape of
   * a query result that SQL returns without an ORDER BY.
   */
  method SetToSeq<T>(s: set<T>) returns (r: seq<T>)
    ensures Distinct(r)
    ensures Elements(r) == s
    ensures |r| == |s|
  {
    r := [];
    var rest := s;
    while rest != {}
      invariant rest <= s
      invariant Distinct(r)
      invariant Elements(r) == s - rest
      invariant |r| + |rest| == |s|
      decreases |rest|
    {
      var x :| x in rest;
      assert Elements(r + [x]) == Elements(r) + {x};
      r := r + [x];
      rest := rest - {x};
    }
  }
}
