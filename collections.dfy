/** Sequence helpers for Python's `set` and `list(set(...))`. */
module Collections {

  /** No element occurs twice. */
  predicate NoDup<T(==)>(s: seq<T>)
  {
    forall i, j :: 0 <= i < j < |s| ==> s[i] != s[j]
  }

  /**
   * `list(s)` for a Python set: every element once, in an order the language
   * leaves unspecified (here, whichever element the loop picks first).
   */
  method ListOfSet<T(==)>(s: set<T>) returns (r: seq<T>)
    ensures NoDup(r)
    ensures forall x :: x in r <==> x in s
    ensures |r| == |s|
  {
    var remaining := s;
    r := [];
    while remaining != {}
      invariant remaining <= s
      invariant NoDup(r)
      invariant forall x :: x in r <==> x in s && x !in remaining
      invariant |r| + |remaining| == |s|
      decreases |remaining|
    {
      var x :| x in remaining;
      r := r + [x];
      remaining := remaining - {x};
    }
  }
}
