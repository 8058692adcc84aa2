/** Sequences without repeats, and the sizes that shrink while a set of visited things grows. */
module Collections {

  ghost predicate NoRepeats<T>(xs: seq<T>) {
    forall i, j :: 0 <= i < j < |xs| ==> xs[i] != xs[j]
  }

  lemma Shrinks<T>(all: set<T>, seen: set<T>, k: T)
    requires k in all && k !in seen
    ensures |all - (seen + {k})| < |all - seen|
  {
    assert all - seen == (all - (seen + {k})) + {k};
  }

  lemma Narrows<T>(all: set<T>, seen: set<T>, seen': set<T>)
    requires seen <= seen'
    ensures |all - seen'| <= |all - seen|
  {
    assert all - seen == (all - seen') + ((all - seen) - (all - seen'));
  }
}
