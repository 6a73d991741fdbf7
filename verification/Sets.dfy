/** Counting the elements of sets. */
module Sets {
  lemma OneOut(a: set<nat>, x: nat)
    ensures |a| == |a - {x}| + if x in a then 1 else 0
  {
    if x !in a {
      assert a - {x} == a;
    }
  }

  /** Sets that agree on everything but x. */
  lemma OneChanged(a: set<nat>, b: set<nat>, x: nat)
    requires forall y :: y != x ==> (y in a <==> y in b)
    ensures |b| == |a| - (if x in a then 1 else 0) + (if x in b then 1 else 0)
  {
    OneOut(a, x);
    OneOut(b, x);
    assert a - {x} == b - {x};
  }
}
