/** Facts about the sizes of finite sets that the proofs about sentences
    and boards use. */
module SetFacts {

  /** A subset is no larger than its superset. */
  lemma SubsetSize<T>(a: set<T>, b: set<T>)
    requires a <= b
    ensures |a| <= |b|
  {
    assert b == a + (b - a);
  }

  /** A subset of the same size is the whole set: this is what makes the
      source's test `len(a) == len(b) and a.issubset(b)` a test of
      equality. */
  lemma SubsetOfSameSize<T>(a: set<T>, b: set<T>)
    requires a <= b && |a| == |b|
    ensures a == b
  {
    assert b == a + (b - a);
    assert |b - a| == 0;
  }
}
