/** A fact about the sizes of sets that several models share. */
module Sets {

  /** A subset has at most as many elements, and as many only when it is the whole set. */
  lemma SubsetSize<T>(x: set<T>, y: set<T>)
    requires x <= y
    ensures |x| <= |y| && (|x| == |y| ==> x == y)
  {
    assert y == x + (y - x);
    assert x !! (y - x);
  }
}
