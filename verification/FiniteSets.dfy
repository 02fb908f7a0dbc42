/** Sizes of finite sets. */
module FiniteSets {
  lemma SubsetSize<T>(small: set<T>, large: set<T>)
    requires small <= large
    ensures |small| <= |large|
  {
    if x :| x in large && x !in small {
      SubsetSize(small, large - {x});
    } else {
      assert small == large;
    }
  }
}
