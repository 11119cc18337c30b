/** Cardinality facts about finite sets that the minesweeper proofs lean on. */
module SetFacts {

  /** A subset is no larger than its superset, and the rest makes up the difference. */
  lemma SubsetCard<T>(a: set<T>, b: set<T>)
    requires a <= b
    ensures |b - a| == |b| - |a|
    ensures |a| <= |b|
  {
    assert a * b == a;
    assert a + b == b;
    assert a - b == {};
  }

  /** A subset as large as its superset is the superset. */
  lemma EqualCardSubset<T>(a: set<T>, b: set<T>)
    requires a <= b && |a| == |b|
    ensures a == b
  {
    SubsetCard(a, b);
    assert b - a == {};
  }

  /** Splitting a set by another one: the part outside plus the part inside. */
  lemma SplitCard<T>(a: set<T>, d: set<T>)
    ensures |a| == |a - d| + |a * d|
  {
    assert (a - d) + (a * d) == a;
    assert (a - d) * (a * d) == {};
  }
}
