/** The sizes of finite sets, and sequences that list a set. */
module Sets {

  lemma {:induction false} ProperSubsetSize<T>(a: set<T>, b: set<T>)
    requires a < b
    ensures |a| < |b|
  {
    if a != {} {
      var x :| x in a;
      ProperSubsetSize(a - {x}, b - {x});
    }
  }

  lemma SubsetSize<T>(a: set<T>, b: set<T>)
    requires a <= b
    ensures |a| <= |b|
  {
    if a != b {
      ProperSubsetSize(a, b);
    }
  }

  /** A sequence with the elements of a set has each of them once. */
  lemma ListedOnce<T>(s: seq<T>, elements: set<T>)
    requires multiset(s) == multiset(elements)
    ensures forall x :: x in s <==> x in elements
    ensures forall i, j :: 0 <= i < j < |s| ==> s[i] != s[j]
  {
    forall x ensures x in s <==> x in elements {
      assert x in multiset(s) <==> x in multiset(elements);
    }
    forall i, j | 0 <= i < j < |s| ensures s[i] != s[j] {
      var before, after := s[..j], s[j + 1..];
      assert s == before + [s[j]] + after;
      assert multiset(s)[s[j]] == multiset(before)[s[j]] + 1 + multiset(after)[s[j]];
      assert before[i] in multiset(before);
    }
  }
}
