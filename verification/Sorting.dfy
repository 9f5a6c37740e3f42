/** Sorting by a total order, as slices.SortFunc and slices.Sorted are used here:
    the result is ordered, has the same elements, and is the only such sequence. */
module Sorting {

  ghost predicate TotalOrder<T(!new)>(le: (T, T) -> bool) {
    && (forall a, b :: le(a, b) || le(b, a))
    && (forall a, b :: le(a, b) && le(b, a) ==> a == b)
    && (forall a, b, c :: le(a, b) && le(b, c) ==> le(a, c))
  }

  /** No element is out of order with the one before it. */
  ghost predicate Ordered<T>(s: seq<T>, le: (T, T) -> bool) {
    |s| <= 1 || (le(s[0], s[1]) && Ordered(s[1..], le))
  }

  function Insert<T>(x: T, s: seq<T>, le: (T, T) -> bool): seq<T> {
    if s == [] || le(x, s[0]) then [x] + s else [s[0]] + Insert(x, s[1..], le)
  }

  function Sort<T>(s: seq<T>, le: (T, T) -> bool): seq<T> {
    if s == [] then [] else Insert(s[0], Sort(s[1..], le), le)
  }

  lemma {:induction false} InsertOrdered<T(!new)>(x: T, s: seq<T>, le: (T, T) -> bool)
    requires TotalOrder(le) && Ordered(s, le)
    ensures Ordered(Insert(x, s, le), le)
  {
    if s != [] && !le(x, s[0]) {
      InsertOrdered(x, s[1..], le);
      var rest := Insert(x, s[1..], le);
      assert ([s[0]] + rest)[1..] == rest;
    } else {
      assert ([x] + s)[1..] == s;
    }
  }

  lemma Uncons<T>(s: seq<T>)
    requires s != []
    ensures s == [s[0]] + s[1..] && multiset(s) == multiset{s[0]} + multiset(s[1..])
  {
    assert s == [s[0]] + s[1..];
  }

  lemma {:induction false} InsertKeeps<T>(x: T, s: seq<T>, le: (T, T) -> bool)
    ensures multiset(Insert(x, s, le)) == multiset(s) + multiset{x}
  {
    if s != [] && !le(x, s[0]) {
      InsertKeeps(x, s[1..], le);
      Uncons(s);
    }
  }

  lemma {:induction false} SortOrders<T(!new)>(s: seq<T>, le: (T, T) -> bool)
    requires TotalOrder(le)
    ensures Ordered(Sort(s, le), le) && multiset(Sort(s, le)) == multiset(s)
  {
    hide TotalOrder, Insert;
    if s != [] {
      SortOrders(s[1..], le);
      InsertOrdered(s[0], Sort(s[1..], le), le);
      InsertKeeps(s[0], Sort(s[1..], le), le);
      Uncons(s);
    }
  }

  lemma {:induction false} HeadIsLeast<T(!new)>(s: seq<T>, le: (T, T) -> bool, x: T)
    requires TotalOrder(le) && Ordered(s, le) && x in s
    ensures le(s[0], x)
  {
    if x != s[0] {
      assert s == [s[0]] + s[1..];
      HeadIsLeast(s[1..], le, x);
    }
  }

  /** Ordered by a transitive relation means ordered at any distance. */
  lemma {:induction false} OrderedPairs<T(!new)>(s: seq<T>, le: (T, T) -> bool, i: nat, j: nat)
    requires TotalOrder(le) && Ordered(s, le) && i < j < |s|
    ensures le(s[i], s[j])
  {
    if i == 0 {
      HeadIsLeast(s, le, s[j]);
    } else {
      OrderedPairs(s[1..], le, i - 1, j - 1);
    }
  }

  lemma OrderedTail<T>(s: seq<T>, le: (T, T) -> bool)
    requires s != [] && Ordered(s, le)
    ensures Ordered(s[1..], le)
  {
  }

  /** Two ordered sequences of the same elements start with the same one. */
  lemma HeadsAgree<T(!new)>(a: seq<T>, b: seq<T>, le: (T, T) -> bool)
    requires TotalOrder(le) && Ordered(a, le) && Ordered(b, le)
    requires a != [] && multiset(a) == multiset(b)
    ensures b != [] && a[0] == b[0]
  {
    hide Ordered;
    assert a[0] in multiset(b);
    assert b != [];
    assert b[0] in multiset(a);
    HeadIsLeast(a, le, b[0]);
    HeadIsLeast(b, le, a[0]);
  }

  lemma TailsAgree<T>(a: seq<T>, b: seq<T>)
    requires a != [] && b != [] && a[0] == b[0] && multiset(a) == multiset(b)
    ensures multiset(a[1..]) == multiset(b[1..])
  {
    Uncons(a);
    Uncons(b);
    assert multiset(a[1..]) == multiset(a) - multiset{a[0]};
    assert multiset(b[1..]) == multiset(b) - multiset{b[0]};
  }

  /** An ordered sequence is determined by its elements: whatever algorithm sorts
      them, and however they were arranged before, the outcome is the same. */
  lemma {:induction false} OrderedIsUnique<T(!new)>(a: seq<T>, b: seq<T>, le: (T, T) -> bool)
    requires TotalOrder(le) && Ordered(a, le) && Ordered(b, le)
    requires multiset(a) == multiset(b)
    ensures a == b
  {
    hide TotalOrder, Ordered;
    if a != [] {
      HeadsAgree(a, b, le);
      TailsAgree(a, b);
      OrderedTail(a, le);
      OrderedTail(b, le);
      OrderedIsUnique(a[1..], b[1..], le);
      Uncons(a);
      Uncons(b);
    } else {
      assert |multiset(b)| == 0;
    }
  }
}
