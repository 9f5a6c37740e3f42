/** The "did you mean" list of a 404: a project's routes ranked against a request. */
module Nearest {
  import opened Levenshtein
  import opened Matching
  import opened Paths
  import opened Sorting
  import opened Text

  const NEAREST_LIMIT := 5

  datatype Ref = Ref(verb: string, path: string)
  datatype ScoredRef = ScoredRef(ref: Ref, prefix: nat, edits: nat, verbOrder: nat)

  predicate Agrees(pattern: string, wanted: string) {
    pattern == wanted || IsParam(pattern)
  }

  /** How many leading segments agree. */
  function Agreement(wanted: seq<string>, pattern: seq<string>): nat {
    if wanted == [] || pattern == [] || !Agrees(pattern[0], wanted[0]) then 0
    else 1 + Agreement(wanted[1..], pattern[1..])
  }

  lemma {:induction false} AgreementIsFirstDifference(wanted: seq<string>, pattern: seq<string>, n: nat)
    requires n <= |wanted| && n <= |pattern|
    requires forall i :: 0 <= i < n ==> Agrees(pattern[i], wanted[i])
    requires n == |wanted| || n == |pattern| || !Agrees(pattern[n], wanted[n])
    ensures Agreement(wanted, pattern) == n
  {
    if n > 0 {
      AgreementIsFirstDifference(wanted[1..], pattern[1..], n - 1);
    }
  }

  method CommonPrefix(wanted: seq<string>, pattern: seq<string>) returns (n: nat)
    ensures n == Agreement(wanted, pattern)
    ensures n <= |wanted| && n <= |pattern| && forall k :: 0 <= k < n ==> pattern[k] == wanted[k] || IsParam(pattern[k])
    ensures n < |wanted| && n < |pattern| ==> pattern[n] != wanted[n] && !IsParam(pattern[n])
  {
    n := if |wanted| < |pattern| then |wanted| else |pattern|;
    for i := 0 to n
      invariant forall k :: 0 <= k < i ==> Agrees(pattern[k], wanted[k])
    {
      if pattern[i] != wanted[i] && !IsParam(pattern[i]) {
        AgreementIsFirstDifference(wanted, pattern, i);
        return i;
      }
    }
    AgreementIsFirstDifference(wanted, pattern, n);
  }

  function Score(ref: Ref, verb: string, path: string): ScoredRef {
    ScoredRef(ref, Agreement(Segments(path), Segments(ref.path)), Lev(path, ref.path),
              if ref.verb != verb && ref.verb != METHOD_ANY then 1 else 0)
  }

  /** Longest agreement, then fewest edits, then the verb asked for, then by name. */
  predicate ScoredLe(a: ScoredRef, b: ScoredRef) {
    if a.prefix != b.prefix then a.prefix > b.prefix
    else if a.edits != b.edits then a.edits < b.edits
    else if a.verbOrder != b.verbOrder then a.verbOrder < b.verbOrder
    else if a.ref.path != b.ref.path then AtMost(a.ref.path, b.ref.path)
    else AtMost(a.ref.verb, b.ref.verb)
  }

  lemma ScoredLeIsTotalOrder()
    ensures TotalOrder(ScoredLe)
  {
    hide AtMost;
    forall a, b ensures (ScoredLe(a, b) || ScoredLe(b, a)) && (ScoredLe(a, b) && ScoredLe(b, a) ==> a == b) {
      AtMostTotal(a.ref.path, b.ref.path);
      AtMostTotal(a.ref.verb, b.ref.verb);
    }
    forall a, b, c | ScoredLe(a, b) && ScoredLe(b, c) ensures ScoredLe(a, c) {
      ScoredLeTransitive(a, b, c);
    }
  }

  lemma ScoredLeTransitive(a: ScoredRef, b: ScoredRef, c: ScoredRef)
    requires ScoredLe(a, b) && ScoredLe(b, c)
    ensures ScoredLe(a, c)
  {
    hide AtMost;
    if a.prefix == b.prefix == c.prefix && a.edits == b.edits == c.edits && a.verbOrder == b.verbOrder == c.verbOrder {
      AtMostTotal(a.ref.path, b.ref.path);
      AtMostTotal(b.ref.path, c.ref.path);
      if a.ref.path == b.ref.path == c.ref.path {
        AtMostTransitive(a.ref.verb, b.ref.verb, c.ref.verb);
      } else if a.ref.path != b.ref.path && b.ref.path != c.ref.path {
        AtMostTransitive(a.ref.path, b.ref.path, c.ref.path);
      }
    }
  }

  function Scores(refs: seq<Ref>, verb: string, path: string): (r: seq<ScoredRef>)
    ensures |r| == |refs| && forall i :: 0 <= i < |refs| ==> r[i] == Score(refs[i], verb, path)
  {
    seq(|refs|, i requires 0 <= i < |refs| => Score(refs[i], verb, path))
  }

  function Refs(scored: seq<ScoredRef>): (r: seq<Ref>)
    ensures |r| == |scored| && forall i :: 0 <= i < |scored| ==> r[i] == scored[i].ref
  {
    seq(|scored|, i requires 0 <= i < |scored| => scored[i].ref)
  }

  function Take<T>(s: seq<T>, n: nat): seq<T> {
    if |s| > n then s[..n] else s
  }

  /** The best `limit` routes, best first. */
  function Suggestions(refs: seq<Ref>, verb: string, path: string, limit: nat): seq<Ref> {
    Refs(Take(Sort(Scores(refs, verb, path), ScoredLe), limit))
  }

  method Rank(refs: seq<Ref>, verb: string, path: string, limit: nat) returns (r: seq<Ref>)
    ensures r == Suggestions(refs, verb, path, limit)
  {
    hide Lev, Segments, Agreement, Sort;
    var wanted := SplitPath(path);
    var scored: seq<ScoredRef> := [];
    for i := 0 to |refs|
      invariant |scored| == i && forall k :: 0 <= k < i ==> scored[k] == Score(refs[k], verb, path)
    {
      var pattern := SplitPath(refs[i].path);
      var prefix := CommonPrefix(wanted, pattern);
      var edits := EditDistance(path, refs[i].path);
      var verbOrder := if refs[i].verb != verb && refs[i].verb != METHOD_ANY then 1 else 0;
      scored := scored + [ScoredRef(refs[i], prefix, edits, verbOrder)];
    }
    assert scored == Scores(refs, verb, path);
    scored := Take(Sort(scored, ScoredLe), limit);
    r := Refs(scored);
  }

  lemma SortedScores(refs: seq<Ref>, verb: string, path: string)
    ensures var sorted := Sort(Scores(refs, verb, path), ScoredLe);
            && |sorted| == |refs|
            && multiset(sorted) == multiset(Scores(refs, verb, path))
            && Ordered(sorted, ScoredLe)
            && forall i :: 0 <= i < |sorted| ==> sorted[i] == Score(sorted[i].ref, verb, path)
  {
    hide Lev, Segments, Agreement, ScoredLe;
    var scored := Scores(refs, verb, path);
    var sorted := Sort(scored, ScoredLe);
    ScoredLeIsTotalOrder();
    SortOrders(scored, ScoredLe);
    assert |sorted| == |multiset(sorted)| == |multiset(scored)| == |scored|;
    forall i | 0 <= i < |sorted| ensures sorted[i] == Score(sorted[i].ref, verb, path) {
      assert sorted[i] in multiset(sorted);
      assert sorted[i] in scored;
    }
  }

  /** A route that answers the verb asked for. */
  predicate Suits(ref: Ref, verb: string) {
    ref.verb == verb || ref.verb == "*"
  }

  /** `a` looks at least as much like the request as `b`: it agrees with it for more segments;
      or for as many, and takes fewer edits; or as many, and it alone answers the verb; or else
      it comes first by path and then by verb. */
  ghost predicate Nearer(a: Ref, b: Ref, verb: string, path: string) {
    var x, y := Agreement(Segments(path), Segments(a.path)), Agreement(Segments(path), Segments(b.path));
    var d, e := Lev(path, a.path), Lev(path, b.path);
    || x > y
    || (x == y && d < e)
    || (x == y && d == e && Suits(a, verb) && !Suits(b, verb))
    || (x == y && d == e && Suits(a, verb) == Suits(b, verb)
        && if a.path != b.path then AtMost(a.path, b.path) else AtMost(a.verb, b.verb))
  }

  lemma ScoredIsNearer(a: Ref, b: Ref, verb: string, path: string)
    requires ScoredLe(Score(a, verb, path), Score(b, verb, path))
    ensures Nearer(a, b, verb, path)
  {
    hide Lev, Segments, Agreement, AtMost;
  }

  /** `listed` and `rest` are the routes, `listed` best first and none of `rest` nearer. */
  ghost predicate BestOf(refs: seq<Ref>, listed: seq<Ref>, rest: seq<Ref>, verb: string, path: string) {
    && multiset(listed) + multiset(rest) == multiset(refs)
    && (forall i, j :: 0 <= i < j < |listed| ==> Nearer(listed[i], listed[j], verb, path))
    && forall i, j :: 0 <= i < |listed| && 0 <= j < |rest| ==> Nearer(listed[i], rest[j], verb, path)
  }

  /** The list holds routes of the project, as many as there are or as there is room for,
      best first, and none of the routes left out is nearer than one that is listed. */
  lemma SuggestionsAreTheBest(refs: seq<Ref>, verb: string, path: string, limit: nat)
    ensures |Suggestions(refs, verb, path, limit)| == if |refs| < limit then |refs| else limit
    ensures exists rest: seq<Ref> :: BestOf(refs, Suggestions(refs, verb, path, limit), rest, verb, path)
  {
    hide Suggestions, BestOf, Nearer;
    var all := RankedRefs(refs, verb, path, limit);
    var n := if |refs| < limit then |refs| else limit;
    CutIsBest(refs, all, n, verb, path);
    assert n == |refs| ==> all[..n] == all;
  }

  lemma CutIsBest(refs: seq<Ref>, all: seq<Ref>, n: nat, verb: string, path: string)
    requires n <= |all| && multiset(all) == multiset(refs)
    requires forall i, j :: 0 <= i < j < |all| ==> Nearer(all[i], all[j], verb, path)
    ensures BestOf(refs, all[..n], all[n..], verb, path)
  {
    hide Nearer;
    assert all == all[..n] + all[n..];
    assert forall j :: 0 <= j < |all[n..]| ==> all[n..][j] == all[n + j];
  }

  /** All the routes, best first; the list is as many of them as there is room for. */
  lemma RankedRefs(refs: seq<Ref>, verb: string, path: string, limit: nat) returns (all: seq<Ref>)
    ensures |all| == |refs| && multiset(all) == multiset(refs)
    ensures Suggestions(refs, verb, path, limit) == if |refs| < limit then all else all[..limit]
    ensures forall i, j :: 0 <= i < j < |all| ==> Nearer(all[i], all[j], verb, path)
  {
    hide Score, ScoredLe, Sort, Ordered, TotalOrder, Scores, Nearer;
    var sorted := Sort(Scores(refs, verb, path), ScoredLe);
    ScoredLeIsTotalOrder();
    SortedScores(refs, verb, path);
    all := Refs(sorted);
    RefsOfScores(refs, verb, path);
    RefsPermute(sorted, Scores(refs, verb, path));
    forall i, j | 0 <= i < j < |all| ensures Nearer(all[i], all[j], verb, path) {
      OrderedPairs(sorted, ScoredLe, i, j);
      ScoredIsNearer(all[i], all[j], verb, path);
    }
    TakeRefs(sorted, limit);
  }

  lemma TakeRefs(scored: seq<ScoredRef>, limit: nat)
    ensures Refs(Take(scored, limit)) == if |scored| < limit then Refs(scored) else Refs(scored)[..limit]
  {
  }

  lemma RefsOfScores(refs: seq<Ref>, verb: string, path: string)
    ensures Refs(Scores(refs, verb, path)) == refs
  {
    hide Lev, Segments, Agreement;
  }

  function Mapped<A, B>(f: A -> B, s: seq<A>): (r: seq<B>)
    ensures |r| == |s| && forall i :: 0 <= i < |s| ==> r[i] == f(s[i])
  {
    seq(|s|, i requires 0 <= i < |s| => f(s[i]))
  }

  lemma {:induction false} MappedPermute<A, B>(f: A -> B, a: seq<A>, b: seq<A>)
    requires multiset(a) == multiset(b)
    ensures multiset(Mapped(f, a)) == multiset(Mapped(f, b))
    decreases |a|
  {
    hide Mapped;
    assert |a| == |multiset(a)| == |multiset(b)| == |b|;
    if a == [] {
      assert a == b;
    } else {
      assert a[0] in multiset(b);
      var i :| 0 <= i < |b| && b[i] == a[0];
      BothWithout(a, b, 0, i);
      MappedPermute(f, a[..0] + a[0 + 1..], b[..i] + b[i + 1..]);
      MappedWithout(f, a, 0);
      MappedWithout(f, b, i);
    }
  }

  lemma MappedWithout<A, B>(f: A -> B, s: seq<A>, i: nat)
    requires i < |s|
    ensures multiset(Mapped(f, s)) == multiset(Mapped(f, s[..i] + s[i + 1..])) + multiset{f(s[i])}
  {
    var m := Mapped(f, s);
    assert Mapped(f, s[..i] + s[i + 1..]) == m[..i] + m[i + 1..];
    Without(m, i);
    assert m[i] in m;
  }

  lemma RefsPermute(a: seq<ScoredRef>, b: seq<ScoredRef>)
    requires multiset(a) == multiset(b)
    ensures multiset(Refs(a)) == multiset(Refs(b))
  {
    var f := (s: ScoredRef) => s.ref;
    MappedPermute(f, a, b);
    assert Refs(a) == Mapped(f, a) && Refs(b) == Mapped(f, b);
  }

  /** The list depends on which routes there are, not on the order they came in. */
  lemma SuggestionsIgnoreOrder(a: seq<Ref>, b: seq<Ref>, verb: string, path: string, limit: nat)
    requires multiset(a) == multiset(b)
    ensures Suggestions(a, verb, path, limit) == Suggestions(b, verb, path, limit)
  {
    hide Score, ScoredLe, Sort;
    ScoredLeIsTotalOrder();
    SortedScores(a, verb, path);
    SortedScores(b, verb, path);
    ScoresPermute(a, b, verb, path);
    OrderedIsUnique(Sort(Scores(a, verb, path), ScoredLe), Sort(Scores(b, verb, path), ScoredLe), ScoredLe);
  }

  lemma ScoresPermute(a: seq<Ref>, b: seq<Ref>, verb: string, path: string)
    requires multiset(a) == multiset(b)
    ensures multiset(Scores(a, verb, path)) == multiset(Scores(b, verb, path))
  {
    hide Score;
    var f := ref => Score(ref, verb, path);
    MappedPermute(f, a, b);
    assert Scores(a, verb, path) == Mapped(f, a) && Scores(b, verb, path) == Mapped(f, b);
  }

  lemma Without<T>(s: seq<T>, i: nat)
    requires i < |s|
    ensures multiset(s[..i] + s[i + 1..]) == multiset(s) - multiset{s[i]}
  {
    assert s == s[..i] + [s[i]] + s[i + 1..];
  }

  lemma BothWithout<T>(a: seq<T>, b: seq<T>, i: nat, j: nat)
    requires multiset(a) == multiset(b) && i < |a| && j < |b| && a[i] == b[j]
    ensures multiset(a[..i] + a[i + 1..]) == multiset(b[..j] + b[j + 1..])
    ensures |a[..i] + a[i + 1..]| == |a| - 1
  {
    Without(a, i);
    Without(b, j);
  }
}
