/** What a request should be answered with, said without a trie: a linear scan over
    the routes in the order they were defined. */
module Matching {
  import opened Paths
  import opened Routes
  import opened Sets
  import opened Sorting
  import opened Text
  import opened Wrappers

  const METHOD_ANY := "*"

  /** One position of a pattern: a literal segment, or a parameter. What a parameter
      is called is not part of the shape. */
  datatype Step = Lit(text: string) | Par
  type Shape = seq<Step>

  function StepOf(segment: string): Step {
    if IsParam(segment) then Par else Lit(segment)
  }

  function ShapeOf(segments: seq<string>): (shape: Shape)
    ensures |shape| == |segments|
    ensures forall i :: 0 <= i < |segments| ==> shape[i] == StepOf(segments[i])
  {
    seq(|segments|, i requires 0 <= i < |segments| => StepOf(segments[i]))
  }

  /** A route beside the shape of its pattern. */
  datatype Keyed = Keyed(shape: Shape, route: Route) {
    function Verb(): string { route.endpoint.verb }
  }

  function KeyOf(route: Route): Keyed {
    Keyed(ShapeOf(Segments(route.endpoint.path)), route)
  }

  function KeysOf(routes: seq<Route>): seq<Keyed> {
    if routes == [] then [] else KeysOf(routes[..|routes| - 1]) + [KeyOf(routes[|routes| - 1])]
  }

  predicate StepMatches(step: Step, segment: string) {
    step == Par || step == Lit(segment)
  }

  predicate Matches(shape: Shape, segments: seq<string>) {
    |shape| == |segments| && forall i :: 0 <= i < |shape| ==> StepMatches(shape[i], segments[i])
  }

  /** How well a verb answers a request: exactly, as the wildcard, as GET for HEAD, or not. */
  function VerbRank(request: string, verb: string): nat {
    if verb == request then 0
    else if verb == METHOD_ANY then 1
    else if request == "HEAD" && verb == "GET" then 2
    else 3
  }

  predicate Eligible(k: Keyed, request: string, segments: seq<string>) {
    Matches(k.shape, segments) && VerbRank(request, k.Verb()) < 3
  }

  /** At the first position where the two differ, the first has a literal and the
      second a parameter. */
  predicate ShapeBefore(a: Shape, b: Shape) {
    exists i :: 0 <= i < |a| && i < |b| && a[..i] == b[..i] && a[i].Lit? && b[i].Par?
  }

  predicate Precedes(a: Keyed, b: Keyed, request: string) {
    || ShapeBefore(a.shape, b.shape)
    || (a.shape == b.shape && VerbRank(request, a.Verb()) < VerbRank(request, b.Verb()))
  }

  /** The scan: the first eligible route that none of the others precedes. */
  function Winner(ks: seq<Keyed>, request: string, segments: seq<string>): (w: Option<nat>)
    ensures w.Some? ==> w.value < |ks| && Eligible(ks[w.value], request, segments)
  {
    if ks == [] then None
    else
      var n := |ks| - 1;
      var w := Winner(ks[..n], request, segments);
      if Eligible(ks[n], request, segments) && (w.None? || Precedes(ks[n], ks[w.value], request)) then Some(n) else w
  }

  /** The index of the first route defined under this shape and verb. */
  function FirstAt(ks: seq<Keyed>, shape: Shape, verb: string): (r: Option<nat>)
    ensures r.Some? ==> r.value < |ks| && ks[r.value].shape == shape && ks[r.value].Verb() == verb
    ensures r.Some? ==> forall j :: 0 <= j < r.value ==> !(ks[j].shape == shape && ks[j].Verb() == verb)
    ensures r.None? ==> forall k :: k in ks ==> !(k.shape == shape && k.Verb() == verb)
  {
    if ks == [] then None
    else
      var n := |ks| - 1;
      var r := FirstAt(ks[..n], shape, verb);
      assert forall k :: k in ks ==> k in ks[..n] || k == ks[n];
      if r.Some? then r else if ks[n].shape == shape && ks[n].Verb() == verb then Some(n) else None
  }

  lemma FirstAtFresh(ks: seq<Keyed>, shape: Shape, verb: string)
    requires forall i :: 0 <= i < |ks| ==> ks[i].shape != shape
    ensures FirstAt(ks, shape, verb).None?
  {
  }

  /** The route that already answers this key's shape and verb, if any. */
  function Holder(ks: seq<Keyed>, key: Keyed): Option<Route> {
    var first := FirstAt(ks, key.shape, key.Verb());
    if first.Some? then Some(ks[first.value].route) else None
  }

  lemma FirstAtSnoc(ks: seq<Keyed>, key: Keyed, shape: Shape, verb: string)
    ensures FirstAt(ks + [key], shape, verb)
         == if FirstAt(ks, shape, verb).Some? then FirstAt(ks, shape, verb)
            else if key.shape == shape && key.Verb() == verb then Some(|ks|) else None
  {
    assert (ks + [key])[..|ks|] == ks;
  }

  /** `i` is chosen over `j`. */
  ghost predicate Beats(ks: seq<Keyed>, request: string, i: nat, j: nat)
    requires i < |ks| && j < |ks|
  {
    || Precedes(ks[i], ks[j], request)
    || (ks[i].shape == ks[j].shape && ks[i].Verb() == ks[j].Verb() && i < j)
  }

  ghost predicate IsWinner(ks: seq<Keyed>, request: string, segments: seq<string>, i: nat) {
    && i < |ks|
    && Eligible(ks[i], request, segments)
    && forall j :: 0 <= j < |ks| && j != i && Eligible(ks[j], request, segments) ==> Beats(ks, request, i, j)
  }

  // The precedence is a strict order on the routes that match one request ----------

  lemma ShapeBeforeAsymmetric(a: Shape, b: Shape)
    ensures !(ShapeBefore(a, b) && ShapeBefore(b, a)) && !ShapeBefore(a, a)
  {
    forall i, j | 0 <= i < |a| && i < |b| && a[..i] == b[..i] && 0 <= j < |a| && j < |b| && a[..j] == b[..j]
      ensures !(a[i].Lit? && b[i].Par? && b[j].Lit? && a[j].Par?)
    {
      PrefixesAgree(a, b, i);
      PrefixesAgree(a, b, j);
    }
  }

  lemma PrefixesAgree(a: Shape, b: Shape, n: nat)
    requires n <= |a| && n <= |b| && a[..n] == b[..n]
    ensures forall i :: 0 <= i < n ==> a[i] == b[i]
  {
    assert forall i :: 0 <= i < n ==> a[..n][i] == a[i] && b[..n][i] == b[i];
  }

  lemma PrefixesMeet(a: Shape, b: Shape, c: Shape, i: nat, j: nat)
    requires i < |a| && i < |b| && j < |b| && j < |c|
    requires a[..i] == b[..i] && b[..j] == c[..j] && a[i].Lit? && b[i].Par? && b[j].Lit? && c[j].Par?
    ensures ShapeBefore(a, c)
  {
    PrefixesAgree(a, b, i);
    PrefixesAgree(b, c, j);
    var k := if i < j then i else j;
    assert a[..k] == c[..k];
    assert a[k].Lit? && c[k].Par?;
  }

  lemma ShapeBeforeTransitive(a: Shape, b: Shape, c: Shape)
    requires ShapeBefore(a, b) && ShapeBefore(b, c)
    ensures ShapeBefore(a, c)
  {
    var i :| 0 <= i < |a| && i < |b| && a[..i] == b[..i] && a[i].Lit? && b[i].Par?;
    var j :| 0 <= j < |b| && j < |c| && b[..j] == c[..j] && b[j].Lit? && c[j].Par?;
    PrefixesMeet(a, b, c, i, j);
  }

  lemma {:induction false} MatchingShapesCompare(a: Shape, b: Shape, segments: seq<string>, n: nat)
    requires Matches(a, segments) && Matches(b, segments)
    requires n <= |a| && a[..n] == b[..n]
    ensures a == b || ShapeBefore(a, b) || ShapeBefore(b, a)
    decreases |a| - n
  {
    if n == |a| {
      assert a == a[..n] && b == b[..n];
    } else if a[n] == b[n] {
      assert a[..n + 1] == a[..n] + [a[n]] && b[..n + 1] == b[..n] + [b[n]];
      MatchingShapesCompare(a, b, segments, n + 1);
    } else {
      assert StepMatches(a[n], segments[n]) && StepMatches(b[n], segments[n]);
    }
  }

  lemma BeatsAsymmetric(ks: seq<Keyed>, request: string, i: nat, j: nat)
    requires i < |ks| && j < |ks| && Beats(ks, request, i, j)
    ensures !Beats(ks, request, j, i)
  {
    ShapeBeforeAsymmetric(ks[i].shape, ks[j].shape);
  }

  /** At most one route wins, so a winner found in any way is the same route. */
  lemma WinnerIsUnique(ks: seq<Keyed>, request: string, segments: seq<string>, i: nat, j: nat)
    requires IsWinner(ks, request, segments, i) && IsWinner(ks, request, segments, j)
    ensures i == j
  {
    if i != j {
      BeatsAsymmetric(ks, request, i, j);
    }
  }

  lemma SameRankSameVerb(request: string, a: string, b: string)
    requires VerbRank(request, a) == VerbRank(request, b) < 3
    ensures a == b
  {
  }

  lemma BeatsTransitive(ks: seq<Keyed>, request: string, i: nat, j: nat, k: nat)
    requires i < |ks| && j < |ks| && k < |ks|
    requires Beats(ks, request, i, j) && Beats(ks, request, j, k)
    ensures Beats(ks, request, i, k)
  {
    if ShapeBefore(ks[i].shape, ks[j].shape) && ShapeBefore(ks[j].shape, ks[k].shape) {
      ShapeBeforeTransitive(ks[i].shape, ks[j].shape, ks[k].shape);
    }
  }

  /** Of two routes that both answer, one beats the other. */
  lemma BeatsTotal(ks: seq<Keyed>, request: string, segments: seq<string>, i: nat, j: nat)
    requires i < j < |ks| && Eligible(ks[i], request, segments) && Eligible(ks[j], request, segments)
    ensures if Precedes(ks[j], ks[i], request) then Beats(ks, request, j, i) else Beats(ks, request, i, j)
  {
    MatchingShapesCompare(ks[i].shape, ks[j].shape, segments, 0);
    if ks[i].shape == ks[j].shape && VerbRank(request, ks[i].Verb()) == VerbRank(request, ks[j].Verb()) {
      SameRankSameVerb(request, ks[i].Verb(), ks[j].Verb());
    }
  }

  /** The scan finds the winner, and finds nothing only when no route answers. */
  lemma {:induction false} WinnerWins(ks: seq<Keyed>, request: string, segments: seq<string>)
    ensures match Winner(ks, request, segments)
            case Some(w) => IsWinner(ks, request, segments, w)
            case None => forall k :: k in ks ==> !Eligible(k, request, segments)
  {
    if ks != [] {
      var n := |ks| - 1;
      var w := Winner(ks[..n], request, segments);
      WinnerWins(ks[..n], request, segments);
      assert forall k :: k in ks ==> k in ks[..n] || k == ks[n];
      if w.Some? {
        assert forall j :: 0 <= j < n ==> ks[..n][j] == ks[j];
        forall j | 0 <= j < n && j != w.value && Eligible(ks[j], request, segments)
          ensures Beats(ks, request, w.value, j)
        {
          assert Beats(ks[..n], request, w.value, j);
        }
        if Eligible(ks[n], request, segments) {
          BeatsTotal(ks, request, segments, w.value, n);
          if Precedes(ks[n], ks[w.value], request) {
            forall j | 0 <= j < n && j != w.value && Eligible(ks[j], request, segments)
              ensures Beats(ks, request, n, j)
            {
              BeatsTransitive(ks, request, n, w.value, j);
            }
          }
        }
      }
    }
  }

  // The winner in plain terms ---------------------------------------------------------

  /** The verb asked for, the wildcard, or GET for HEAD. */
  predicate Answers(verb: string, request: string) {
    verb == request || verb == "*" || (request == "HEAD" && verb == "GET")
  }

  /** A segment per position: the same text where the pattern has a literal. */
  ghost predicate Fits(shape: Shape, segments: seq<string>) {
    |shape| == |segments| && forall i :: 0 <= i < |shape| && shape[i].Lit? ==> shape[i].text == segments[i]
  }

  /** Where the two patterns first differ, the first has a literal and the second a parameter. */
  ghost predicate LiteralFirst(a: Shape, b: Shape) {
    exists i :: 0 <= i < |a| && i < |b| && (forall j :: 0 <= j < i ==> a[j] == b[j]) && a[i].Lit? && b[i].Par?
  }

  /** Why `a` is preferred to `b`, both answering: a literal where the other has a parameter;
      or, with the same pattern, the very verb asked for before the wildcard, and either
      before GET for HEAD; or, with the same verb too, because it was defined first. */
  ghost predicate Preferred(ks: seq<Keyed>, request: string, a: nat, b: nat)
    requires a < |ks| && b < |ks|
  {
    || LiteralFirst(ks[a].shape, ks[b].shape)
    || (ks[a].shape == ks[b].shape && ks[a].Verb() != ks[b].Verb()
        && (ks[a].Verb() == request || (ks[a].Verb() == "*" && ks[b].Verb() != request)))
    || (ks[a].shape == ks[b].shape && ks[a].Verb() == ks[b].Verb() && a < b)
  }

  lemma FitsIsMatches(shape: Shape, segments: seq<string>)
    ensures Fits(shape, segments) <==> Matches(shape, segments)
  {
    if |shape| == |segments| {
      forall i | 0 <= i < |shape| ensures StepMatches(shape[i], segments[i]) <==> (shape[i].Lit? ==> shape[i].text == segments[i]) {
      }
    }
  }

  lemma LiteralFirstIsBefore(a: Shape, b: Shape)
    ensures ShapeBefore(a, b) <==> LiteralFirst(a, b)
  {
    if i :| 0 <= i < |a| && i < |b| && a[..i] == b[..i] && a[i].Lit? && b[i].Par? {
      PrefixesAgree(a, b, i);
    }
    if i :| 0 <= i < |a| && i < |b| && (forall j :: 0 <= j < i ==> a[j] == b[j]) && a[i].Lit? && b[i].Par? {
      assert a[..i] == b[..i];
    }
  }

  lemma BeatsIsPreferred(ks: seq<Keyed>, request: string, a: nat, b: nat)
    requires a < |ks| && b < |ks| && Answers(ks[a].Verb(), request) && Answers(ks[b].Verb(), request)
    ensures Beats(ks, request, a, b) ==> Preferred(ks, request, a, b)
  {
    hide ShapeBefore, LiteralFirst;
    LiteralFirstIsBefore(ks[a].shape, ks[b].shape);
  }

  /** Every request gets the one route that fits it, answers its verb and is preferred to
      every other that does, and none only if there is none. */
  lemma WinnerIsPreferred(ks: seq<Keyed>, request: string, segments: seq<string>)
    ensures match Winner(ks, request, segments)
            case Some(w) =>
              && w < |ks| && Fits(ks[w].shape, segments) && Answers(ks[w].Verb(), request)
              && forall j :: 0 <= j < |ks| && j != w && Fits(ks[j].shape, segments) && Answers(ks[j].Verb(), request) ==>
                   Preferred(ks, request, w, j)
            case None => forall k :: k in ks ==> !(Fits(k.shape, segments) && Answers(k.Verb(), request))
  {
    hide Winner, Fits, Matches, Beats, Preferred;
    WinnerWins(ks, request, segments);
    forall k: Keyed ensures Eligible(k, request, segments) <==> Fits(k.shape, segments) && Answers(k.Verb(), request) {
      FitsIsMatches(k.shape, segments);
    }
    match Winner(ks, request, segments)
    case None =>
    case Some(w) =>
      forall j | 0 <= j < |ks| && j != w && Eligible(ks[j], request, segments) ensures Preferred(ks, request, w, j) {
        BeatsIsPreferred(ks, request, w, j);
      }
  }

  // The search, over shapes instead of nodes ------------------------------------------

  /** An exact verb, then the wildcard, then GET for HEAD. */
  function Pick(ks: seq<Keyed>, shape: Shape, request: string): Option<nat> {
    var exact := FirstAt(ks, shape, request);
    var any := FirstAt(ks, shape, METHOD_ANY);
    if exact.Some? then exact
    else if any.Some? then any
    else if request == "HEAD" then FirstAt(ks, shape, "GET")
    else None
  }

  /** Depth first below the prefix `p`, literal before parameter. */
  function Descend(ks: seq<Keyed>, request: string, segments: seq<string>, p: Shape): Option<nat>
    requires |p| <= |segments|
    decreases |segments| - |p|
  {
    if |p| == |segments| then Pick(ks, p, request)
    else
      var literal := Descend(ks, request, segments, p + [Lit(segments[|p|])]);
      if literal.Some? then literal else Descend(ks, request, segments, p + [Par])
  }

  /** The same choice among the routes held at one node. */
  function PickRoute(routes: map<string, Route>, request: string): Option<Route> {
    if request in routes then Some(routes[request])
    else if METHOD_ANY in routes then Some(routes[METHOD_ANY])
    else if request == "HEAD" && "GET" in routes then Some(routes["GET"])
    else None
  }

  ghost predicate EligibleBelow(k: Keyed, request: string, segments: seq<string>, p: Shape) {
    p <= k.shape && Eligible(k, request, segments)
  }

  ghost predicate WinsBelow(ks: seq<Keyed>, request: string, segments: seq<string>, p: Shape, i: nat) {
    && i < |ks|
    && EligibleBelow(ks[i], request, segments, p)
    && forall j :: 0 <= j < |ks| && j != i && EligibleBelow(ks[j], request, segments, p) ==> Beats(ks, request, i, j)
  }

  lemma PickWins(ks: seq<Keyed>, request: string, segments: seq<string>, p: Shape)
    requires Matches(p, segments)
    ensures match Pick(ks, p, request)
            case Some(i) => WinsBelow(ks, request, segments, p, i)
            case None => forall k :: k in ks ==> !EligibleBelow(k, request, segments, p)
  {
    forall k | k in ks && EligibleBelow(k, request, segments, p)
      ensures k.shape == p
    {
    }
    match Pick(ks, p, request)
    case None =>
    case Some(i) =>
      forall j | 0 <= j < |ks| && j != i && EligibleBelow(ks[j], request, segments, p)
        ensures Beats(ks, request, i, j)
      {
        assert ks[j] in ks;
      }
  }

  /** Every pattern that matches below `p` goes on with the literal or the parameter. */
  lemma BelowBranches(k: Keyed, request: string, segments: seq<string>, p: Shape)
    requires |p| < |segments| && EligibleBelow(k, request, segments, p)
    ensures EligibleBelow(k, request, segments, p + [Lit(segments[|p|])]) || EligibleBelow(k, request, segments, p + [Par])
  {
    var n := |p|;
    assert StepMatches(k.shape[n], segments[n]);
    assert k.shape[..n + 1] == p + [k.shape[n]];
  }

  lemma LiteralBeatsParam(ks: seq<Keyed>, request: string, segments: seq<string>, p: Shape, i: nat, j: nat)
    requires |p| < |segments| && i < |ks| && j < |ks|
    requires p + [Lit(segments[|p|])] <= ks[i].shape && p + [Par] <= ks[j].shape
    ensures Beats(ks, request, i, j)
  {
    var n := |p|;
    var a, b := ks[i].shape, ks[j].shape;
    assert a[n].Lit? && b[n].Par? && a[..n] == p == b[..n];
  }

  /** Below any prefix the depth-first search finds the route that wins there. */
  lemma {:induction false} DescendWins(ks: seq<Keyed>, request: string, segments: seq<string>, p: Shape)
    requires |p| <= |segments| && Matches(p, segments[..|p|])
    ensures match Descend(ks, request, segments, p)
            case Some(i) => WinsBelow(ks, request, segments, p, i)
            case None => forall k :: k in ks ==> !EligibleBelow(k, request, segments, p)
    decreases |segments| - |p|
  {
    var n := |p|;
    if n == |segments| {
      assert segments[..n] == segments;
      PickWins(ks, request, segments, p);
      return;
    }
    var lit, par := p + [Lit(segments[n])], p + [Par];
    assert segments[..n + 1] == segments[..n] + [segments[n]];
    DescendWins(ks, request, segments, lit);
    DescendWins(ks, request, segments, par);
    forall k | k in ks && EligibleBelow(k, request, segments, p)
      ensures EligibleBelow(k, request, segments, lit) || EligibleBelow(k, request, segments, par)
    {
      BelowBranches(k, request, segments, p);
    }
    var d := Descend(ks, request, segments, p);
    if d.Some? {
      var i := d.value;
      forall j | 0 <= j < |ks| && j != i && EligibleBelow(ks[j], request, segments, p)
        ensures Beats(ks, request, i, j)
      {
        assert ks[j] in ks;
        if lit <= ks[i].shape && par <= ks[j].shape {
          LiteralBeatsParam(ks, request, segments, p, i, j);
        }
      }
    }
  }

  /** Searching from the root is the linear scan. */
  lemma DescendIsWinner(ks: seq<Keyed>, request: string, segments: seq<string>)
    ensures Descend(ks, request, segments, []) == Winner(ks, request, segments)
  {
    DescendWins(ks, request, segments, []);
    WinnerWins(ks, request, segments);
    var d, w := Descend(ks, request, segments, []), Winner(ks, request, segments);
    if d.Some? {
      assert forall k :: Eligible(k, request, segments) ==> EligibleBelow(k, request, segments, []);
      assert IsWinner(ks, request, segments, d.value);
      assert ks[d.value] in ks;
      WinnerIsUnique(ks, request, segments, d.value, w.value);
    } else if w.Some? {
      assert ks[w.value] in ks && EligibleBelow(ks[w.value], request, segments, []);
    }
  }

  /** The verbs of every route below `p` whose pattern matches, whether or not it answers. */
  function VerbsBelow(ks: seq<Keyed>, segments: seq<string>, p: Shape): set<string> {
    set k | k in ks && p <= k.shape && Matches(k.shape, segments) :: k.Verb()
  }

  /** What the parameters of a shape stand for, in order. */
  function ValuesOf(shape: Shape, segments: seq<string>): seq<string>
    requires |shape| <= |segments|
  {
    if shape == [] then []
    else
      var n := |shape| - 1;
      if shape[n].Par? then ValuesOf(shape[..n], segments) + [segments[n]] else ValuesOf(shape[..n], segments)
  }

  lemma NothingBelow(ks: seq<Keyed>, request: string, segments: seq<string>, p: Shape)
    requires |p| <= |segments| && Matches(p, segments[..|p|])
    requires forall i :: 0 <= i < |ks| ==> !(p <= ks[i].shape)
    ensures Descend(ks, request, segments, p).None? && VerbsBelow(ks, segments, p) == {}
  {
    hide Descend, Matches;
    DescendWins(ks, request, segments, p);
  }

  lemma ValuesBelow(p: Shape, segments: seq<string>)
    requires |p| < |segments|
    ensures ValuesOf(p + [Lit(segments[|p|])], segments) == ValuesOf(p, segments)
    ensures ValuesOf(p + [Par], segments) == ValuesOf(p, segments) + [segments[|p|]]
  {
    assert (p + [Lit(segments[|p|])])[..|p|] == p && (p + [Par])[..|p|] == p;
  }

  lemma VerbsBelowSplit(ks: seq<Keyed>, segments: seq<string>, p: Shape)
    requires |p| < |segments|
    ensures VerbsBelow(ks, segments, p)
         == VerbsBelow(ks, segments, p + [Lit(segments[|p|])]) + VerbsBelow(ks, segments, p + [Par])
  {
    var n := |p|;
    forall k | k in ks && p <= k.shape && Matches(k.shape, segments)
      ensures p + [Lit(segments[n])] <= k.shape || p + [Par] <= k.shape
    {
      assert StepMatches(k.shape[n], segments[n]);
      assert k.shape[..n + 1] == p + [k.shape[n]];
    }
  }

  // The Allow list ----------------------------------------------------------------------

  const ALLOW_ORDER: seq<string> := ["GET", "HEAD", "POST", "PUT", "PATCH", "DELETE", "OPTIONS"]

  function IndexOf(s: seq<string>, x: string): (i: nat)
    ensures i <= |s| && (i < |s| ==> s[i] == x)
  {
    if s == [] then 0 else if s[0] == x then 0 else 1 + IndexOf(s[1..], x)
  }

  function MethodOrder(verb: string): nat {
    IndexOf(ALLOW_ORDER, verb)
  }

  predicate AllowLe(a: string, b: string) {
    MethodOrder(a) < MethodOrder(b) || (MethodOrder(a) == MethodOrder(b) && AtMost(a, b))
  }

  lemma AllowLeIsTotalOrder()
    ensures TotalOrder(AllowLe)
  {
    forall a, b ensures (AllowLe(a, b) || AllowLe(b, a)) && (AllowLe(a, b) && AllowLe(b, a) ==> a == b) {
      AtMostTotal(a, b);
    }
    forall a, b, c | AllowLe(a, b) && AllowLe(b, c) ensures AllowLe(a, c) {
      if MethodOrder(a) == MethodOrder(b) == MethodOrder(c) {
        AtMostTransitive(a, b, c);
      }
    }
  }

  /** HEAD is answered wherever GET is. */
  function WithHead(verbs: set<string>): set<string> {
    if "GET" in verbs then verbs + {"HEAD"} else verbs
  }

  /** The list an Allow header carries for these verbs: each once, conventional order. */
  ghost predicate IsAllowList(allow: seq<string>, verbs: set<string>) {
    multiset(allow) == multiset(WithHead(verbs)) && Ordered(allow, AllowLe)
  }

  /** The verbs determine the list; map iteration order leaves no trace in it. */
  lemma AllowListIsDetermined(a: seq<string>, b: seq<string>, verbs: set<string>)
    requires IsAllowList(a, verbs) && IsAllowList(b, verbs)
    ensures a == b
  {
    AllowLeIsTotalOrder();
    OrderedIsUnique(a, b, AllowLe);
  }

  lemma {:induction false} IndexAt(s: seq<string>, x: string, i: nat)
    requires i < |s| && s[i] == x && forall j :: 0 <= j < i ==> s[j] != x
    ensures IndexOf(s, x) == i
  {
    if i > 0 {
      IndexAt(s[1..], x, i - 1);
    }
  }

  lemma VerbsDiffer(i: nat, j: nat)
    requires j < i < 7
    ensures ALLOW_ORDER[j] != ALLOW_ORDER[i]
  {
    var get, head, post, put := "GET", "HEAD", "POST", "PUT";
    assert get[0] == 'G' && put[0] == 'P' && head[0] == 'H' && post[0] == 'P';
    assert |ALLOW_ORDER[i]| == |ALLOW_ORDER[j]| ==> (j == 0 && i == 3) || (j == 1 && i == 2);
  }

  /** The order of an Allow header: GET, HEAD, POST, PUT, PATCH, DELETE, OPTIONS. */
  lemma ConventionalOrder(i: nat, j: nat)
    requires i < j < 7
    ensures var verbs := ["GET", "HEAD", "POST", "PUT", "PATCH", "DELETE", "OPTIONS"];
            AllowLe(verbs[i], verbs[j]) && !AllowLe(verbs[j], verbs[i])
  {
    hide IndexOf, AtMost;
    forall k, l | 0 <= l < k < 7 ensures ALLOW_ORDER[l] != ALLOW_ORDER[k] {
      VerbsDiffer(k, l);
    }
    IndexAt(ALLOW_ORDER, ALLOW_ORDER[i], i);
    IndexAt(ALLOW_ORDER, ALLOW_ORDER[j], j);
  }

  /** When nothing answers, the list tells a wrong verb from an unknown path: it is
      non-empty exactly when some pattern matches, holds a verb exactly when a matching
      pattern has it (or it is HEAD beside GET), names nothing twice, never the
      wildcard, and never the verb that was just refused. */
  lemma AllowTellsWrongMethod(ks: seq<Keyed>, request: string, segments: seq<string>, allow: seq<string>)
    requires Winner(ks, request, segments).None?
    requires IsAllowList(allow, VerbsBelow(ks, segments, []))
    ensures allow != [] <==> exists k :: k in ks && Matches(k.shape, segments)
    ensures forall v :: v in allow <==>
              || (exists k :: k in ks && Matches(k.shape, segments) && k.Verb() == v)
              || (v == "HEAD" && exists k :: k in ks && Matches(k.shape, segments) && k.Verb() == "GET")
    ensures forall i, j :: 0 <= i < j < |allow| ==> allow[i] != allow[j]
    ensures METHOD_ANY !in allow && request !in allow
  {
    hide VerbsBelow, Matches, IsAllowList, Winner, WithHead;
    var verbs := VerbsBelow(ks, segments, []);
    AllowHolds(allow, verbs);
    MatchedVerbs(ks, segments);
    RefusedVerbs(ks, request, segments);
    if allow != [] {
      assert allow[0] in allow;
    }
    if k :| k in ks && Matches(k.shape, segments) {
      assert k.Verb() in verbs && k.Verb() in allow;
    }
  }

  lemma AllowHolds(allow: seq<string>, verbs: set<string>)
    requires IsAllowList(allow, verbs)
    ensures forall v :: v in allow <==> v in verbs || (v == "HEAD" && "GET" in verbs)
    ensures forall i, j :: 0 <= i < j < |allow| ==> allow[i] != allow[j]
  {
    ListedOnce(allow, WithHead(verbs));
  }

  lemma RefusedVerbs(ks: seq<Keyed>, request: string, segments: seq<string>)
    requires Winner(ks, request, segments).None?
    ensures forall v :: v in VerbsBelow(ks, segments, []) ==> VerbRank(request, v) == 3
  {
    hide Winner;
    WinnerWins(ks, request, segments);
  }

  lemma MatchedVerbs(ks: seq<Keyed>, segments: seq<string>)
    ensures forall v :: v in VerbsBelow(ks, segments, []) <==>
              exists k :: k in ks && Matches(k.shape, segments) && k.Verb() == v
  {
    assert forall k: Keyed :: [] <= k.shape;
  }
}
