/** The route table of the whole server: one trie per project, and the four answers a
    request can get. */
module Table {
  import opened Binding
  import opened Matching
  import opened Nearest
  import opened Paths
  import opened Routes
  import opened Text
  import opened Trie
  import opened Wrappers

  datatype Project = Project(id: int, slug: string)

  datatype Result =
    | NoProject
    | Matched(project: Project, route: Route, params: map<string, string>)
    | WrongMethod(project: Project, allow: seq<string>)
    | NoRoute(project: Project, nearest: seq<Ref>)

  /** url.PathUnescape: nothing is assumed about it. */
  type Unescape = string -> Option<string>

  function DecodeSegment(segment: string, unescape: Unescape): string {
    if '%' !in segment then segment
    else match unescape(segment)
      case Some(decoded) => decoded
      case None => segment
  }

  function Decoded(segments: seq<string>, unescape: Unescape): (r: seq<string>)
    ensures |r| == |segments| && forall i :: 0 <= i < |segments| ==> r[i] == DecodeSegment(segments[i], unescape)
  {
    seq(|segments|, i requires 0 <= i < |segments| => DecodeSegment(segments[i], unescape))
  }

  /** Split first, decode afterwards: an encoded slash stays in its segment. */
  method SplitRequestPath(escaped: string, unescape: Unescape) returns (segments: seq<string>)
    ensures segments == Decoded(Segments(escaped), unescape)
    ensures forall i :: 0 <= i < |segments| ==>
              var raw := Segments(escaped)[i];
              segments[i] == if '%' in raw && unescape(raw).Some? then unescape(raw).value else raw
  {
    hide Segments;
    segments := SplitPath(escaped);
    for i := 0 to |segments|
      invariant |segments| == |Segments(escaped)|
      invariant forall k :: 0 <= k < i ==> segments[k] == DecodeSegment(Segments(escaped)[k], unescape)
      invariant forall k :: i <= k < |segments| ==> segments[k] == Segments(escaped)[k]
    {
      if '%' in segments[i] {
        var decoded := unescape(segments[i]);
        if decoded.Some? {
          segments := segments[i := decoded.value];
        }
      }
    }
  }

  /** A way to write any text as one path segment: without a slash, without white space
      around it, and read back by the decoder, or the text itself if nothing is encoded. */
  ghost predicate Escapes(escape: string -> string, unescape: Unescape) {
    forall s :: s != "" ==>
      var e := escape(s);
      e != "" && '/' !in e && TrimRight(e) == e && (if '%' in e then unescape(e) == Some(s) else e == s)
  }

  function Escaped(segments: seq<string>, escape: string -> string): (r: seq<string>)
    ensures |r| == |segments| && forall i :: 0 <= i < |segments| ==> r[i] == escape(segments[i])
  {
    seq(|segments|, i requires 0 <= i < |segments| => escape(segments[i]))
  }

  /** Whatever texts a client puts into a path, slashes in them included, the matcher gets
      those texts, one segment each. */
  lemma EscapedSegmentsArrive(segments: seq<string>, escape: string -> string, unescape: Unescape)
    requires segments != [] && "" !in segments && Escapes(escape, unescape)
    ensures Decoded(Segments("/" + Join(Escaped(segments, escape), '/')), unescape) == segments
  {
    hide Segments, Join, TrimRight;
    var sent := Escaped(segments, escape);
    forall e | e in sent ensures e != "" && '/' !in e {
      var i :| 0 <= i < |sent| && sent[i] == e;
      assert segments[i] in segments;
    }
    assert segments[|segments| - 1] in segments;
    SegmentsOfJoined(sent);
    assert sent == Front(sent) + [Last(sent)];
    assert Segments("/" + Join(sent, '/')) == sent;
    forall i | 0 <= i < |segments| ensures DecodeSegment(sent[i], unescape) == segments[i] {
      assert segments[i] in segments;
    }
  }

  /** The routes one project serves, in the order the endpoints were read. */
  function RoutesFor(endpoints: seq<Endpoint>, slug: string): seq<Route> {
    if endpoints == [] then []
    else
      var n := |endpoints| - 1;
      RoutesFor(endpoints[..n], slug) + if endpoints[n].slug == slug then RoutesOf(endpoints[n]) else []
  }

  lemma RoutesForSnoc(before: seq<Endpoint>, endpoint: Endpoint, slug: string)
    ensures RoutesFor(before + [endpoint], slug)
         == RoutesFor(before, slug) + (if endpoint.slug == slug then RoutesOf(endpoint) else [])
  {
    hide RoutesOf;
    assert (before + [endpoint])[..|before|] == before;
  }

  function RefsOf(routes: seq<Route>): seq<Ref> {
    if routes == [] then []
    else
      var n := |routes| - 1;
      RefsOf(routes[..n]) + [Ref(routes[n].endpoint.verb, routes[n].endpoint.path)]
  }

  lemma Snoc(routes: seq<Route>, r: Route)
    ensures KeysOf(routes + [r]) == KeysOf(routes) + [KeyOf(r)]
    ensures RefsOf(routes + [r]) == RefsOf(routes) + [Ref(r.endpoint.verb, r.endpoint.path)]
  {
    hide KeyOf;
    assert (routes + [r])[..|routes|] == routes;
  }

  /** What a request is answered with, told by the linear scan over a project's routes. */
  ghost predicate Resolves(project: Project, routes: seq<Route>, verb: string, segments: seq<string>, result: Result) {
    var ks := KeysOf(routes);
    match Winner(ks, verb, segments)
    case Some(w) =>
      result == Matched(project, ks[w].route, Zipped(ks[w].route.params, ValuesOf(ks[w].shape, segments)))
    case None =>
      if exists k :: k in ks && Matches(k.shape, segments) then
        result.WrongMethod? && result.project == project && IsAllowList(result.allow, VerbsBelow(ks, segments, []))
      else
        result == NoRoute(project, Suggestions(RefsOf(routes), verb, "/" + Join(segments, '/'), NEAREST_LIMIT))
  }

  class ProjectRoutes {
    const project: Project
    const trie: Trie
    var refs: seq<Ref>
    ghost var Repr: set<object>

    constructor (project: Project)
      ensures this.project == project && fresh(Repr) && ServesSlug(project.slug, [])
    {
      this.project := project;
      trie := new Trie();
      refs := [];
      new;
      Repr := {this, trie} + trie.at.Values;
    }

    ghost predicate Serves(routes: seq<Route>)
      reads this, trie, Repr
      ensures Serves(routes) ==> this in Repr && trie in Repr
    {
      && Repr == {this, trie} + trie.at.Values
      && trie.Valid() && trie.inserted == KeysOf(routes) && refs == RefsOf(routes)
    }

    ghost predicate ServesSlug(slug: string, endpoints: seq<Endpoint>)
      reads this, trie, Repr
      ensures ServesSlug(slug, endpoints) ==> this in Repr && trie in Repr
    {
      project.slug == slug && Serves(RoutesFor(endpoints, slug))
    }

    /** Adds one route, reporting the one that keeps answering in its place, if any. */
    method Add(r: Route, ghost routes: seq<Route>) returns (shadowedBy: Option<Route>)
      requires Serves(routes)
      modifies Repr
      ensures Serves(routes + [r]) && fresh(Repr - old(Repr))
      ensures shadowedBy == Holder(KeysOf(routes), KeyOf(r))
    {
      hide KeyOf, FirstAt, KeysOf, RefsOf;
      Snoc(routes, r);
      shadowedBy := trie.Insert(r);
      refs := refs + [Ref(r.endpoint.verb, r.endpoint.path)];
      Repr := {this, trie} + trie.at.Values;
    }

    method AddAll(added: seq<Route>, ghost routes: seq<Route>)
      requires Serves(routes)
      modifies Repr
      ensures Serves(routes + added) && fresh(Repr - old(Repr))
    {
      hide *;
      assert routes + added[..0] == routes;
      for i := 0 to |added|
        invariant Serves(routes + added[..i]) && fresh(Repr - old(Repr))
      {
        assert routes + added[..i + 1] == (routes + added[..i]) + [added[i]];
        var shadowedBy := Add(added[i], routes + added[..i]);
      }
      assert added[..|added|] == added;
    }

    method AddEndpoint(endpoint: Endpoint, ghost before: seq<Endpoint>)
      requires ServesSlug(endpoint.slug, before)
      modifies Repr
      ensures ServesSlug(endpoint.slug, before + [endpoint]) && fresh(Repr - old(Repr))
    {
      hide Serves, RoutesOf, RoutesFor;
      RoutesForSnoc(before, endpoint, endpoint.slug);
      var routes := Expand(endpoint);
      AddAll(routes, RoutesFor(before, endpoint.slug));
    }

    lemma OthersStillServe(slug: string, endpoint: Endpoint, before: seq<Endpoint>)
      requires ServesSlug(slug, before) && endpoint.slug != slug
      ensures ServesSlug(slug, before + [endpoint])
    {
      hide Serves, RoutesOf, RoutesFor;
      RoutesForSnoc(before, endpoint, slug);
      assert RoutesFor(before, slug) + [] == RoutesFor(before, slug);
    }

    method Answer(verb: string, segments: seq<string>, ghost routes: seq<Route>) returns (result: Result)
      requires Serves(routes)
      ensures Resolves(project, routes, verb, segments, result)
    {
      hide Suggestions, VerbsBelow, IsAllowList, Join, Winner, Matches, Zipped, ValuesOf, KeysOf, RefsOf;
      var route, params, allow := trie.Lookup(verb, segments);
      if route.Some? {
        return Matched(project, route.value, params);
      }
      AllowTellsWrongMethod(trie.inserted, verb, segments, allow);
      if |allow| > 0 {
        return WrongMethod(project, allow);
      }
      var nearest := Rank(refs, verb, "/" + Join(segments, '/'), NEAREST_LIMIT);
      result := NoRoute(project, nearest);
    }
  }

  /** The project a slug stands for: a later row replaces an earlier one. */
  function LastWith(data: seq<Project>, slug: string): Option<Project> {
    if data == [] then None
    else
      var last := data[|data| - 1];
      if last.slug == slug then Some(last) else LastWith(data[..|data| - 1], slug)
  }

  class Table {
    var projects: map<string, ProjectRoutes>

    /** Each project serves its own routes, and no two share a node, a trie or a record. */
    ghost predicate Serves(endpoints: seq<Endpoint>)
      reads this, projects.Values, set p, o | p in projects.Values && o in p.Repr :: o
    {
      && (forall slug :: slug in projects ==>
            && projects[slug].trie in projects[slug].Repr
            && this !in projects[slug].Repr
            && projects[slug].ServesSlug(slug, endpoints))
      && (forall a, b :: a in projects && b in projects && a != b ==> projects[a].Repr !! projects[b].Repr)
    }

    constructor ()
      ensures projects == map[] && Serves([])
    {
      projects := map[];
    }

    method AddProject(project: Project)
      requires Serves([])
      modifies this
      ensures Serves([])
      ensures forall slug :: slug in projects <==> slug in old(projects) || slug == project.slug
      ensures project.slug in projects && projects[project.slug].project == project
      ensures forall slug :: slug in old(projects) && slug != project.slug ==> projects[slug] == old(projects)[slug]
      ensures fresh(projects[project.slug].Repr)
    {
      hide ProjectRoutes.Serves, ProjectRoutes.ServesSlug, RoutesFor;
      var p := new ProjectRoutes(project);
      projects := projects[project.slug := p];
    }

    method AddEndpoint(endpoint: Endpoint, ghost before: seq<Endpoint>)
      requires Serves(before)
      modifies if endpoint.slug in projects then projects[endpoint.slug].Repr else {}
      ensures Serves(before + [endpoint])
      ensures projects == old(projects)
      ensures forall slug :: slug in projects ==> fresh(projects[slug].Repr - old(projects[slug].Repr))
    {
      hide RoutesFor, ProjectRoutes.Serves, ProjectRoutes.ServesSlug;
      if endpoint.slug in projects {
        projects[endpoint.slug].AddEndpoint(endpoint, before);
      }
      forall slug | slug in projects
        ensures projects[slug].trie in projects[slug].Repr
        ensures projects[slug].ServesSlug(slug, before + [endpoint])
      {
        if slug != endpoint.slug {
          assert unchanged(projects[slug].Repr);
          projects[slug].OthersStillServe(slug, endpoint, before);
        }
      }
    }

    /** The table built from a snapshot. Endpoints of a project that is not there are dropped. */
    static method BuildTable(data: seq<Project>, endpoints: seq<Endpoint>) returns (t: Table)
      ensures fresh(t) && t.Serves(endpoints)
      ensures forall slug :: (if slug in t.projects then Some(t.projects[slug].project) else None) == LastWith(data, slug)
    {
      hide Table.Serves;
      t := new Table();
      for i := 0 to |data|
        invariant fresh(t) && t.Serves([])
        invariant forall slug :: (if slug in t.projects then Some(t.projects[slug].project) else None) == LastWith(data[..i], slug)
        invariant forall slug :: slug in t.projects ==> fresh(t.projects[slug].Repr)
      {
        assert data[..i + 1][..i] == data[..i];
        t.AddProject(data[i]);
      }
      assert data[..|data|] == data && endpoints[..0] == [];
      ghost var built := t.projects;
      for i := 0 to |endpoints|
        invariant fresh(t) && t.projects == built && t.Serves(endpoints[..i])
        invariant forall slug :: slug in t.projects ==> fresh(t.projects[slug].Repr)
      {
        assert endpoints[..i + 1] == endpoints[..i] + [endpoints[i]];
        t.AddEndpoint(endpoints[i], endpoints[..i]);
      }
      assert endpoints[..|endpoints|] == endpoints;
    }

    method Lookup(slug: string, verb: string, path: string, unescape: Unescape, ghost endpoints: seq<Endpoint>)
      returns (result: Result)
      requires Serves(endpoints)
      ensures slug !in projects ==> result == NoProject
      ensures slug in projects ==>
                Resolves(projects[slug].project, RoutesFor(endpoints, slug), verb, Decoded(Segments(path), unescape), result)
    {
      hide Resolves, RoutesFor, Segments, Decoded, ProjectRoutes.Serves;
      if slug !in projects {
        return NoProject;
      }
      var segments := SplitRequestPath(path, unescape);
      result := projects[slug].Answer(verb, segments, RoutesFor(endpoints, slug));
    }
  }

  // What the answers mean -------------------------------------------------------------

  /** What the suggestions are chosen from: every route of the project, by verb and path. */
  lemma {:induction false} RefsAre(routes: seq<Route>)
    ensures |RefsOf(routes)| == |routes|
    ensures forall i :: 0 <= i < |routes| ==>
              RefsOf(routes)[i].verb == routes[i].endpoint.verb && RefsOf(routes)[i].path == routes[i].endpoint.path
  {
    if routes != [] {
      RefsAre(routes[..|routes| - 1]);
    }
  }

  lemma {:induction false} KeysAre(routes: seq<Route>)
    ensures |KeysOf(routes)| == |routes|
    ensures forall i :: 0 <= i < |routes| ==> KeysOf(routes)[i] == KeyOf(routes[i])
  {
    hide KeyOf;
    if routes != [] {
      KeysAre(routes[..|routes| - 1]);
    }
  }

  /** One answer per request, and which of the three it is depends only on whether some
      route answers, or at least some pattern matches. */
  lemma AnswersAreDetermined(project: Project, routes: seq<Route>, verb: string, segments: seq<string>, a: Result, b: Result)
    requires Resolves(project, routes, verb, segments, a) && Resolves(project, routes, verb, segments, b)
    ensures a == b
    ensures var ks := KeysOf(routes);
            && (a.Matched? <==> exists k :: k in ks && Eligible(k, verb, segments))
            && (a.NoRoute? <==> forall k :: k in ks ==> !Matches(k.shape, segments))
            && (a.NoRoute? ==> a.nearest == Suggestions(RefsOf(routes), verb, "/" + Join(segments, '/'), 5))
  {
    hide KeysOf, IsAllowList, VerbsBelow, Suggestions, Zipped, ValuesOf, RefsOf, Join, Winner;
    var ks := KeysOf(routes);
    WinnerWins(ks, verb, segments);
    if w :| Winner(ks, verb, segments) == Some(w) {
      assert ks[w] in ks;
    } else if a.WrongMethod? {
      AllowListIsDetermined(a.allow, b.allow, VerbsBelow(ks, segments, []));
    }
  }

  lemma {:induction false} RoutesComeFromEndpoints(endpoints: seq<Endpoint>, slug: string, i: nat) returns (e: nat, j: nat)
    requires i < |RoutesFor(endpoints, slug)|
    ensures e < |endpoints| && endpoints[e].slug == slug
    ensures j < |RoutesOf(endpoints[e])| && RoutesFor(endpoints, slug)[i] == RoutesOf(endpoints[e])[j]
  {
    hide RoutesOf;
    var n := |endpoints| - 1;
    var before := RoutesFor(endpoints[..n], slug);
    if i < |before| {
      e, j := RoutesComeFromEndpoints(endpoints[..n], slug, i);
    } else {
      e, j := n, i - |before|;
    }
  }

  /** Over accepted endpoints, a match is by a route of this project, binds exactly that
      route's own names, and the pattern with its values put back is the request. */
  lemma MatchesGiveBackTheRequest(project: Project, endpoints: seq<Endpoint>, slug: string, verb: string,
                                  segments: seq<string>, result: Result)
    requires forall e :: e in endpoints ==> Accepted(e)
    requires Resolves(project, RoutesFor(endpoints, slug), verb, segments, result) && result.Matched?
    ensures result.route.endpoint.slug == slug
    ensures forall x :: x in result.params <==> x in result.route.params
    ensures Substitute(Segments(result.route.endpoint.path), result.params) == segments
  {
    hide Segments, Accepted, Matchable, WellFormed, RoutesFor, RoutesOf, Winner, Zipped, ValuesOf, Matches, Substitute;
    var routes := RoutesFor(endpoints, slug);
    var ks := KeysOf(routes);
    var w := Winner(ks, verb, segments).value;
    KeysAre(routes);
    var e, j := RoutesComeFromEndpoints(endpoints, slug, w);
    assert endpoints[e] in endpoints;
    RoutesAreMatchable(endpoints[e], j);
    MatchBindsOwnNames(Segments(routes[w].endpoint.path), segments);
  }
}
