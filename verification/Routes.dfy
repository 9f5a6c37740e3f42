/** One endpoint row becomes one or six routes. */
module Routes {
  import opened Paths
  import opened Text

  datatype Kind = Static | Collection

  /** A stored endpoint. `definition` stands for the columns matching never reads:
      the response, the delay, the collection served. */
  datatype Endpoint = Endpoint(definition: int, slug: string, kind: Kind, verb: string, path: string)

  datatype Op = Respond | List | Create | Get | Replace | Patch | Delete

  datatype Route = Route(endpoint: Endpoint, params: seq<string>, op: Op)

  datatype OpSpec = OpSpec(verb: string, document: bool, op: Op)

  const COLLECTION_OPS: seq<OpSpec> := [
    OpSpec("GET", false, List),
    OpSpec("POST", false, Create),
    OpSpec("GET", true, Get),
    OpSpec("PUT", true, Replace),
    OpSpec("PATCH", true, Patch),
    OpSpec("DELETE", true, Delete)
  ]

  const DOCUMENT_PARAM := "id"

  /** strings.TrimSuffix(root, "/") + "/{id}". */
  function DocumentPath(root: string): string {
    (if root != "" && root[|root| - 1] == '/' then root[..|root| - 1] else root) + "/{" + DOCUMENT_PARAM + "}"
  }

  function RouteAt(endpoint: Endpoint, verb: string, path: string, op: Op): Route {
    Route(endpoint.(verb := verb, path := path), ParamNames(Segments(path)), op)
  }

  function CollectionRoutes(endpoint: Endpoint, ops: seq<OpSpec>): seq<Route> {
    if ops == [] then []
    else
      var spec := ops[|ops| - 1];
      CollectionRoutes(endpoint, ops[..|ops| - 1])
      + [RouteAt(endpoint, spec.verb, if spec.document then DocumentPath(endpoint.path) else endpoint.path, spec.op)]
  }

  function RoutesOf(endpoint: Endpoint): seq<Route> {
    if endpoint.kind == Static then [RouteAt(endpoint, endpoint.verb, endpoint.path, Respond)]
    else CollectionRoutes(endpoint, COLLECTION_OPS)
  }

  method ExpandCollection(endpoint: Endpoint, ops: seq<OpSpec>) returns (routes: seq<Route>)
    ensures routes == CollectionRoutes(endpoint, ops)
  {
    var document := DocumentPath(endpoint.path);
    routes := [];
    for i := 0 to |ops|
      invariant routes == CollectionRoutes(endpoint, ops[..i])
    {
      var spec := ops[i];
      var path := if spec.document then document else endpoint.path;
      var names := PathParams(path);
      assert ops[..i + 1][..i] == ops[..i];
      routes := routes + [Route(endpoint.(verb := spec.verb, path := path), names, spec.op)];
    }
    assert ops[..|ops|] == ops;
  }

  method Expand(endpoint: Endpoint) returns (routes: seq<Route>)
    ensures routes == RoutesOf(endpoint)
  {
    if endpoint.kind == Static {
      var names := PathParams(endpoint.path);
      return [Route(endpoint, names, Respond)];
    }
    routes := ExpandCollection(endpoint, COLLECTION_OPS);
  }

  /** The verb and the path of a route of a collection, and what it does. */
  predicate Does(r: Route, verb: string, path: string, op: Op) {
    r.endpoint.verb == verb && r.endpoint.path == path && r.op == op
  }

  /** A collection is listed with GET and added to with POST at its root, and below it a
      document is read with GET, replaced with PUT, merged into with PATCH and removed with
      DELETE; nothing else is served, and nothing but the response of a static endpoint. */
  lemma CollectionAnswers(endpoint: Endpoint)
    ensures var routes, root, document := RoutesOf(endpoint), endpoint.path, DocumentPath(endpoint.path);
            if endpoint.kind == Static then
              |routes| == 1 && Does(routes[0], endpoint.verb, root, Respond)
            else
              && |routes| == 6
              && Does(routes[0], "GET", root, List) && Does(routes[1], "POST", root, Create)
              && Does(routes[2], "GET", document, Get) && Does(routes[3], "PUT", document, Replace)
              && Does(routes[4], "PATCH", document, Patch) && Does(routes[5], "DELETE", document, Delete)
  {
    hide DocumentPath, Does, RouteAt;
    if endpoint.kind == Collection {
      CollectionDoes(endpoint, 0);
      CollectionDoes(endpoint, 1);
      CollectionDoes(endpoint, 2);
      CollectionDoes(endpoint, 3);
      CollectionDoes(endpoint, 4);
      CollectionDoes(endpoint, 5);
    } else {
      RouteDoes(endpoint, endpoint.verb, endpoint.path, Respond);
    }
  }

  lemma CollectionDoes(endpoint: Endpoint, i: nat)
    requires endpoint.kind == Collection && i < 6
    ensures |RoutesOf(endpoint)| == 6
    ensures var spec := COLLECTION_OPS[i];
            Does(RoutesOf(endpoint)[i], spec.verb, if spec.document then DocumentPath(endpoint.path) else endpoint.path, spec.op)
  {
    hide CollectionRoutes, RouteAt, DocumentPath;
    CollectionRoutesAre(endpoint, COLLECTION_OPS, i);
    var spec := COLLECTION_OPS[i];
    RouteDoes(endpoint, spec.verb, if spec.document then DocumentPath(endpoint.path) else endpoint.path, spec.op);
  }

  lemma RouteDoes(endpoint: Endpoint, verb: string, path: string, op: Op)
    ensures Does(RouteAt(endpoint, verb, path, op), verb, path, op)
  {
  }

  // What a stored row expands to --------------------------------------------------

  /** A row as the store accepts it: the path is the canonical form of what was typed, and
      well formed; for a collection, without the parameter the expansion adds. */
  ghost predicate Accepted(endpoint: Endpoint) {
    && (exists typed :: endpoint.path == NormalizePath(typed))
    && WellFormed(Segments(endpoint.path))
    && (endpoint.kind == Collection ==> DOCUMENT_PARAM !in ParamNames(Segments(endpoint.path)))
  }

  const DOCUMENT_SEGMENT := "{id}"

  lemma DocumentSegmentIsParam()
    ensures IsNamedParam(DOCUMENT_SEGMENT) && ParamName(DOCUMENT_SEGMENT) == DOCUMENT_PARAM
    ensures '/' !in DOCUMENT_SEGMENT && DOCUMENT_SEGMENT != "" && TrimRight(DOCUMENT_SEGMENT) == DOCUMENT_SEGMENT
  {
  }

  /** The root ends as its last segment does. */
  lemma RootEnd(typed: string)
    ensures NormalizePath(typed) != ""
    ensures var root, segments := NormalizePath(typed), Segments(typed);
            if segments == [] then root == "/"
            else Last(segments) != "" && root[|root| - 1] == Last(segments)[|Last(segments)| - 1] != '/'
  {
    hide Segments, Join;
    var segments := Segments(typed);
    SegmentsContents(typed);
    if segments == [] {
      JoinOfNone();
    } else {
      assert Last(segments) in segments;
      JoinEnd(segments);
      assert Last(segments)[|Last(segments)| - 1] in Last(segments);
    }
  }

  lemma DocumentPathJoins(typed: string)
    ensures DocumentPath(NormalizePath(typed)) == "/" + Join(Segments(typed) + [DOCUMENT_SEGMENT], '/')
  {
    hide Segments, Join;
    var segments := Segments(typed);
    RootEnd(typed);
    JoinSnoc(segments, DOCUMENT_SEGMENT, '/');
    JoinOfNone();
  }

  /** What an accepted root splits into: the segments that were typed, but for white space
      at the very end. */
  lemma RootSegments(typed: string)
    ensures var segments := Segments(typed);
            Segments(NormalizePath(typed))
            == if segments == [] then []
               else Front(segments) + if TrimRight(Last(segments)) == "" then [] else [TrimRight(Last(segments))]
  {
    hide Segments, Join, TrimRight;
    SegmentsArePlain(typed);
    if Segments(typed) == [] {
      JoinOfNone();
      assert NormalizePath(typed) == "/";
      SegmentsOfRoot();
    } else {
      SegmentsOfJoined(Segments(typed));
    }
  }

  /** The routes for a single document sit one segment below what was typed, and so one
      segment below the collection exactly when its stored path does not end in white space. */
  lemma DocumentSegments(typed: string, root: string)
    requires root == NormalizePath(typed)
    ensures Segments(DocumentPath(root)) == Segments(typed) + [DOCUMENT_SEGMENT]
    ensures Segments(DocumentPath(root)) == Segments(root) + [DOCUMENT_SEGMENT] <==> !EndsInSpace(root)
  {
    hide Segments, Join, TrimRight, IsSpace, NormalizePath, DocumentPath;
    var segments := Segments(typed);
    var all := segments + [DOCUMENT_SEGMENT];
    DocumentSegmentIsParam();
    DocumentPathJoins(typed);
    SegmentsArePlain(typed);
    assert Front(all) == segments;
    SegmentsOfJoined(all);
    RootKeepsSegments(typed);
    assert segments + [DOCUMENT_SEGMENT] == Segments(root) + [DOCUMENT_SEGMENT] ==> segments == Segments(root) by {
      assert all[..|all| - 1] == segments;
      assert (Segments(root) + [DOCUMENT_SEGMENT])[..|Segments(root)|] == Segments(root);
    }
  }

  lemma RootKeepsSegments(typed: string)
    ensures Segments(NormalizePath(typed)) == Segments(typed) <==> !EndsInSpace(NormalizePath(typed))
  {
    hide Segments, TrimRight, IsSpace, NormalizePath;
    var segments := Segments(typed);
    RootEnd(typed);
    RootSegments(typed);
    SlashIsDark();
    if segments != [] {
      var front, t := Front(segments), TrimRight(Last(segments));
      TrimRightKeepsExactly(Last(segments));
      assert segments == front + [Last(segments)];
      assert t != "" ==> Segments(NormalizePath(typed))[|front|] == t;
    }
  }

  lemma SlashIsDark()
    ensures !IsSpace('/')
  {
  }

  /** Even then the matcher has what it relies on. */
  lemma DocumentMatchable(typed: string, root: string)
    requires root == NormalizePath(typed) && WellFormed(Segments(root)) && DOCUMENT_PARAM !in ParamNames(Segments(root))
    ensures Matchable(Segments(DocumentPath(root)))
  {
    hide Segments, NormalizePath, DocumentPath, ParamNames, IsNameStart, IsNameChar, IsSpace;
    var segments := Segments(typed);
    DocumentSegments(typed, root);
    DocumentSegmentIsParam();
    ParamNamesSnoc(segments, DOCUMENT_SEGMENT);
    RootEnd(typed);
    RootKeepsSegments(typed);
    WellFormedIsMatchable(Segments(root));
    if EndsInSpace(root) {
      SpaceEndsLiteral(typed, root);
    }
  }

  /** A last segment that ends in white space is a literal; the ones before it are the root's. */
  lemma SpaceEndsLiteral(typed: string, root: string)
    requires root == NormalizePath(typed) && EndsInSpace(root)
    ensures var segments := Segments(typed);
            && segments != [] && !IsParam(Last(segments))
            && Front(segments) <= Segments(root)
            && ParamNames(segments) <= ParamNames(Segments(root))
            && segments == Front(segments) + [Last(segments)]
  {
    hide Segments, NormalizePath, ParamNames, IsNameStart, IsNameChar, IsSpace, TrimRight;
    var segments := Segments(typed);
    BraceIsDark();
    RootEnd(typed);
    RootSegments(typed);
    SlashIsDark();
    var front := Front(segments);
    assert segments == front + [Last(segments)];
    assert Segments(root)[..|front|] == front;
    assert Segments(root) == front + Segments(root)[|front|..];
    ParamNamesSnoc(front, Last(segments));
    ParamNamesAppend(front, Segments(root)[|front|..]);
  }

  lemma BraceIsDark()
    ensures !IsSpace('}') && !IsSpace('{')
  {
  }

  predicate EndsInBrace(s: string) {
    s != "" && s[|s| - 1] == '}'
  }

  /** A document pattern is well formed unless what it stands below is a parameter followed
      by white space. */
  lemma DocumentWellFormedExactlyWhen(typed: string, root: string)
    requires root == NormalizePath(typed) && WellFormed(Segments(root)) && DOCUMENT_PARAM !in ParamNames(Segments(root))
    ensures WellFormed(Segments(DocumentPath(root))) <==> !(EndsInSpace(root) && EndsInBrace(TrimRight(root)))
  {
    hide Segments, NormalizePath, DocumentPath, ParamNames, TrimRight, HasBrace, IsNamedParam, EndsInSpace, EndsInBrace;
    var segments, all := Segments(typed), Segments(DocumentPath(root));
    DocumentSegments(typed, root);
    DocumentSegmentIsParam();
    DocumentMatchable(typed, root);
    RootKeepsSegments(typed);
    if EndsInSpace(root) {
      SpaceEndsLiteral(typed, root);
      var last := Last(segments);
      NamedIsParam(last);
      LastBrace(typed, root);
      assert last in all;
      forall s | s in all && s != last ensures IsNamedParam(s) || !HasBrace(s) {
        assert s in Front(segments) || s == DOCUMENT_SEGMENT;
        assert s in Front(segments) ==> s in Segments(root);
      }
    }
  }

  lemma NamedIsParam(s: string)
    ensures IsNamedParam(s) ==> IsParam(s)
  {
  }

  /** Such a segment holds a brace exactly when it is a parameter but for its white space. */
  lemma LastBrace(typed: string, root: string)
    requires root == NormalizePath(typed) && EndsInSpace(root) && WellFormed(Segments(root)) && Segments(typed) != []
    ensures HasBrace(Last(Segments(typed))) <==> EndsInBrace(TrimRight(root))
  {
    hide Segments, NormalizePath, ParamNames, IsNameStart, IsNameChar, IsSpace, TrimRight;
    var segments := Segments(typed);
    var last := Last(segments);
    var t := TrimRight(last);
    RootSegments(typed);
    TrimmedRootEnd(typed);
    BraceIsDark();
    forall i | |t| <= i < |last| ensures last[i] != '{' && last[i] != '}' {
      TrimRightDrops(last, i);
    }
    assert last[..|t|] == t;
    assert HasBrace(last) <==> HasBrace(t) by {
      forall c | c == '{' || c == '}' ensures c in last <==> c in t {
        assert forall i :: 0 <= i < |t| ==> last[i] == t[i];
      }
    }
    if t != "" {
      assert t in Segments(root);
      assert t[|t| - 1] in t;
    }
  }

  lemma TrimmedRootEnd(typed: string)
    requires Segments(typed) != []
    ensures var r, t := TrimRight(NormalizePath(typed)), TrimRight(Last(Segments(typed)));
            r != "" && r[|r| - 1] == if t == "" then '/' else t[|t| - 1]
  {
    hide Segments, Join, TrimRight, IsSpace;
    var segments := Segments(typed);
    var front, last := Front(segments), Last(segments);
    SlashIsDark();
    assert segments == front + [last];
    JoinSnoc(front, last, '/');
    var before := if front == [] then "" else "/" + Join(front, '/');
    assert NormalizePath(typed) == before + ['/'] + last;
    TrimRightPast(before, '/', last);
  }

  /** Every route of an accepted row carries its own names, and its pattern is one the
      matcher can work with. It is well formed too, except for the document routes of a
      collection whose path ends in a parameter followed by white space. */
  lemma RoutesAreMatchable(endpoint: Endpoint, i: nat)
    requires Accepted(endpoint) && i < |RoutesOf(endpoint)|
    ensures var r := RoutesOf(endpoint)[i];
            && Matchable(Segments(r.endpoint.path))
            && r.params == ParamNames(Segments(r.endpoint.path))
            && r.endpoint.slug == endpoint.slug && r.endpoint.definition == endpoint.definition
            && (WellFormed(Segments(r.endpoint.path)) <==>
                  r.endpoint.path == endpoint.path || !(EndsInSpace(endpoint.path) && EndsInBrace(TrimRight(endpoint.path))))
  {
    hide Segments, WellFormed, NormalizePath, Matchable, EndsInSpace, EndsInBrace, TrimRight, DocumentPath;
    var typed :| endpoint.path == NormalizePath(typed);
    WellFormedIsMatchable(Segments(endpoint.path));
    if endpoint.kind == Collection {
      DocumentMatchable(typed, endpoint.path);
      DocumentWellFormedExactlyWhen(typed, endpoint.path);
      DocumentPathDiffers(endpoint.path);
      CollectionRoutesAre(endpoint, COLLECTION_OPS, i);
    }
  }

  lemma DocumentPathDiffers(root: string)
    ensures DocumentPath(root) != root
  {
    assert |DocumentPath(root)| > |root|;
  }

  lemma {:induction false} CollectionRoutesAre(endpoint: Endpoint, ops: seq<OpSpec>, i: nat)
    ensures |CollectionRoutes(endpoint, ops)| == |ops|
    ensures i < |ops| ==>
              (var path := if ops[i].document then DocumentPath(endpoint.path) else endpoint.path;
               CollectionRoutes(endpoint, ops)[i] == RouteAt(endpoint, ops[i].verb, path, ops[i].op))
  {
    hide RouteAt;
    if ops != [] {
      CollectionRoutesAre(endpoint, ops[..|ops| - 1], i);
    }
  }
}
