/** A collection whose stored path ends in white space: the collection answers where the
    trimmed path says, its documents where the untrimmed one does. */
module Roots {
  import opened Matching
  import opened Paths
  import opened Routes
  import opened Text

  /** One segment below a request of the collection there is a document, unless the stored
      path ends in white space. Then there is one only if the request's last segment is,
      white space and braces included, the text that was typed. */
  lemma DocumentsBelowExactlyWhen(typed: string, root: string, request: seq<string>, id: string)
    requires root == NormalizePath(typed) && Matches(ShapeOf(Segments(root)), request)
    ensures Matches(ShapeOf(Segments(DocumentPath(root))), request + [id])
            <==> (EndsInSpace(root) ==> |request| == |Segments(typed)| && request != [] && Last(request) == Last(Segments(typed)))
  {
    hide Segments, NormalizePath, DocumentPath, IsParam, IsSpace, TrimRight;
    DocumentSegments(typed, root);
    MatchesBelow(Segments(typed), request, id);
    RootKeepsSegments(typed);
    if EndsInSpace(root) {
      SpacedRootMatches(typed, root, request);
    }
  }

  lemma MatchesBelow(segments: seq<string>, request: seq<string>, id: string)
    ensures Matches(ShapeOf(segments + [DOCUMENT_SEGMENT]), request + [id]) <==> Matches(ShapeOf(segments), request)
  {
    hide IsParam;
    DocumentSegmentIsParam();
    var a, b := ShapeOf(segments + [DOCUMENT_SEGMENT]), ShapeOf(segments);
    if |segments| == |request| {
      assert forall i :: 0 <= i < |segments| ==> a[i] == b[i] && (request + [id])[i] == request[i];
      assert StepMatches(a[|segments|], (request + [id])[|segments|]);
    }
  }

  /** The segment that keeps its white space is a literal; before it the two patterns agree. */
  lemma SpacedRootMatches(typed: string, root: string, request: seq<string>)
    requires root == NormalizePath(typed) && EndsInSpace(root) && Matches(ShapeOf(Segments(root)), request)
    ensures var segments := Segments(typed);
            Matches(ShapeOf(segments), request) <==> |request| == |segments| && request != [] && Last(request) == Last(segments)
  {
    hide Segments, NormalizePath, IsParam, IsSpace, TrimRight, ParamNames;
    var segments := Segments(typed);
    SpaceEndsLiteral(typed, root);
    var n := |segments| - 1;
    if |request| == |segments| {
      RootSegments(typed);
      assert ShapeOf(segments)[n] == Lit(Last(segments));
      forall i | 0 <= i < n ensures StepMatches(ShapeOf(segments)[i], request[i]) {
        assert segments[i] == Front(segments)[i] == Segments(root)[i];
        assert StepMatches(ShapeOf(Segments(root))[i], request[i]);
      }
      assert StepMatches(ShapeOf(segments)[n], request[n]) <==> request[n] == Last(segments);
    }
  }

  /** One segment typed between slashes. */
  lemma OneSegment(last: string)
    requires last != "" && '/' !in last
    ensures Segments("/" + last + "/") == [last] && NormalizePath("/" + last + "/") == "/" + last
  {
    hide IsSpace, TrimLeft, TrimRight, Split, NonEmpty;
    var typed := "/" + last + "/";
    assert typed == "/" + (last + "/");
    SlashIsDark();
    TrimSpaceFromSlash(last + "/");
    TrimRightPast(last, '/', "");
    assert TrimRight("") == "";
    LeadingSlash(last + "/");
    assert last + "/" == last + ['/'] + "";
    SplitFirst(last, '/', "");
    SplitEmpty('/');
    NonEmptyAppend([last], [""]);
    NonEmptyOne(last);
    NonEmptyOne("");
    assert Join([last], '/') == last;
  }

  /** A collection typed as "/a /" is listed at /a and has no documents below it. */
  lemma SpacedRootHasNoDocuments(typed: string, id: string)
    requires typed == "/" + "a " + "/"
    ensures var root := NormalizePath(typed);
            && root == "/a " && Segments(root) == ["a"] && Segments(DocumentPath(root)) == ["a ", "{id}"]
            && Matches(ShapeOf(Segments(root)), ["a"])
            && !Matches(ShapeOf(Segments(DocumentPath(root))), ["a", id])
  {
    hide NormalizePath, Segments, DocumentPath;
    OneSegment("a ");
    RootSegments(typed);
    assert TrimRight("a ") == "a";
    DocumentSegments(typed, NormalizePath(typed));
    assert ["a"] + [id] == ["a", id];
    DocumentsBelowExactlyWhen(typed, NormalizePath(typed), ["a"], id);
  }

  lemma BracesAndSpaces()
    ensures WellFormed(["{x}"]) && !IsNamedParam("{x} ") && HasBrace("{x} ")
  {
    assert ParamNames(["{x}"][1..]) == [];
    var spaced := "{x} ";
    assert spaced[0] == '{' && spaced[3] == ' ';
  }

  /** The pattern for the documents of one typed as "/{x} /" is not even well formed. */
  lemma SpacedParameterIsNotWellFormed(typed: string)
    requires typed == "/" + "{x} " + "/"
    ensures WellFormed(Segments(NormalizePath(typed))) && !WellFormed(Segments(DocumentPath(NormalizePath(typed))))
  {
    hide NormalizePath, Segments, DocumentPath, ParamNames, IsNamedParam, HasBrace;
    BracesAndSpaces();
    OneSegment("{x} ");
    RootSegments(typed);
    assert TrimRight("{x} ") == "{x}";
    assert Segments(NormalizePath(typed)) == ["{x}"];
    DocumentSegments(typed, NormalizePath(typed));
    assert Segments(DocumentPath(NormalizePath(typed)))[0] == "{x} ";
  }
}
