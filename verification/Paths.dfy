/** Path patterns and request paths: splitting, the canonical stored form, named
    parameters, and what a pattern has to look like to be stored. */
module Paths {
  import opened Text
  import opened Wrappers

  const MAX_PATH_LEN := 512
  const MAX_PATH_SEGMENTS := 32

  function NonEmpty(pieces: seq<string>): seq<string> {
    if pieces == [] then []
    else if pieces[0] == "" then NonEmpty(pieces[1..])
    else [pieces[0]] + NonEmpty(pieces[1..])
  }

  /** The segments of a path: what lies between its slashes, empty pieces dropped. */
  function Segments(path: string): seq<string> {
    NonEmpty(Split(TrimSpace(path), '/'))
  }

  lemma {:induction false} NonEmptyContents(pieces: seq<string>, s: string)
    ensures s in NonEmpty(pieces) <==> s in pieces && s != ""
  {
    if pieces != [] {
      NonEmptyContents(pieces[1..], s);
      assert pieces == [pieces[0]] + pieces[1..];
    }
  }

  lemma {:induction false} NonEmptyAppend(a: seq<string>, b: seq<string>)
    ensures NonEmpty(a + b) == NonEmpty(a) + NonEmpty(b)
  {
    if a == [] {
      assert a + b == b;
    } else {
      assert (a + b)[0] == a[0] && (a + b)[1..] == a[1..] + b;
      NonEmptyAppend(a[1..], b);
    }
  }

  lemma NonEmptySnoc(pieces: seq<string>, p: string)
    ensures NonEmpty(pieces + [p]) == if p == "" then NonEmpty(pieces) else NonEmpty(pieces) + [p]
  {
    NonEmptyAppend(pieces, [p]);
  }

  lemma SegmentsContents(path: string)
    ensures forall s :: s in Segments(path) ==> s != "" && '/' !in s
  {
    forall s | s in Segments(path) ensures s != "" && '/' !in s {
      NonEmptyContents(Split(TrimSpace(path), '/'), s);
      SplitContents(TrimSpace(path), '/', s);
    }
  }

  method DropEmpty(pieces: seq<string>) returns (segments: seq<string>)
    ensures segments == NonEmpty(pieces)
  {
    segments := [];
    for i := 0 to |pieces|
      invariant segments == NonEmpty(pieces[..i])
    {
      assert pieces[..i + 1] == pieces[..i] + [pieces[i]];
      NonEmptySnoc(pieces[..i], pieces[i]);
      if pieces[i] != "" {
        segments := segments + [pieces[i]];
      }
    }
    assert pieces[..|pieces|] == pieces;
  }

  method SplitPath(path: string) returns (segments: seq<string>)
    ensures segments == Segments(path)
  {
    segments := DropEmpty(Split(TrimSpace(path), '/'));
  }

  /** The canonical form of a pattern, the only form stored. */
  function NormalizePath(path: string): string {
    "/" + Join(Segments(path), '/')
  }

  /** The trie's test: braces around at least one character. */
  predicate IsParam(segment: string) {
    |segment| > 2 && segment[0] == '{' && segment[|segment| - 1] == '}'
  }

  predicate IsNameStart(c: char) {
    'A' <= c <= 'Z' || 'a' <= c <= 'z' || c == '_'
  }

  predicate IsNameChar(c: char) {
    IsNameStart(c) || '0' <= c <= '9'
  }

  /** paramPattern: braces around an identifier. */
  predicate IsNamedParam(segment: string) {
    && IsParam(segment)
    && IsNameStart(segment[1])
    && forall i :: 1 <= i < |segment| - 1 ==> IsNameChar(segment[i])
  }

  function ParamName(segment: string): string
    requires IsParam(segment)
  {
    segment[1..|segment| - 1]
  }

  function ParamNames(segments: seq<string>): seq<string> {
    if segments == [] then []
    else if IsNamedParam(segments[0]) then [ParamName(segments[0])] + ParamNames(segments[1..])
    else ParamNames(segments[1..])
  }

  lemma {:induction false} ParamNamesAppend(a: seq<string>, b: seq<string>)
    ensures ParamNames(a + b) == ParamNames(a) + ParamNames(b)
  {
    if a == [] {
      assert a + b == b;
    } else {
      assert (a + b)[0] == a[0] && (a + b)[1..] == a[1..] + b;
      ParamNamesAppend(a[1..], b);
    }
  }

  lemma ParamNamesSnoc(segments: seq<string>, s: string)
    ensures ParamNames(segments + [s])
         == if IsNamedParam(s) then ParamNames(segments) + [ParamName(s)] else ParamNames(segments)
  {
    ParamNamesAppend(segments, [s]);
  }

  method CollectNames(segments: seq<string>) returns (names: seq<string>)
    ensures names == ParamNames(segments)
  {
    names := [];
    for i := 0 to |segments|
      invariant names == ParamNames(segments[..i])
    {
      assert segments[..i + 1] == segments[..i] + [segments[i]];
      ParamNamesSnoc(segments[..i], segments[i]);
      if IsNamedParam(segments[i]) {
        names := names + [ParamName(segments[i])];
      }
    }
    assert segments[..|segments|] == segments;
  }

  method PathParams(pattern: string) returns (names: seq<string>)
    ensures names == ParamNames(Segments(pattern))
  {
    var segments := SplitPath(pattern);
    names := CollectNames(segments);
  }

  // Validation -----------------------------------------------------------------

  datatype PathError = TooLong | TooManySegments | HasControl | HasQuery | RepeatedParam(name: string) | PartialParam

  /** len(path): the bytes of its UTF-8 encoding. */
  function Utf8Len(s: string): nat {
    if s == [] then 0
    else (if s[0] < '\U{80}' then 1 else if s[0] < '\U{800}' then 2 else if s[0] < '\U{10000}' then 3 else 4)
         + Utf8Len(s[1..])
  }

  predicate IsControl(c: char) {
    c < ' ' || c == '\U{7F}'
  }

  predicate HasBrace(segment: string) {
    '{' in segment || '}' in segment
  }

  /** A pattern the matcher can build a trie from: a parameter is a whole segment
      and no two parameters share a name. */
  ghost predicate WellFormed(segments: seq<string>) {
    && (forall s :: s in segments ==> IsNamedParam(s) || !HasBrace(s))
    && Distinct(ParamNames(segments))
  }

  ghost predicate Distinct<T>(s: seq<T>) {
    forall i, j :: 0 <= i < j < |s| ==> s[i] != s[j]
  }

  method ValidatePath(path: string) returns (err: Option<PathError>)
    ensures err == Some(TooLong) <==> Utf8Len(path) > 512
    ensures err == Some(TooManySegments) <==> Utf8Len(path) <= 512 && |Segments(path)| > 32
    ensures err == Some(HasControl) <==>
      Utf8Len(path) <= 512 && |Segments(path)| <= 32 && exists i :: 0 <= i < |path| && IsControl(path[i])
    ensures err == Some(HasQuery) <==>
      && Utf8Len(path) <= 512 && |Segments(path)| <= 32 && (forall i :: 0 <= i < |path| ==> !IsControl(path[i]))
      && ('?' in path || '#' in path)
    ensures err.None? <==>
      && Utf8Len(path) <= 512
      && |Segments(path)| <= 32
      && (forall c :: c in path ==> !IsControl(c) && c != '?' && c != '#')
      && WellFormed(Segments(path))
  {
    var segments := SplitPath(path);
    if Utf8Len(path) > MAX_PATH_LEN {
      return Some(TooLong);
    } else if |segments| > MAX_PATH_SEGMENTS {
      return Some(TooManySegments);
    } else if exists i :: 0 <= i < |path| && IsControl(path[i]) {
      return Some(HasControl);
    } else if '?' in path || '#' in path {
      return Some(HasQuery);
    }
    var seen: set<string> := {};
    for i := 0 to |segments|
      invariant forall s :: s in segments[..i] ==> IsNamedParam(s) || !HasBrace(s)
      invariant forall n :: n in seen <==> n in ParamNames(segments[..i])
      invariant Distinct(ParamNames(segments[..i]))
    {
      assert segments[..i + 1] == segments[..i] + [segments[i]];
      ParamNamesSnoc(segments[..i], segments[i]);
      if IsNamedParam(segments[i]) {
        var name := ParamName(segments[i]);
        if name in seen {
          RepeatIsNotDistinct(segments, i);
          return Some(RepeatedParam(name));
        }
        seen := seen + {name};
      } else if HasBrace(segments[i]) {
        return Some(PartialParam);
      }
    }
    assert segments[..|segments|] == segments;
    return None;
  }

  lemma RepeatIsNotDistinct(segments: seq<string>, i: nat)
    requires i < |segments| && IsNamedParam(segments[i]) && ParamName(segments[i]) in ParamNames(segments[..i])
    ensures !Distinct(ParamNames(segments))
  {
    hide ParamNames, IsNameStart, IsNameChar;
    var before, name, rest := segments[..i], ParamName(segments[i]), segments[i + 1..];
    assert segments == before + [segments[i]] + rest;
    ParamNamesSnoc(before, segments[i]);
    ParamNamesAppend(before + [segments[i]], rest);
    var names := ParamNames(before);
    var k :| 0 <= k < |names| && names[k] == name;
    assert (names + [name] + ParamNames(rest))[k] == (names + [name] + ParamNames(rest))[|names|];
  }

  /** What the matcher relies on: the trie's brace test and the identifier test agree on
      every segment, and no two parameters share a name. */
  ghost predicate Matchable(segments: seq<string>) {
    && (forall s :: s in segments ==> (IsParam(s) <==> IsNamedParam(s)))
    && Distinct(ParamNames(segments))
  }

  lemma WellFormedIsMatchable(segments: seq<string>)
    requires WellFormed(segments)
    ensures Matchable(segments)
  {
    hide IsNameStart, IsNameChar, ParamNames;
    forall s | s in segments && IsParam(s) ensures IsNamedParam(s) {
      assert s[0] in s;
    }
  }

  // The canonical form -----------------------------------------------------------

  lemma {:induction false} NonEmptyPlain(pieces: seq<string>)
    requires "" !in pieces
    ensures NonEmpty(pieces) == pieces
  {
    if pieces != [] {
      NonEmptyPlain(pieces[1..]);
      assert pieces == [pieces[0]] + pieces[1..];
    }
  }

  lemma TrimSpaceFromSlash(rest: string)
    ensures TrimSpace("/" + rest) == "/" + TrimRight(rest)
  {
    var s := "/" + rest;
    assert TrimLeft(s) == s;
    TrimRightAfter('/', rest);
  }

  lemma TrimRightAfter(c: char, rest: string)
    requires !IsSpace(c)
    ensures TrimRight([c] + rest) == [c] + TrimRight(rest)
  {
    hide TrimRight, IsSpace;
    TrimRightPast([], c, rest);
    assert [] + [c] + rest == [c] + rest;
  }

  lemma SegmentsFromSlash(rest: string)
    ensures Segments("/" + rest) == NonEmpty(Split(TrimRight(rest), '/'))
  {
    hide TrimLeft, TrimRight, IsSpace, Split, NonEmpty, TrimSpace;
    TrimSpaceFromSlash(rest);
    LeadingSlash(TrimRight(rest));
  }

  lemma LeadingSlash(t: string)
    ensures NonEmpty(Split("/" + t, '/')) == NonEmpty(Split(t, '/'))
  {
    SplitFirst([], '/', t);
    assert [] + ['/'] + t == "/" + t;
    assert ([[]] + Split(t, '/'))[1..] == Split(t, '/');
  }

  lemma {:induction false} JoinEnd(pieces: seq<string>)
    requires pieces != [] && pieces[|pieces| - 1] != ""
    ensures var s, last := Join(pieces, '/'), pieces[|pieces| - 1];
            s != "" && s[|s| - 1] == last[|last| - 1]
  {
    if |pieces| > 1 {
      JoinEnd(pieces[1..]);
    }
  }

  /** Pieces without slashes, none empty: what a path splits into. */
  ghost predicate Plain(segments: seq<string>) {
    forall s :: s in segments ==> s != "" && '/' !in s
  }

  lemma SegmentsArePlain(path: string)
    ensures Plain(Segments(path))
  {
    SegmentsContents(path);
  }

  function Front(segments: seq<string>): seq<string>
    requires segments != []
  {
    segments[..|segments| - 1]
  }

  function Last(segments: seq<string>): string
    requires segments != []
  {
    segments[|segments| - 1]
  }

  /** A canonical form split again: white space at its end is gone, and the last segment
      with it if there was nothing else to it. */
  lemma SegmentsOfJoined(segments: seq<string>)
    requires segments != [] && Plain(segments)
    ensures Segments("/" + Join(segments, '/'))
         == Front(segments) + if TrimRight(Last(segments)) == "" then [] else [TrimRight(Last(segments))]
  {
    hide Segments, TrimRight, Split, Join, NonEmpty;
    var front, last := Front(segments), Last(segments);
    var t := TrimRight(last);
    assert segments == front + [last];
    assert last in segments;
    SegmentsFromSlash(Join(segments, '/'));
    JoinSnoc(front, last, '/');
    SplitPlain(t, '/');
    NonEmptyOne(t);
    if front != [] {
      FrontIsPlain(segments);
      TrimRightPast(Join(front, '/'), '/', last);
      SplitAppend(Join(front, '/'), '/', t);
      SplitJoin(front, '/');
      NonEmptyAppend(front, [t]);
      NonEmptyPlain(front);
    }
  }

  lemma FrontIsPlain(segments: seq<string>)
    requires segments != [] && Plain(segments)
    ensures Plain(Front(segments))
  {
    forall s | s in Front(segments) ensures s in segments {
    }
  }

  lemma NonEmptyOne(t: string)
    ensures NonEmpty([t]) == if t == "" then [] else [t]
  {
    assert [t][1..] == [];
  }

  lemma SegmentsOfRoot()
    ensures Segments("/") == []
  {
    SegmentsFromSlash("");
    assert "/" + "" == "/";
    assert NonEmpty([""]) == NonEmpty([]);
  }

  predicate EndsInSpace(s: string) {
    s != "" && IsSpace(s[|s| - 1])
  }

  function DropSlashes(s: string): string {
    if s != [] && s[|s| - 1] == '/' then DropSlashes(s[..|s| - 1]) else s
  }

  lemma {:induction false} LastSegment(s: string)
    ensures var segments, t := NonEmpty(Split(s, '/')), DropSlashes(s);
            if t == "" then segments == []
            else segments != [] && segments[|segments| - 1] != ""
                 && var last := segments[|segments| - 1]; last[|last| - 1] == t[|t| - 1]
  {
    hide Split, NonEmpty;
    SplitEmpty('/');
    NonEmptyOne("");
    if s != [] {
      if s[|s| - 1] == '/' {
        var t := s[..|s| - 1];
        LastSegment(t);
        assert s == t + ['/'] + "";
        SplitAppend(t, '/', "");
        NonEmptyAppend(Split(t, '/'), [""]);
      } else {
        SplitEndsAlike(s, '/');
        var pieces := Split(s, '/');
        NonEmptyAppend(pieces[..|pieces| - 1], [pieces[|pieces| - 1]]);
        assert pieces == pieces[..|pieces| - 1] + [pieces[|pieces| - 1]];
        NonEmptyOne(pieces[|pieces| - 1]);
      }
    }
  }

  lemma LastSegmentOf(path: string)
    ensures var segments := Segments(path);
            (segments == [] || !EndsInSpace(Last(segments))) <==> !EndsInSpace(DropSlashes(TrimSpace(path)))
  {
    hide TrimSpace, DropSlashes, Split, NonEmpty, IsSpace;
    LastSegment(TrimSpace(path));
  }

  /** Normalising twice is normalising once exactly when, outer white space and then
      trailing slashes removed, the path does not end in white space again. */
  lemma NormalizeIdempotence(path: string)
    ensures NormalizePath(NormalizePath(path)) == NormalizePath(path)
            <==> !EndsInSpace(DropSlashes(TrimSpace(path)))
  {
    hide Segments, TrimSpace, DropSlashes, Join, IsSpace, Plain;
    LastSegmentOf(path);
    SegmentsArePlain(path);
    CanonicalIsStable(Segments(path));
  }

  lemma CanonicalIsStable(segments: seq<string>)
    requires Plain(segments)
    ensures var canonical := "/" + Join(segments, '/');
            NormalizePath(canonical) == canonical <==> segments == [] || !EndsInSpace(Last(segments))
  {
    hide Segments, Join, TrimRight, IsSpace;
    if segments == [] {
      JoinOfNone();
      assert "/" + Join(segments, '/') == "/";
      SegmentsOfRoot();
    } else {
      var front, last := Front(segments), Last(segments);
      SegmentsOfJoined(segments);
      TrimRightKeepsExactly(last);
      assert segments == front + [last];
      JoinSnoc(front, last, '/');
      var t := TrimRight(last);
      if t == "" {
        JoinOfNone();
        assert NormalizePath("/" + Join(segments, '/')) == "/" + Join(front, '/') by {
          assert front + [] == front;
        }
        assert last in segments && |Join(front, '/')| < |Join(segments, '/')|;
      } else {
        JoinSnoc(front, t, '/');
        assert NormalizePath("/" + Join(segments, '/')) == "/" + Join(front + [t], '/');
      }
    }
  }

  lemma TrimRightKeepsExactly(s: string)
    ensures TrimRight(s) == s <==> !EndsInSpace(s)
    ensures TrimRight(s) != s ==> |TrimRight(s)| < |s|
  {
  }

  lemma JoinOfNone()
    ensures Join([], '/') == ""
  {
  }

  /** The pattern stored for "/a /" keeps a space that storing it again would drop. */
  lemma NormalizeTwiceDiffers(path: string)
    requires path == "/a /"
    ensures NormalizePath(NormalizePath(path)) != NormalizePath(path)
  {
    assert TrimLeft(path) == path;
    assert TrimSpace(path) == path;
    assert DropSlashes(path) == path[..3];
    NormalizeIdempotence(path);
  }
}
