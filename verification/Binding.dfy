/** What the parameters of a matched pattern are bound to. */
module Binding {
  import opened Matching
  import opened Paths

  /** The first `n` names with the first `n` values; a later name wins over an equal earlier one. */
  function ZipTo(names: seq<string>, values: seq<string>, n: nat): map<string, string>
    requires n <= |names| && n <= |values|
  {
    if n == 0 then map[] else ZipTo(names, values, n - 1)[names[n - 1] := values[n - 1]]
  }

  /** Names paired with values; the shorter list decides how many. */
  function Zipped(names: seq<string>, values: seq<string>): map<string, string> {
    ZipTo(names, values, if |names| < |values| then |names| else |values|)
  }

  method Zip(names: seq<string>, values: seq<string>) returns (params: map<string, string>)
    ensures params == Zipped(names, values)
  {
    params := map[];
    for i := 0 to |names|
      invariant params == ZipTo(names, values, if i < |values| then i else |values|)
    {
      if i >= |values| {
        break;
      }
      params := params[names[i] := values[i]];
    }
  }

  /** A pattern with its parameters replaced by what they are bound to. */
  function Substitute(pattern: seq<string>, params: map<string, string>): (r: seq<string>)
    ensures |r| == |pattern|
  {
    if pattern == [] then []
    else
      var s := pattern[0];
      [if IsNamedParam(s) && ParamName(s) in params then params[ParamName(s)] else s] + Substitute(pattern[1..], params)
  }

  lemma {:induction false} SubstituteAt(pattern: seq<string>, params: map<string, string>, i: nat)
    requires i < |pattern|
    ensures Substitute(pattern, params)[i]
         == if IsNamedParam(pattern[i]) && ParamName(pattern[i]) in params then params[ParamName(pattern[i])] else pattern[i]
  {
    if i > 0 {
      SubstituteAt(pattern[1..], params, i - 1);
    }
  }

  lemma {:induction false} ZipToBinds(names: seq<string>, values: seq<string>, n: nat, j: nat)
    requires j < n <= |names| && n <= |values| && Distinct(names)
    ensures names[j] in ZipTo(names, values, n) && ZipTo(names, values, n)[names[j]] == values[j]
  {
    if j < n - 1 {
      ZipToBinds(names, values, n - 1, j);
    }
  }

  lemma {:induction false} ZipToKeys(names: seq<string>, values: seq<string>, n: nat, x: string)
    requires n <= |names| && n <= |values|
    ensures x in ZipTo(names, values, n) <==> x in names[..n]
  {
    if n > 0 {
      ZipToKeys(names, values, n - 1, x);
      assert names[..n] == names[..n - 1] + [names[n - 1]];
    }
  }

  /** After `n` segments of a pattern, as many names as values, and each value is the
      request segment at its parameter's position. */
  lemma {:induction false} NamesMeetValues(pattern: seq<string>, segments: seq<string>, n: nat)
    requires n <= |pattern| == |segments|
    requires forall s :: s in pattern ==> (IsParam(s) <==> IsNamedParam(s))
    ensures |ParamNames(pattern[..n])| == |ValuesOf(ShapeOf(pattern)[..n], segments)|
    ensures forall i :: 0 <= i < n && IsNamedParam(pattern[i]) ==>
              Bound(ParamNames(pattern[..n]), ValuesOf(ShapeOf(pattern)[..n], segments), ParamName(pattern[i]), segments[i])
  {
    hide IsParam, IsNamedParam, Bound, ParamNames, ValuesOf;
    if n == 0 {
      assert pattern[..0] == [] && ShapeOf(pattern)[..0] == [];
      NothingBound(segments);
    } else {
      var m := n - 1;
      var shape := ShapeOf(pattern);
      NamesMeetValues(pattern, segments, m);
      OneMoreSegment(pattern, segments, m);
      var names, values := ParamNames(pattern[..n]), ValuesOf(shape[..n], segments);
      var names', values' := ParamNames(pattern[..m]), ValuesOf(shape[..m], segments);
      forall i | 0 <= i < n && IsNamedParam(pattern[i]) ensures Bound(names, values, ParamName(pattern[i]), segments[i]) {
        if i < m {
          assert Bound(names', values', ParamName(pattern[i]), segments[i]);
          BoundStays(names', values', names, values, ParamName(pattern[i]), segments[i]);
        } else {
          LastIsBound(names, values);
        }
      }
    }
  }

  lemma NothingBound(segments: seq<string>)
    ensures ParamNames([]) == [] && ValuesOf([], segments) == []
  {
  }

  /** A parameter adds its name and its value, a literal adds neither. */
  lemma OneMoreSegment(pattern: seq<string>, segments: seq<string>, m: nat)
    requires m < |pattern| == |segments| && (IsParam(pattern[m]) <==> IsNamedParam(pattern[m]))
    ensures var names, values := ParamNames(pattern[..m]), ValuesOf(ShapeOf(pattern)[..m], segments);
            && ParamNames(pattern[..m + 1]) == names + (if IsNamedParam(pattern[m]) then [ParamName(pattern[m])] else [])
            && ValuesOf(ShapeOf(pattern)[..m + 1], segments) == values + (if IsNamedParam(pattern[m]) then [segments[m]] else [])
  {
    hide IsParam, IsNamedParam, ParamNames;
    var shape := ShapeOf(pattern);
    assert pattern[..m + 1] == pattern[..m] + [pattern[m]] && shape[..m + 1][..m] == shape[..m];
    ParamNamesSnoc(pattern[..m], pattern[m]);
  }

  lemma LastIsBound(names: seq<string>, values: seq<string>)
    requires |names| == |values| > 0
    ensures Bound(names, values, names[|names| - 1], values[|values| - 1])
  {
  }

  /** A name stands beside a value. */
  ghost predicate Bound(names: seq<string>, values: seq<string>, name: string, value: string) {
    exists j :: 0 <= j < |names| && j < |values| && names[j] == name && values[j] == value
  }

  lemma BoundStays(names': seq<string>, values': seq<string>, names: seq<string>, values: seq<string>, name: string, value: string)
    requires names' <= names && values' <= values && Bound(names', values', name, value)
    ensures Bound(names, values, name, value)
  {
    var j :| 0 <= j < |names'| && j < |values'| && names'[j] == name && values'[j] == value;
    assert names[j] == name && values[j] == value;
  }

  lemma BoundIsGiven(names: seq<string>, values: seq<string>, name: string, value: string)
    requires Distinct(names) && |names| == |values| && Bound(names, values, name, value)
    ensures name in Zipped(names, values) && Zipped(names, values)[name] == value
  {
    var j :| 0 <= j < |names| && j < |values| && names[j] == name && values[j] == value;
    ZipToBinds(names, values, |names|, j);
  }

  /** A match binds exactly the pattern's own names, never runs out
      of values, and putting the values back gives the request. */
  lemma MatchBindsOwnNames(pattern: seq<string>, segments: seq<string>)
    requires Matchable(pattern) && Matches(ShapeOf(pattern), segments)
    ensures var names, values := ParamNames(pattern), ValuesOf(ShapeOf(pattern), segments);
            && |names| == |values|
            && (forall x :: x in Zipped(names, values) <==> x in names)
            && Substitute(pattern, Zipped(names, values)) == segments
  {
    hide IsParam, IsNamedParam, Bound, Distinct, Substitute;
    var n := |pattern|;
    var shape := ShapeOf(pattern);
    assert pattern[..n] == pattern && shape[..n] == shape;
    NamesMeetValues(pattern, segments, n);
    var names, values := ParamNames(pattern), ValuesOf(shape, segments);
    var params := Zipped(names, values);
    forall x ensures x in params <==> x in names {
      ZipToKeys(names, values, |names|, x);
      assert names[..|names|] == names;
    }
    forall i | 0 <= i < n ensures Substitute(pattern, params)[i] == segments[i] {
      SubstituteAt(pattern, params, i);
      assert pattern[i] in pattern && StepMatches(shape[i], segments[i]);
      if IsNamedParam(pattern[i]) {
        BoundIsGiven(names, values, ParamName(pattern[i]), segments[i]);
      }
    }
  }
}
