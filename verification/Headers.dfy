/** Response headers as the form shows them, one "Name: value" per line, and read back. */
module Headers {
  import opened Sets
  import opened Sorting
  import opened Text
  import opened Wrappers

  type HeaderMap = map<string, string>

  /** textproto.CanonicalMIMEHeaderKey: all that is used of it is that it is idempotent. */
  type Canonical = string -> string

  ghost predicate Idempotent(canonical: Canonical) {
    forall s :: canonical(canonical(s)) == canonical(s)
  }

  /** A character of a token, section 5.6.2 of RFC 9110. */
  predicate IsTokenChar(c: char) {
    var n := c as int;
    || 48 <= n <= 57 || 65 <= n <= 90 || 97 <= n <= 122
    || n == 33 || 35 <= n <= 39 || n == 42 || n == 43 || n == 45 || n == 46 || n == 94 || n == 95 || n == 96 || n == 124 || n == 126
  }

  predicate ValidName(name: string) {
    name != "" && forall i :: 0 <= i < |name| ==> IsTokenChar(name[i])
  }

  /** What validateHeaders asks of each header for the lines to be readable at all. */
  ghost predicate Acceptable(h: HeaderMap) {
    forall name :: name in h ==> ValidName(name) && '\r' !in h[name] && '\n' !in h[name]
  }

  function Line(name: string, value: string): string {
    name + ": " + value
  }

  function LinesOf(names: seq<string>, h: HeaderMap): (lines: seq<string>)
    requires forall i :: 0 <= i < |names| ==> names[i] in h
    ensures |lines| == |names| && forall i :: 0 <= i < |names| ==> lines[i] == names[i] + ": " + h[names[i]]
  {
    seq(|names|, i requires 0 <= i < |names| => Line(names[i], h[names[i]]))
  }

  /** The names of the map, each once, sorted. */
  ghost predicate SortedNames(names: seq<string>, h: HeaderMap) {
    multiset(names) == multiset(h.Keys) && Ordered(names, AtMost)
  }

  lemma AtMostIsTotalOrder()
    ensures TotalOrder(AtMost)
  {
    forall a, b ensures (AtMost(a, b) || AtMost(b, a)) && (AtMost(a, b) && AtMost(b, a) ==> a == b) {
      AtMostTotal(a, b);
    }
    forall a, b, c | AtMost(a, b) && AtMost(b, c) ensures AtMost(a, c) {
      AtMostTransitive(a, b, c);
    }
  }

  /** Editing an endpoint twice without touching its headers shows the same text twice. */
  lemma SortedNamesAreDetermined(a: seq<string>, b: seq<string>, h: HeaderMap)
    requires SortedNames(a, h) && SortedNames(b, h)
    ensures a == b
  {
    AtMostIsTotalOrder();
    OrderedIsUnique(a, b, AtMost);
  }

  lemma NamesAreKeys(names: seq<string>, h: HeaderMap)
    requires SortedNames(names, h)
    ensures forall n :: n in names <==> n in h
    ensures forall i, j :: 0 <= i < j < |names| ==> names[i] != names[j]
  {
    ListedOnce(names, h.Keys);
  }

  method CollectNames(h: HeaderMap) returns (names: seq<string>)
    ensures SortedNames(names, h)
  {
    names := [];
    var left := h.Keys;
    while left != {}
      invariant multiset(names) + multiset(left) == multiset(h.Keys)
    {
      var name :| name in left;
      names := names + [name];
      left := left - {name};
    }
    AtMostIsTotalOrder();
    SortOrders(names, AtMost);
    names := Sort(names, AtMost);
  }

  /** The lines of a header set; SortedNamesAreDetermined says there is one such text. */
  ghost predicate Prints(text: string, names: seq<string>, h: HeaderMap) {
    SortedNames(names, h) && (forall i :: 0 <= i < |names| ==> names[i] in h) && text == Join(LinesOf(names, h), '\n')
  }

  method Lines(h: HeaderMap) returns (text: string)
    ensures exists names :: Prints(text, names, h)
  {
    hide Join, Sort, AtMost, SortedNames, LinesOf;
    var sorted := CollectNames(h);
    NamesAreKeys(sorted, h);
    text := Join(LinesOf([], h), '\n');
    JoinNothing('\n');
    for i := 0 to |sorted|
      invariant text == Join(LinesOf(sorted[..i], h), '\n')
    {
      var line := Line(sorted[i], h[sorted[i]]);
      OneMoreLine(sorted, h, i);
      text := if i > 0 then text + "\n" + line else text + line;
    }
    assert sorted[..|sorted|] == sorted;
    assert Prints(text, sorted, h);
  }

  lemma OneMoreLine(names: seq<string>, h: HeaderMap, i: nat)
    requires i < |names| && forall k :: 0 <= k < |names| ==> names[k] in h
    ensures var before := LinesOf(names[..i], h);
            (i == 0 ==> before == [])
            && Join(LinesOf(names[..i + 1], h), '\n')
               == if i == 0 then Line(names[i], h[names[i]]) else Join(before, '\n') + "\n" + Line(names[i], h[names[i]])
  {
    hide Join;
    var before, line := LinesOf(names[..i], h), Line(names[i], h[names[i]]);
    assert LinesOf(names[..i + 1], h) == before + [line];
    JoinSnoc(before, line, '\n');
  }

  lemma JoinNothing(sep: char)
    ensures Join([], sep) == ""
  {
  }

  // Reading -------------------------------------------------------------------------------------

  function TrimCrLf(s: string): string {
    if s != "" && (s[|s| - 1] == '\r' || s[|s| - 1] == '\n') then TrimCrLf(s[..|s| - 1]) else s
  }

  /** What one line says: a name and a value, or the whole line for a name if there is no
      colon; a blank line says nothing. */
  function ReadEntry(raw: string, canonical: Canonical): Option<(string, string)> {
    var line := TrimCrLf(raw);
    if TrimSpace(line) == "" then None
    else
      match Cut(line, ':')
      case None => Some((TrimSpace(line), ""))
      case Some((name, value)) => Some((canonical(TrimSpace(name)), TrimSpace(value)))
  }

  function ReadLine(headers: HeaderMap, raw: string, canonical: Canonical): HeaderMap {
    match ReadEntry(raw, canonical)
    case None => headers
    case Some((name, value)) => headers[name := value]
  }

  function ReadLines(lines: seq<string>, canonical: Canonical): HeaderMap {
    if lines == [] then map[] else ReadLine(ReadLines(lines[..|lines| - 1], canonical), lines[|lines| - 1], canonical)
  }

  /** The pieces between line feeds; the empty one strings.Lines does not yield at the end
      is blank and is passed over. */
  method ParseHeaderLines(s: string, canonical: Canonical) returns (headers: HeaderMap)
    ensures headers == ReadLines(Split(s, '\n'), canonical)
  {
    headers := ReadAll(Split(s, '\n'), canonical);
  }

  method ReadAll(lines: seq<string>, canonical: Canonical) returns (headers: HeaderMap)
    ensures headers == ReadLines(lines, canonical)
  {
    hide TrimSpace, TrimCrLf, Cut;
    headers := map[];
    for i := 0 to |lines|
      invariant headers == ReadLines(lines[..i], canonical)
    {
      assert lines[..i + 1][..i] == lines[..i];
      var line := TrimCrLf(lines[i]);
      if TrimSpace(line) == "" {
        continue;
      }
      match Cut(line, ':') {
        case None => headers := headers[TrimSpace(line) := ""];
        case Some((name, value)) => headers := headers[canonical(TrimSpace(name)) := TrimSpace(value)];
      }
    }
    assert lines[..|lines|] == lines;
  }

  /** A name has the value of the last line that says it; one that no line says is not there. */
  lemma {:induction false} LaterLinesWin(lines: seq<string>, canonical: Canonical, name: string)
    ensures name in ReadLines(lines, canonical) <==> exists i :: 0 <= i < |lines| && Says(lines[i], canonical, name)
    ensures forall i ::
              0 <= i < |lines| && Says(lines[i], canonical, name) && (forall j :: i < j < |lines| ==> !Says(lines[j], canonical, name))
              ==> name in ReadLines(lines, canonical) && ReadLines(lines, canonical)[name] == ReadEntry(lines[i], canonical).value.1
  {
    hide ReadEntry;
    if lines != [] {
      LaterLinesWin(lines[..|lines| - 1], canonical, name);
    }
  }

  predicate Says(raw: string, canonical: Canonical, name: string) {
    var entry := ReadEntry(raw, canonical); entry.Some? && entry.value.0 == name
  }

  /** A line without a colon is kept as it stands, for the validation to name it; one with a
      colon gives a canonical name and a value, both without white space around them. */
  lemma LinesAreCutAtTheColon(name: string, value: string, canonical: Canonical)
    requires '\n' !in name && '\r' !in name && TrimSpace(name) != "" && ':' !in name
    requires '\n' !in value && '\r' !in value
    ensures ReadEntry(name, canonical) == Some((TrimSpace(name), ""))
    ensures ReadEntry(name + ":" + value, canonical) == Some((canonical(TrimSpace(name)), TrimSpace(value)))
  {
    hide TrimSpace, Cut;
    CutNothing(name, ':');
    CutFirst(name, ':', value);
    var line := name + ":" + value;
    assert line == name + [':'] + value;
    assert line[|line| - 1] == if value == "" then ':' else value[|value| - 1];
    NotBlank(name, value);
    BlankName();
  }

  lemma BlankName()
    ensures TrimSpace("") == ""
  {
  }

  lemma NotBlank(name: string, value: string)
    ensures TrimSpace(name + ":" + value) != ""
  {
    hide IsSpace, TrimLeft, TrimRight;
    var s := name + ":" + value;
    assert s[|name|] == ':';
    ColonIsDark();
    TrimLeftKeepsDark(s, |name|);
    KeepsDark(TrimLeft(s));
  }

  lemma ColonIsDark()
    ensures !IsSpace(':')
  {
  }

  lemma {:induction false} TrimLeftKeepsDark(s: string, i: nat)
    requires i < |s| && !IsSpace(s[i])
    ensures TrimLeft(s) != ""
  {
    hide IsSpace;
    if IsSpace(s[0]) {
      TrimLeftKeepsDark(s[1..], i - 1);
    }
  }

  lemma TokenHasNoSpace(name: string)
    requires ValidName(name)
    ensures ':' !in name && '\n' !in name && '\r' !in name && TrimSpace(name) == name && !IsSpace(name[0])
  {
    hide IsTokenChar, IsSpace;
    forall i | 0 <= i < |name| ensures !IsSpace(name[i]) && name[i] != ':' && name[i] != '\n' && name[i] != '\r' {
      TokenCharIsDark(name[i]);
    }
    assert TrimLeft(name) == name;
  }

  lemma TokenCharIsDark(c: char)
    requires IsTokenChar(c)
    ensures !IsSpace(c) && c != ':' && c != '\n' && c != '\r'
  {
  }

  lemma TrimSpaceAfterSpace(s: string)
    ensures TrimSpace(" " + s) == TrimSpace(s)
  {
    var t := " " + s;
    assert IsSpace(t[0]) && t[1..] == s;
  }

  lemma StartsDark(s: string)
    requires s != "" && !IsSpace(s[0])
    ensures TrimSpace(s) != ""
  {
    assert TrimLeft(s) == s;
    assert s == [s[0]] + s[1..];
    KeepsDark(s);
  }

  lemma {:induction false} KeepsDark(s: string)
    requires s != "" && !IsSpace(s[0])
    ensures TrimRight(s) != ""
  {
    if |s| > 1 && IsSpace(s[|s| - 1]) {
      KeepsDark(s[..|s| - 1]);
    }
  }

  lemma LineReads(headers: HeaderMap, name: string, value: string, canonical: Canonical)
    requires ValidName(name) && '\r' !in value && '\n' !in value
    ensures ReadLine(headers, Line(name, value), canonical) == headers[canonical(name) := TrimSpace(value)]
  {
    hide TrimSpace, Cut, ValidName;
    var line := Line(name, value);
    TokenHasNoSpace(name);
    assert name != "" by {
      NameIsSomething(name);
    }
    assert line[|line| - 1] == if value == "" then ' ' else value[|value| - 1];
    assert TrimCrLf(line) == line;
    StartsDark(line);
    assert line == name + [':'] + (" " + value);
    CutFirst(name, ':', " " + value);
    TrimSpaceAfterSpace(value);
  }

  lemma NameIsSomething(name: string)
    requires ValidName(name)
    ensures name != ""
  {
  }

  function Folded(names: seq<string>, h: HeaderMap, canonical: Canonical): HeaderMap
    requires forall i :: 0 <= i < |names| ==> names[i] in h
  {
    if names == [] then map[]
    else
      var n := |names| - 1;
      Folded(names[..n], h, canonical)[canonical(names[n]) := TrimSpace(h[names[n]])]
  }

  lemma {:induction false} LinesRead(names: seq<string>, h: HeaderMap, canonical: Canonical)
    requires Acceptable(h) && forall i :: 0 <= i < |names| ==> names[i] in h
    ensures ReadLines(LinesOf(names, h), canonical) == Folded(names, h, canonical)
  {
    hide ReadLine, TrimSpace, ValidName, Line;
    if names != [] {
      var n := |names| - 1;
      LinesRead(names[..n], h, canonical);
      var lines := LinesOf(names, h);
      assert lines[..n] == LinesOf(names[..n], h);
      LineReads(Folded(names[..n], h, canonical), names[n], h[names[n]], canonical);
    }
  }

  lemma LinesAreSingle(names: seq<string>, h: HeaderMap)
    requires Acceptable(h) && names != [] && forall i :: 0 <= i < |names| ==> names[i] in h
    ensures Split(Join(LinesOf(names, h), '\n'), '\n') == LinesOf(names, h)
  {
    hide ValidName, Split, Join;
    forall line | line in LinesOf(names, h) ensures '\n' !in line {
      var i :| 0 <= i < |names| && LinesOf(names, h)[i] == line;
      TokenHasNoSpace(names[i]);
    }
    SplitJoin(LinesOf(names, h), '\n');
  }

  lemma {:induction false} FoldedKeys(names: seq<string>, h: HeaderMap, canonical: Canonical, k: string)
    requires forall i :: 0 <= i < |names| ==> names[i] in h
    ensures k in Folded(names, h, canonical) <==> exists i :: 0 <= i < |names| && canonical(names[i]) == k
  {
    hide TrimSpace;
    if names != [] {
      var n := |names| - 1;
      FoldedKeys(names[..n], h, canonical, k);
    }
  }

  lemma {:induction false} FoldedValues(names: seq<string>, h: HeaderMap, canonical: Canonical, i: nat)
    requires forall i :: 0 <= i < |names| ==> names[i] in h && canonical(names[i]) == names[i]
    requires forall i, j :: 0 <= i < j < |names| ==> names[i] != names[j]
    requires i < |names|
    ensures names[i] in Folded(names, h, canonical) && Folded(names, h, canonical)[names[i]] == TrimSpace(h[names[i]])
  {
    hide TrimSpace;
    if i < |names| - 1 {
      FoldedValues(names[..|names| - 1], h, canonical, i);
    }
  }

  /** Headers that were accepted read back as they were exactly when their names are in
      canonical form and their values carry no outer white space. */
  lemma HeadersRoundTrip(text: string, names: seq<string>, h: HeaderMap, canonical: Canonical)
    requires Acceptable(h) && Prints(text, names, h) && Idempotent(canonical)
    ensures ReadLines(Split(text, '\n'), canonical) == h
            <==> forall name :: name in h ==> canonical(name) == name && TrimSpace(h[name]) == h[name]
  {
    hide TrimSpace, Split, Join, ReadLines, Acceptable;
    NamesAreKeys(names, h);
    LinesRead(names, h, canonical);
    if names == [] {
      assert h.Keys == {};
      NothingReads(canonical);
    } else {
      LinesAreSingle(names, h);
      FoldedIsOriginal(names, h, canonical);
    }
  }

  lemma NothingReads(canonical: Canonical)
    ensures forall h :: ReadLines(Split(Join(LinesOf([], h), '\n'), '\n'), canonical) == map[]
  {
    assert forall h :: LinesOf([], h) == [];
    assert Split("", '\n') == [""];
    assert TrimSpace("") == "";
    assert ReadLines([""], canonical) == ReadLine(ReadLines([], canonical), "", canonical) by {
      assert [""][..0] == [];
    }
  }

  lemma FoldedIsOriginal(names: seq<string>, h: HeaderMap, canonical: Canonical)
    requires Idempotent(canonical)
    requires forall n :: n in names <==> n in h
    requires forall i :: 0 <= i < |names| ==> names[i] in h
    requires forall i, j :: 0 <= i < j < |names| ==> names[i] != names[j]
    ensures Folded(names, h, canonical) == h
            <==> forall name :: name in h ==> canonical(name) == name && TrimSpace(h[name]) == h[name]
  {
    hide TrimSpace, Folded;
    var folded := Folded(names, h, canonical);
    forall k ensures k in folded <==> exists i :: 0 <= i < |names| && canonical(names[i]) == k {
      FoldedKeys(names, h, canonical, k);
    }
    if forall name :: name in h ==> canonical(name) == name {
      forall name | name in h ensures name in folded && folded[name] == TrimSpace(h[name]) {
        var i :| 0 <= i < |names| && names[i] == name;
        FoldedValues(names, h, canonical, i);
      }
      assert folded.Keys == h.Keys;
    }
  }
}
