/** Strings as the Go code compares, trims, cuts and joins them. A string is a
    sequence of code points; on valid UTF-8 byte order and code point order agree. */
module Text {
  import opened Wrappers

  /** cmp.Compare(a, b) <= 0. */
  predicate AtMost(a: string, b: string) {
    a == [] || (b != [] && (a[0] < b[0] || (a[0] == b[0] && AtMost(a[1..], b[1..]))))
  }

  lemma {:induction false} AtMostTotal(a: string, b: string)
    ensures AtMost(a, b) || AtMost(b, a)
    ensures AtMost(a, b) && AtMost(b, a) ==> a == b
  {
    if a != [] && b != [] {
      AtMostTotal(a[1..], b[1..]);
      assert a == [a[0]] + a[1..] && b == [b[0]] + b[1..];
    }
  }

  /** The order of a dictionary: a prefix comes first, else the first difference decides. */
  lemma {:induction false} AtMostIsDictionary(a: string, b: string)
    ensures AtMost(a, b) <==> a <= b || exists i :: 0 <= i < |a| && i < |b| && a[..i] == b[..i] && a[i] < b[i]
  {
    if a != [] && b != [] {
      forall i | 0 < i <= |a| && i <= |b| && a[..i] == b[..i] ensures a[0] == b[0] {
        SameStart(a, b, i);
      }
      if a[0] == b[0] {
        AtMostIsDictionary(a[1..], b[1..]);
        assert a == [a[0]] + a[1..] && b == [b[0]] + b[1..];
        DifferLater(a, b);
      } else if a[0] < b[0] {
        assert a[..0] == b[..0];
      }
    }
  }

  lemma SameStart(a: string, b: string, i: nat)
    requires 0 < i <= |a| && i <= |b| && a[..i] == b[..i]
    ensures a[0] == b[0]
  {
    assert a[..i][0] == b[..i][0];
  }

  /** Behind an equal first character the first difference is one place further. */
  lemma DifferLater(a: string, b: string)
    requires a != [] && b != [] && a[0] == b[0]
    ensures (exists i :: 0 <= i < |a| && i < |b| && a[..i] == b[..i] && a[i] < b[i])
       <==> exists i :: 0 <= i < |a[1..]| && i < |b[1..]| && a[1..][..i] == b[1..][..i] && a[1..][i] < b[1..][i]
  {
    if i :| 0 <= i < |a| && i < |b| && a[..i] == b[..i] && a[i] < b[i] {
      assert a[1..][..i - 1] == a[..i][1..] && b[1..][..i - 1] == b[..i][1..];
      assert a[1..][i - 1] < b[1..][i - 1];
    }
    if i :| 0 <= i < |a[1..]| && i < |b[1..]| && a[1..][..i] == b[1..][..i] && a[1..][i] < b[1..][i] {
      assert a[..i + 1] == [a[0]] + a[1..][..i] && b[..i + 1] == [b[0]] + b[1..][..i];
      assert a[i + 1] < b[i + 1];
    }
  }

  lemma {:induction false} AtMostTransitive(a: string, b: string, c: string)
    requires AtMost(a, b) && AtMost(b, c)
    ensures AtMost(a, c)
  {
    if a != [] && a[0] == b[0] == c[0] {
      AtMostTransitive(a[1..], b[1..], c[1..]);
    }
  }

  /** unicode.IsSpace. */
  predicate IsSpace(c: char) {
    var n := c as int;
    || 9 <= n <= 13 || n == 32 || n == 0x85 || n == 0xA0 || n == 0x1680 || 0x2000 <= n <= 0x200A
    || n == 0x2028 || n == 0x2029 || n == 0x202F || n == 0x205F || n == 0x3000
  }

  function TrimLeft(s: string): (r: string)
    ensures |r| <= |s| && r == s[|s| - |r|..]
    ensures r != [] ==> !IsSpace(r[0])
  {
    if s != [] && IsSpace(s[0]) then TrimLeft(s[1..]) else s
  }

  function TrimRight(s: string): (r: string)
    ensures |r| <= |s| && r == s[..|r|]
    ensures r != [] ==> !IsSpace(r[|r| - 1])
  {
    if s != [] && IsSpace(s[|s| - 1]) then TrimRight(s[..|s| - 1]) else s
  }

  lemma {:induction false} TrimRightPast(p: string, c: char, rest: string)
    requires !IsSpace(c)
    ensures TrimRight(p + [c] + rest) == p + [c] + TrimRight(rest)
  {
    hide IsSpace, TrimRight;
    var s := p + [c] + rest;
    TrimRightCases(s);
    TrimRightCases(rest);
    if rest == [] {
      assert s == p + [c];
    } else {
      assert s[|s| - 1] == rest[|rest| - 1];
      if IsSpace(rest[|rest| - 1]) {
        TrimRightPast(p, c, rest[..|rest| - 1]);
        assert s[..|s| - 1] == p + [c] + rest[..|rest| - 1];
      }
    }
  }

  lemma TrimRightCases(s: string)
    ensures TrimRight(s) == if s != [] && IsSpace(s[|s| - 1]) then TrimRight(s[..|s| - 1]) else s
  {
  }

  /** What is trimmed off is white space. */
  lemma {:induction false} TrimRightDrops(s: string, i: nat)
    requires |TrimRight(s)| <= i < |s|
    ensures IsSpace(s[i])
  {
    hide IsSpace;
    if i < |s| - 1 {
      TrimRightDrops(s[..|s| - 1], i);
    }
  }

  /** strings.TrimSpace. */
  function TrimSpace(s: string): string {
    TrimRight(TrimLeft(s))
  }

  /** The pieces strings.Split yields; there is always at least one. */
  function Split(s: string, sep: char): (pieces: seq<string>)
    ensures |pieces| > 0
  {
    if s == [] then [""]
    else
      var rest := Split(s[1..], sep);
      if s[0] == sep then [""] + rest else [[s[0]] + rest[0]] + rest[1..]
  }

  lemma {:induction false} SplitContents(s: string, sep: char, p: string)
    requires p in Split(s, sep)
    ensures sep !in p
  {
    if s != [] {
      var rest := Split(s[1..], sep);
      if s[0] == sep {
        if p != "" {
          SplitContents(s[1..], sep, p);
        }
      } else if p == [s[0]] + rest[0] {
        SplitContents(s[1..], sep, rest[0]);
      } else {
        assert p in rest[1..];
        SplitContents(s[1..], sep, p);
      }
    }
  }

  /** strings.Join. */
  function Join(pieces: seq<string>, sep: char): string {
    if pieces == [] then ""
    else if |pieces| == 1 then pieces[0]
    else pieces[0] + [sep] + Join(pieces[1..], sep)
  }

  lemma {:induction false} SplitPlain(s: string, sep: char)
    requires sep !in s
    ensures Split(s, sep) == [s]
  {
    if s != [] {
      SplitPlain(s[1..], sep);
      assert s == [s[0]] + s[1..];
    }
  }

  lemma {:induction false} SplitFirst(p: string, sep: char, rest: string)
    requires sep !in p
    ensures Split(p + [sep] + rest, sep) == [p] + Split(rest, sep)
  {
    var s := p + [sep] + rest;
    if p == [] {
      assert s[1..] == rest;
    } else {
      SplitFirst(p[1..], sep, rest);
      assert s[1..] == p[1..] + [sep] + rest;
      assert p == [p[0]] + p[1..];
    }
  }

  /** Split undoes Join as long as no piece holds the separator. */
  lemma {:induction false} SplitJoin(pieces: seq<string>, sep: char)
    requires pieces != [] && forall p :: p in pieces ==> sep !in p
    ensures Split(Join(pieces, sep), sep) == pieces
  {
    if |pieces| == 1 {
      SplitPlain(pieces[0], sep);
    } else {
      assert pieces == [pieces[0]] + pieces[1..];
      SplitJoin(pieces[1..], sep);
      SplitFirst(pieces[0], sep, Join(pieces[1..], sep));
    }
  }

  /** What one more character in front does to the pieces. */
  function Push(c: char, sep: char, pieces: seq<string>): seq<string>
    requires pieces != []
  {
    if c == sep then [""] + pieces else [[c] + pieces[0]] + pieces[1..]
  }

  lemma SplitCons(c: char, s: string, sep: char)
    ensures Split([c] + s, sep) == Push(c, sep, Split(s, sep))
  {
    assert ([c] + s)[1..] == s;
  }

  lemma SplitEmpty(sep: char)
    ensures Split([], sep) == [""]
  {
  }

  lemma PushAppend(c: char, sep: char, left: seq<string>, right: seq<string>)
    requires left != []
    ensures Push(c, sep, left + right) == Push(c, sep, left) + right
  {
  }

  lemma {:induction false} SplitAppend(s: string, sep: char, t: string)
    ensures Split(s + [sep] + t, sep) == Split(s, sep) + Split(t, sep)
  {
    hide Split;
    if s == [] {
      assert s + [sep] + t == [sep] + t;
      SplitCons(sep, t, sep);
      SplitEmpty(sep);
    } else {
      assert s + [sep] + t == [s[0]] + (s[1..] + [sep] + t) && s == [s[0]] + s[1..];
      SplitAppend(s[1..], sep, t);
      SplitCons(s[0], s[1..] + [sep] + t, sep);
      SplitCons(s[0], s[1..], sep);
      PushAppend(s[0], sep, Split(s[1..], sep), Split(t, sep));
    }
  }

  lemma {:induction false} SplitEndsAlike(s: string, sep: char)
    requires s != [] && s[|s| - 1] != sep
    ensures var pieces := Split(s, sep);
            var last := pieces[|pieces| - 1];
            last != [] && last[|last| - 1] == s[|s| - 1]
  {
    if |s| > 1 {
      SplitEndsAlike(s[1..], sep);
    }
  }

  lemma JoinCons(p: string, pieces: seq<string>, sep: char)
    ensures Join([p] + pieces, sep) == if pieces == [] then p else p + [sep] + Join(pieces, sep)
  {
    assert ([p] + pieces)[1..] == pieces;
  }

  lemma {:induction false} JoinSnoc(pieces: seq<string>, p: string, sep: char)
    ensures Join(pieces + [p], sep) == if pieces == [] then p else Join(pieces, sep) + [sep] + p
  {
    hide Join;
    if pieces == [] {
      JoinCons(p, [], sep);
      assert [] + [p] == [p] + [];
    } else {
      var first, rest := pieces[0], pieces[1..];
      JoinSnoc(rest, p, sep);
      JoinCons(first, rest, sep);
      JoinCons(first, rest + [p], sep);
      assert pieces == [first] + rest && pieces + [p] == [first] + (rest + [p]);
    }
  }

  /** strings.Cut: what lies before and after the first separator. */
  function Cut(s: string, sep: char): Option<(string, string)> {
    if s == "" then None
    else if s[0] == sep then Some(("", s[1..]))
    else
      var rest := Cut(s[1..], sep);
      if rest.None? then None else Some(([s[0]] + rest.value.0, rest.value.1))
  }

  lemma {:induction false} CutFirst(p: string, sep: char, rest: string)
    requires sep !in p
    ensures Cut(p + [sep] + rest, sep) == Some((p, rest))
  {
    var s := p + [sep] + rest;
    if p == "" {
      assert s[1..] == rest;
    } else {
      assert s[1..] == p[1..] + [sep] + rest;
      CutFirst(p[1..], sep, rest);
      assert p == [p[0]] + p[1..];
    }
  }

  /** What is cut is the text around the first separator. */
  lemma {:induction false} CutParts(s: string, sep: char)
    requires Cut(s, sep).Some?
    ensures var (before, after) := Cut(s, sep).value; s == before + [sep] + after && sep !in before
  {
    if s[0] != sep {
      CutParts(s[1..], sep);
      assert s == [s[0]] + s[1..];
    }
  }

  lemma {:induction false} CutNothing(s: string, sep: char)
    requires sep !in s
    ensures Cut(s, sep) == None
  {
    if s != "" {
      CutNothing(s[1..], sep);
      assert s == [s[0]] + s[1..];
    }
  }
}
