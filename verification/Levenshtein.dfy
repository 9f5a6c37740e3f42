/** The edit distance behind the suggestions: the two-row computation, the recursive
    distance it computes, and why that is a distance at all. */
module Levenshtein {

  function Min3(a: nat, b: nat, c: nat): nat {
    if a <= b && a <= c then a else if b <= c then b else c
  }

  function Cost(x: char, y: char): nat {
    if x == y then 0 else 1
  }

  /** The recursive distance between the first `i` characters of `a` and the first `j` of
      `b`; LevIsTheFewestEdits says what it counts. */
  function Edits(a: string, b: string, i: nat, j: nat): nat
    requires i <= |a| && j <= |b|
  {
    if i == 0 then j
    else if j == 0 then i
    else Min3(Edits(a, b, i, j - 1) + 1, Edits(a, b, i - 1, j) + 1, Edits(a, b, i - 1, j - 1) + Cost(a[i - 1], b[j - 1]))
  }

  function Lev(a: string, b: string): nat {
    Edits(a, b, |a|, |b|)
  }

  lemma EditsCases(a: string, b: string, i: nat, j: nat)
    requires 0 < i <= |a| && 0 < j <= |b|
    ensures Edits(a, b, i, j)
         == Min3(Edits(a, b, i, j - 1) + 1, Edits(a, b, i - 1, j) + 1, Edits(a, b, i - 1, j - 1) + Cost(a[i - 1], b[j - 1]))
  {
  }

  lemma EditsFromNothing(a: string, b: string, i: nat, j: nat)
    requires i <= |a| && j <= |b|
    ensures i == 0 ==> Edits(a, b, i, j) == j
    ensures j == 0 ==> Edits(a, b, i, j) == i
  {
  }

  lemma {:induction false} EditsSymmetric(a: string, b: string, i: nat, j: nat)
    requires i <= |a| && j <= |b|
    ensures Edits(a, b, i, j) == Edits(b, a, j, i)
  {
    hide Edits;
    EditsFromNothing(a, b, i, j);
    EditsFromNothing(b, a, j, i);
    if i > 0 && j > 0 {
      EditsCases(a, b, i, j);
      EditsCases(b, a, j, i);
      EditsSymmetric(a, b, i, j - 1);
      EditsSymmetric(a, b, i - 1, j);
      EditsSymmetric(a, b, i - 1, j - 1);
    }
  }

  lemma {:induction false} EditsZero(a: string, b: string, i: nat, j: nat)
    requires i <= |a| && j <= |b|
    ensures Edits(a, b, i, j) == 0 <==> a[..i] == b[..j]
  {
    if i > 0 && j > 0 {
      EditsZero(a, b, i - 1, j - 1);
      assert a[..i] == a[..i - 1] + [a[i - 1]] && b[..j] == b[..j - 1] + [b[j - 1]];
    }
  }

  lemma {:induction false} EditsBounds(a: string, b: string, i: nat, j: nat)
    requires i <= |a| && j <= |b|
    ensures Edits(a, b, i, j) <= i + j && i <= j + Edits(a, b, i, j) && j <= i + Edits(a, b, i, j)
  {
    hide Edits;
    EditsFromNothing(a, b, i, j);
    if i > 0 && j > 0 {
      EditsCases(a, b, i, j);
      EditsBounds(a, b, i, j - 1);
      EditsBounds(a, b, i - 1, j);
      EditsBounds(a, b, i - 1, j - 1);
    }
  }

  lemma {:induction false} EditsTriangle(a: string, b: string, c: string, i: nat, j: nat, k: nat)
    requires i <= |a| && j <= |b| && k <= |c|
    ensures Edits(a, c, i, k) <= Edits(a, b, i, j) + Edits(b, c, j, k)
    decreases i + j + k
  {
    hide Edits;
    EditsBounds(a, b, i, j);
    EditsBounds(b, c, j, k);
    EditsBounds(a, c, i, k);
    if i == 0 || j == 0 || k == 0 {
      EditsFromNothing(a, b, i, j);
      EditsFromNothing(b, c, j, k);
    } else {
      EditsCases(a, b, i, j);
      EditsCases(b, c, j, k);
      EditsCases(a, c, i, k);
      EditsTriangle(a, b, c, i - 1, j, k);
      EditsTriangle(a, b, c, i, j, k - 1);
      EditsTriangle(a, b, c, i, j - 1, k);
      EditsTriangle(a, b, c, i, j - 1, k - 1);
      EditsTriangle(a, b, c, i - 1, j - 1, k);
      EditsTriangle(a, b, c, i - 1, j - 1, k - 1);
    }
  }

  /** It is a distance: zero only between equal strings, the same in both directions,
      and never shortened by going through a third string. */
  lemma LevIsMetric(a: string, b: string, c: string)
    ensures Lev(a, b) == 0 <==> a == b
    ensures Lev(a, b) == Lev(b, a)
    ensures Lev(a, c) <= Lev(a, b) + Lev(b, c)
  {
    EditsZero(a, b, |a|, |b|);
    assert a[..|a|] == a && b[..|b|] == b;
    EditsSymmetric(a, b, |a|, |b|);
    EditsTriangle(a, b, c, |a|, |b|, |c|);
  }

  // What the distance counts ------------------------------------------------------------

  predicate Inserts(s: string, t: string, i: nat) {
    i <= |s| && |t| == |s| + 1 && t[..i] == s[..i] && t[i + 1..] == s[i..]
  }

  predicate Substitutes(s: string, t: string, i: nat) {
    i < |s| == |t| && t[..i] == s[..i] && t[i + 1..] == s[i + 1..]
  }

  /** `t` is `s` with one character inserted, deleted or replaced. */
  ghost predicate OneEdit(s: string, t: string) {
    exists i: nat :: Inserts(s, t, i) || Inserts(t, s, i) || Substitutes(s, t, i)
  }

  /** A way from one string to another, one edit at a time. */
  ghost predicate Turns(steps: seq<string>, a: string, b: string) {
    && steps != [] && steps[0] == a && steps[|steps| - 1] == b
    && forall k :: 0 <= k < |steps| - 1 ==> OneEdit(steps[k], steps[k + 1])
  }

  /** Along equal characters the distance does not grow. */
  lemma {:induction false} EqualTailsAreFree(s: string, t: string, i: nat, j: nat, n: nat)
    requires i + n <= |s| && j + n <= |t| && s[i..i + n] == t[j..j + n]
    ensures Edits(s, t, i + n, j + n) <= Edits(s, t, i, j)
  {
    hide Edits;
    if n > 0 {
      assert s[i..i + n][..n - 1] == s[i..i + n - 1] && t[j..j + n][..n - 1] == t[j..j + n - 1];
      EqualTailsAreFree(s, t, i, j, n - 1);
      assert s[i + n - 1] == s[i..i + n][n - 1] && t[j + n - 1] == t[j..j + n][n - 1];
      EditsCases(s, t, i + n, j + n);
    }
  }

  lemma InsertIsOne(s: string, t: string, i: nat)
    requires Inserts(s, t, i)
    ensures Lev(s, t) <= 1 && Lev(t, s) <= 1
  {
    hide Edits;
    EditsZero(s, t, i, i);
    EditsFromNothing(s, t, i, i + 1);
    if i > 0 {
      EditsCases(s, t, i, i + 1);
    }
    var n := |s| - i;
    assert s[i..i + n] == s[i..] && t[i + 1..i + 1 + n] == t[i + 1..];
    EqualTailsAreFree(s, t, i, i + 1, n);
    EditsSymmetric(s, t, |s|, |t|);
  }

  lemma SubstituteIsOne(s: string, t: string, i: nat)
    requires Substitutes(s, t, i)
    ensures Lev(s, t) <= 1
  {
    hide Edits;
    EditsZero(s, t, i, i);
    EditsCases(s, t, i + 1, i + 1);
    var n := |s| - (i + 1);
    assert s[i + 1..i + 1 + n] == s[i + 1..] && t[i + 1..i + 1 + n] == t[i + 1..];
    EqualTailsAreFree(s, t, i + 1, i + 1, n);
  }

  lemma OneEditIsOne(s: string, t: string)
    requires OneEdit(s, t)
    ensures Lev(s, t) <= 1
  {
    hide Lev, Inserts, Substitutes;
    var i: nat :| Inserts(s, t, i) || Inserts(t, s, i) || Substitutes(s, t, i);
    if Inserts(s, t, i) {
      InsertIsOne(s, t, i);
    } else if Inserts(t, s, i) {
      InsertIsOne(t, s, i);
    } else {
      SubstituteIsOne(s, t, i);
    }
  }

  /** No way is shorter than the distance. */
  lemma {:induction false} NoShorterWay(steps: seq<string>, a: string, b: string)
    requires Turns(steps, a, b)
    ensures Lev(a, b) <= |steps| - 1
  {
    hide Lev, OneEdit;
    LevIsMetric(a, b, b);
    if |steps| > 1 {
      var before := steps[..|steps| - 1];
      var c := before[|before| - 1];
      assert OneEdit(steps[|steps| - 2], steps[|steps| - 1]);
      OneEditIsOne(c, b);
      NoShorterWay(before, a, c);
      LevIsMetric(a, c, b);
    }
  }

  /** Every string of a way with one more character at its end. */
  function Longer(steps: seq<string>, c: char): (r: seq<string>)
    ensures |r| == |steps| && forall k :: 0 <= k < |steps| ==> r[k] == steps[k] + [c]
  {
    seq(|steps|, k requires 0 <= k < |steps| => steps[k] + [c])
  }

  lemma LongerInserts(s: string, t: string, c: char, i: nat)
    requires Inserts(s, t, i)
    ensures Inserts(s + [c], t + [c], i)
  {
    assert (t + [c])[i + 1..] == t[i + 1..] + [c] && (s + [c])[i..] == s[i..] + [c];
    assert (t + [c])[..i] == t[..i] && (s + [c])[..i] == s[..i];
  }

  lemma LongerSubstitutes(s: string, t: string, c: char, i: nat)
    requires Substitutes(s, t, i)
    ensures Substitutes(s + [c], t + [c], i)
  {
    assert (t + [c])[i + 1..] == t[i + 1..] + [c] && (s + [c])[i + 1..] == s[i + 1..] + [c];
    assert (t + [c])[..i] == t[..i] && (s + [c])[..i] == s[..i];
  }

  lemma LongerEdit(s: string, t: string, c: char)
    requires OneEdit(s, t)
    ensures OneEdit(s + [c], t + [c])
  {
    hide Inserts, Substitutes;
    var i: nat :| Inserts(s, t, i) || Inserts(t, s, i) || Substitutes(s, t, i);
    if Inserts(s, t, i) {
      LongerInserts(s, t, c, i);
    } else if Inserts(t, s, i) {
      LongerInserts(t, s, c, i);
    } else {
      LongerSubstitutes(s, t, c, i);
    }
  }

  lemma LongerTurns(steps: seq<string>, a: string, b: string, c: char)
    requires Turns(steps, a, b)
    ensures Turns(Longer(steps, c), a + [c], b + [c])
  {
    hide OneEdit;
    var r := Longer(steps, c);
    forall k | 0 <= k < |r| - 1 ensures OneEdit(r[k], r[k + 1]) {
      LongerEdit(steps[k], steps[k + 1], c);
    }
  }

  lemma LastCharEdits(s: string, x: char, y: char)
    ensures OneEdit(s, s + [x]) && OneEdit(s + [x], s) && OneEdit(s + [x], s + [y])
  {
    assert Inserts(s, s + [x], |s|);
    assert Substitutes(s + [x], s + [y], |s|);
  }

  lemma TurnsSnoc(steps: seq<string>, a: string, b: string, c: string)
    requires Turns(steps, a, b) && OneEdit(b, c)
    ensures Turns(steps + [c], a, c)
  {
    hide OneEdit;
  }

  lemma TurnsCons(steps: seq<string>, a: string, b: string, c: string)
    requires OneEdit(a, b) && Turns(steps, b, c)
    ensures Turns([a] + steps, a, c)
  {
    hide OneEdit;
    var r := [a] + steps;
    forall k | 0 <= k < |r| - 1 ensures OneEdit(r[k], r[k + 1]) {
      assert k > 0 ==> OneEdit(steps[k - 1], steps[k]);
    }
  }

  /** And there is a way of that length: the one the recursion follows. */
  lemma {:induction false} WayOf(a: string, b: string, i: nat, j: nat) returns (steps: seq<string>)
    requires i <= |a| && j <= |b|
    ensures Turns(steps, a[..i], b[..j]) && |steps| == Edits(a, b, i, j) + 1
  {
    hide Edits, OneEdit, Turns;
    EditsFromNothing(a, b, i, j);
    if i == 0 && j == 0 {
      steps := Stay(a[..i]);
    } else if i == 0 || (j > 0 && Edits(a, b, i, j) == Edits(a, b, i, j - 1) + 1) {
      EditsFromNothing(a, b, i, j - 1);
      steps := WayOf(a, b, i, j - 1);
      steps := ThenInsert(steps, a[..i], b, j);
    } else if j == 0 || Edits(a, b, i, j) == Edits(a, b, i - 1, j) + 1 {
      EditsFromNothing(a, b, i - 1, j);
      steps := WayOf(a, b, i - 1, j);
      steps := FirstDelete(steps, a, i, b[..j]);
    } else {
      EditsCases(a, b, i, j);
      steps := WayOf(a, b, i - 1, j - 1);
      steps := ThenMatch(steps, a, b, i, j);
    }
  }

  lemma Stay(a: string) returns (steps: seq<string>)
    ensures Turns(steps, a, a) && |steps| == 1
  {
    steps := [a];
  }

  lemma ThenInsert(before: seq<string>, a: string, b: string, j: nat) returns (steps: seq<string>)
    requires 0 < j <= |b| && Turns(before, a, b[..j - 1])
    ensures Turns(steps, a, b[..j]) && |steps| == |before| + 1
  {
    hide OneEdit, Turns;
    assert b[..j] == b[..j - 1] + [b[j - 1]];
    LastCharEdits(b[..j - 1], b[j - 1], b[j - 1]);
    TurnsSnoc(before, a, b[..j - 1], b[..j]);
    steps := before + [b[..j]];
  }

  lemma FirstDelete(after: seq<string>, a: string, i: nat, b: string) returns (steps: seq<string>)
    requires 0 < i <= |a| && Turns(after, a[..i - 1], b)
    ensures Turns(steps, a[..i], b) && |steps| == |after| + 1
  {
    hide OneEdit, Turns;
    assert a[..i] == a[..i - 1] + [a[i - 1]];
    LastCharEdits(a[..i - 1], a[i - 1], a[i - 1]);
    TurnsCons(after, a[..i], a[..i - 1], b);
    steps := [a[..i]] + after;
  }

  lemma ThenMatch(before: seq<string>, a: string, b: string, i: nat, j: nat) returns (steps: seq<string>)
    requires 0 < i <= |a| && 0 < j <= |b| && Turns(before, a[..i - 1], b[..j - 1])
    ensures Turns(steps, a[..i], b[..j]) && |steps| == |before| + Cost(a[i - 1], b[j - 1])
  {
    hide OneEdit, Turns;
    var x, y := a[i - 1], b[j - 1];
    assert a[..i] == a[..i - 1] + [x] && b[..j] == b[..j - 1] + [y];
    LongerTurns(before, a[..i - 1], b[..j - 1], x);
    steps := Longer(before, x);
    if x != y {
      LastCharEdits(b[..j - 1], x, y);
      TurnsSnoc(steps, a[..i], b[..j - 1] + [x], b[..j]);
      steps := steps + [b[..j]];
    }
  }

  /** The distance is the least number of insertions, deletions and substitutions of single
      characters that turn one string into the other, in whatever order and place. */
  lemma LevIsTheFewestEdits(a: string, b: string)
    ensures exists steps :: Turns(steps, a, b) && |steps| == Lev(a, b) + 1
    ensures forall steps :: Turns(steps, a, b) ==> |steps| >= Lev(a, b) + 1
  {
    hide Turns;
    var steps := WayOf(a, b, |a|, |b|);
    assert a[..|a|] == a && b[..|b|] == b;
    forall other | Turns(other, a, b) ensures |other| >= Lev(a, b) + 1 {
      NoShorterWay(other, a, b);
    }
  }

  /** Row `i` of the table, filled up to column `n`. */
  ghost predicate IsRow(row: array<nat>, a: string, b: string, i: nat, n: nat)
    requires i <= |a|
    reads row
  {
    row.Length == |b| + 1 && n <= row.Length && forall j :: 0 <= j < n ==> row[j] == Edits(a, b, i, j)
  }

  method EditDistance(a: string, b: string) returns (d: nat)
    ensures d == Lev(a, b)
  {
    hide Edits, Min3, Cost;
    var ar, br := a, b;
    EditsSymmetric(a, b, |a|, |b|);
    if |ar| < |br| {
      ar, br := br, ar;
    }
    EditsFromNothing(ar, br, |ar|, |br|);
    if |br| == 0 {
      return |ar|;
    }
    var prev := new nat[|br| + 1];
    var cur := new nat[|br| + 1];
    for j := 0 to prev.Length
      invariant IsRow(prev, ar, br, 0, j)
    {
      EditsFromNothing(ar, br, 0, j);
      prev[j] := j;
    }
    for i := 1 to |ar| + 1
      invariant prev != cur && fresh(prev) && fresh(cur) && cur.Length == prev.Length
      invariant IsRow(prev, ar, br, i - 1, |br| + 1)
    {
      EditsFromNothing(ar, br, i, 0);
      cur[0] := i;
      for j := 1 to |br| + 1
        invariant IsRow(prev, ar, br, i - 1, |br| + 1)
        invariant IsRow(cur, ar, br, i, j)
      {
        EditsCases(ar, br, i, j);
        var cost := Cost(ar[i - 1], br[j - 1]);
        cur[j] := Min3(cur[j - 1] + 1, prev[j] + 1, prev[j - 1] + cost);
      }
      prev, cur := cur, prev;
    }
    d := prev[|br|];
  }
}
