/** Which routes can never answer: exactly the ones the table reports as shadowed. */
module Shadowing {
  import opened Matching
  import opened Wrappers

  /** A segment longer than every literal of every pattern, so that it is none of them. */
  function Longest(shape: Shape): nat {
    if shape == [] then 0
    else
      var rest := Longest(shape[..|shape| - 1]);
      match shape[|shape| - 1]
      case Lit(text) => if |text| > rest then |text| else rest
      case Par => rest
  }

  function LongestOf(ks: seq<Keyed>): nat {
    if ks == [] then 0
    else
      var rest, last := LongestOf(ks[..|ks| - 1]), Longest(ks[|ks| - 1].shape);
      if last > rest then last else rest
  }

  lemma {:induction false} LongestBounds(shape: Shape, i: nat)
    requires i < |shape| && shape[i].Lit?
    ensures |shape[i].text| <= Longest(shape)
  {
    if i < |shape| - 1 {
      LongestBounds(shape[..|shape| - 1], i);
    }
  }

  lemma {:induction false} LongestOfBounds(ks: seq<Keyed>, j: nat, i: nat)
    requires j < |ks| && i < |ks[j].shape| && ks[j].shape[i].Lit?
    ensures |ks[j].shape[i].text| <= LongestOf(ks)
  {
    if j < |ks| - 1 {
      LongestOfBounds(ks[..|ks| - 1], j, i);
    } else {
      LongestBounds(ks[j].shape, i);
    }
  }

  /** A request only this shape's own literals and parameters can account for. */
  function Sample(shape: Shape, unused: string): (segments: seq<string>)
    ensures |segments| == |shape|
    ensures forall i :: 0 <= i < |shape| ==> segments[i] == if shape[i].Lit? then shape[i].text else unused
  {
    seq(|shape|, i requires 0 <= i < |shape| => if shape[i].Lit? then shape[i].text else unused)
  }

  /** Every other pattern that matches the sample has parameters at least where `shape` has. */
  lemma {:induction false} SampleFavours(shape: Shape, other: Shape, unused: string, n: nat)
    requires n <= |shape| == |other| && shape[..n] == other[..n]
    requires Matches(other, Sample(shape, unused))
    requires forall i :: 0 <= i < |other| && other[i].Lit? ==> other[i].text != unused
    ensures other == shape || ShapeBefore(shape, other)
    decreases |shape| - n
  {
    if n == |shape| {
      assert shape == shape[..n] && other == other[..n];
    } else {
      assert StepMatches(other[n], Sample(shape, unused)[n]);
      if shape[n] == other[n] {
        assert shape[..n + 1] == shape[..n] + [shape[n]] && other[..n + 1] == other[..n] + [other[n]];
        SampleFavours(shape, other, unused, n + 1);
      }
    }
  }

  /** Inserting a route reports it as shadowed exactly when no request will ever be answered
      by it, whatever is inserted afterwards: no route is silently dead. */
  lemma ShadowedExactlyWhenDead(ks: seq<Keyed>, j: nat)
    requires j < |ks|
    ensures Holder(ks[..j], ks[j]).Some? <==> !exists verb, segments :: IsWinner(ks, verb, segments, j)
  {
    hide FirstAt, IsWinner;
    var first := FirstAt(ks, ks[j].shape, ks[j].Verb());
    HolderIsFirst(ks, j);
    assert first.Some? by {
      assert ks[j] in ks;
    }
    if first == Some(j) {
      FirstWinsItsSample(ks, j);
    } else {
      forall verb, segments ensures !IsWinner(ks, verb, segments, j) {
        LaterTwinLoses(ks, verb, segments, first.value, j);
      }
    }
  }

  lemma HolderIsFirst(ks: seq<Keyed>, j: nat)
    requires j < |ks|
    ensures Holder(ks[..j], ks[j]).None? <==> FirstAt(ks, ks[j].shape, ks[j].Verb()) == Some(j)
  {
    hide FirstAt;
    var before, all := FirstAt(ks[..j], ks[j].shape, ks[j].Verb()), FirstAt(ks, ks[j].shape, ks[j].Verb());
    assert ks[j] in ks;
    assert forall i :: 0 <= i < j ==> ks[..j][i] == ks[i] && ks[i] in ks[..j];
  }

  lemma LaterTwinLoses(ks: seq<Keyed>, verb: string, segments: seq<string>, i: nat, j: nat)
    requires i < j < |ks| && ks[i].shape == ks[j].shape && ks[i].Verb() == ks[j].Verb()
    ensures !IsWinner(ks, verb, segments, j)
  {
    ShapeBeforeAsymmetric(ks[i].shape, ks[j].shape);
  }

  lemma FavouredBeats(ks: seq<Keyed>, verb: string, j: nat, i: nat)
    requires j < |ks| && i < |ks| && i != j && verb == ks[j].Verb()
    requires FirstAt(ks, ks[j].shape, verb) == Some(j)
    requires ks[i].shape == ks[j].shape || ShapeBefore(ks[j].shape, ks[i].shape)
    ensures Beats(ks, verb, j, i)
  {
    hide ShapeBefore;
  }

  lemma FirstWinsItsSample(ks: seq<Keyed>, j: nat)
    requires j < |ks| && FirstAt(ks, ks[j].shape, ks[j].Verb()) == Some(j)
    ensures exists verb, segments :: IsWinner(ks, verb, segments, j)
  {
    hide FirstAt, LongestOf, Precedes, ShapeBefore;
    var unused := seq(LongestOf(ks) + 1, _ => 'x');
    var shape, verb := ks[j].shape, ks[j].Verb();
    var segments := Sample(shape, unused);
    assert Eligible(ks[j], verb, segments);
    forall i | 0 <= i < |ks| && i != j && Eligible(ks[i], verb, segments)
      ensures Beats(ks, verb, j, i)
    {
      var other := ks[i].shape;
      forall n | 0 <= n < |other| && other[n].Lit? ensures other[n].text != unused {
        LongestOfBounds(ks, i, n);
      }
      SampleFavours(shape, other, unused, 0);
      FavouredBeats(ks, verb, j, i);
    }
    assert IsWinner(ks, verb, segments, j);
  }
}
