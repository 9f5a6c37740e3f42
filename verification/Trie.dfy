/** The route table of one project: a trie over path segments, searched depth first
    with the literal child before the parameter child. */
module Trie {
  import opened Binding
  import opened Paths
  import opened Routes
  import opened Sorting
  import opened Wrappers
  import opened Matching

  class Node {
    var literal: map<string, Node>
    var param: Node?
    var routes: map<string, Route>

    constructor ()
      ensures literal == map[] && param == null && routes == map[]
    {
      literal, param, routes := map[], null, map[];
    }

    ghost function ChildAt(step: Step): Node?
      reads this
    {
      match step
      case Lit(text) => if text in literal then literal[text] else null
      case Par => param
    }

    /** Puts a new node in the place of one child. */
    method Hang(step: Step) returns (child: Node)
      modifies this`literal, this`param
      ensures fresh(child) && child.routes == map[] && forall s :: child.ChildAt(s) == null
      ensures forall s :: ChildAt(s) == if s == step then child else old(ChildAt(s))
    {
      child := new Node();
      match step {
        case Lit(text) => literal := literal[text := child];
        case Par => param := child;
      }
    }
  }

  /** One traversal: the running stack of parameter values, the copy taken when a
      route was found, and the verbs met on the way. */
  class Search {
    const verb: string
    const segments: seq<string>
    var values: seq<string>
    var matched: seq<string>
    var route: Option<Route>
    var allow: set<string>

    constructor (verb: string, segments: seq<string>)
      ensures this.verb == verb && this.segments == segments
      ensures values == [] && matched == [] && route == None && allow == {}
    {
      this.verb, this.segments := verb, segments;
      values, matched, route, allow := [], [], None, {};
    }
  }

  /** A shape as the trie walks it: from the root, one step at a time. */
  datatype Trail = Root | Down(up: Trail, step: Step)

  ghost function Path(t: Trail): Shape {
    match t
    case Root => []
    case Down(up, step) => Path(up) + [step]
  }

  ghost function TrailOf(shape: Shape): (t: Trail)
    ensures Path(t) == shape
  {
    if shape == [] then Root else Down(TrailOf(shape[..|shape| - 1]), shape[|shape| - 1])
  }

  lemma TrailOfDown(shape: Shape, n: nat)
    requires n < |shape|
    ensures TrailOf(shape[..n + 1]) == Down(TrailOf(shape[..n]), shape[n])
  {
    assert shape[..n + 1][..n] == shape[..n];
  }

  lemma {:induction false} PathIsInjective(t: Trail)
    ensures TrailOf(Path(t)) == t
  {
    if t.Down? {
      PathIsInjective(t.up);
      assert (Path(t.up) + [t.step])[..|Path(t.up)|] == Path(t.up);
    }
  }

  class Trie {
    const root: Node
    /** The node each trail ends at, and everything inserted so far, in order. */
    ghost var at: map<Trail, Node>
    ghost var inserted: seq<Keyed>

    /** The pointers form the tree `at` describes: no sharing, nothing unreachable. */
    ghost predicate Linked()
      reads this, at.Values
    {
      && Root in at && at[Root] == root
      && (forall t, u :: t in at && u in at && at[t] == at[u] ==> t == u)
      && (forall t :: t in at ==> LinkedAt(t))
    }

    ghost predicate LinkedAt(t: Trail)
      reads this, at.Values
      requires t in at
    {
      && (t.Down? ==> t.up in at)
      && (forall step :: (if Down(t, step) in at then at[Down(t, step)] else null) == at[t].ChildAt(step))
    }

    /** A node holds, per verb, the first route inserted under its shape. */
    ghost predicate Holds(node: Node, p: Shape)
      reads this, node
    {
      forall m :: HoldsVerb(node, p, m)
    }

    ghost predicate HoldsVerb(node: Node, p: Shape, m: string)
      reads this, node
    {
      && (m in node.routes <==> FirstAt(inserted, p, m).Some?)
      && (m in node.routes ==> node.routes[m] == inserted[FirstAt(inserted, p, m).value].route)
    }

    ghost predicate Valid()
      reads this, at.Values
    {
      && Linked()
      && (forall k :: k in inserted ==> TrailOf(k.shape) in at)
      && (forall t :: t in at ==> Holds(at[t], Path(t)))
    }

    constructor ()
      ensures Valid() && inserted == [] && fresh(at.Values)
    {
      root := new Node();
      inserted := [];
      new;
      at := map[Root := root];
    }

    // Insertion ----------------------------------------------------------------------

    /** Hangs a new node under `cur`, which must not have that child yet. */
    method Attach(cur: Node, step: Step, ghost t: Trail) returns (child: Node)
      requires Linked() && t in at && at[t] == cur && cur.ChildAt(step) == null
      modifies this`at, cur`literal, cur`param
      ensures Linked()
      ensures at == old(at)[Down(t, step) := child] && fresh(child) && child.routes == map[]
    {
      hide Node.ChildAt;
      child := cur.Hang(step);
      at := at[Down(t, step) := child];
      ghost var grown := Down(t, step);
      assert old(LinkedAt(t));
      assert grown !in old(at);
      forall u | u in old(at)
        ensures u.Down? ==> u.up in old(at)
      {
        assert old(LinkedAt(u));
      }
      assert forall s :: Down(grown, s) !in at;
      forall u | u in at
        ensures LinkedAt(u)
      {
        if u != grown {
          assert old(LinkedAt(u));
          assert at[u] == old(at)[u] && (u != t ==> at[u] != cur);
          forall s
            ensures (if Down(u, s) in at then at[Down(u, s)] else null) == at[u].ChildAt(s)
          {
            assert (if Down(u, s) in old(at) then old(at)[Down(u, s)] else null) == old(at[u].ChildAt(s));
          }
        }
      }
    }

    /** Steps from `cur` to the child for `segment`, growing the trie if need be. */
    method Child(cur: Node, segment: string, ghost t: Trail) returns (next: Node)
      requires Valid() && t in at && at[t] == cur
      modifies this`at, cur`literal, cur`param
      ensures Valid()
      ensures Down(t, StepOf(segment)) in at && at[Down(t, StepOf(segment))] == next
      ensures forall u :: u in old(at) ==> u in at && at[u] == old(at)[u]
      ensures forall u :: u in at && u !in old(at) ==> fresh(at[u]) && at[u].routes == map[]
    {
      hide FirstAt, Path;
      assert LinkedAt(t);
      assert at[t].ChildAt(StepOf(segment))
          == if Down(t, StepOf(segment)) in at then at[Down(t, StepOf(segment))] else null;
      if IsParam(segment) {
        if cur.param == null {
          next := Attach(cur, Par, t);
        } else {
          next := cur.param;
        }
      } else if segment !in cur.literal {
        next := Attach(cur, Lit(segment), t);
      } else {
        next := cur.literal[segment];
      }
      forall u | u in at
        ensures Holds(at[u], Path(u))
      {
        if u in old(at) {
          forall m ensures HoldsVerb(at[u], Path(u), m) {
            assert old(HoldsVerb(at[u], Path(u), m));
          }
        } else {
          NewNodeHolds(at[u], u, old(at));
        }
      }
    }

    /** Nothing has been inserted under the shape of a trail that was not there. */
    lemma NewNodeHolds(node: Node, u: Trail, before: map<Trail, Node>)
      requires node.routes == map[] && u !in before && forall k :: k in inserted ==> TrailOf(k.shape) in before
      ensures Holds(node, Path(u))
    {
      hide FirstAt, Path, TrailOf;
      PathIsInjective(u);
      forall m ensures HoldsVerb(node, Path(u), m) {
        forall i | 0 <= i < |inserted| ensures inserted[i].shape != Path(u) {
          assert inserted[i] in inserted;
        }
        FirstAtFresh(inserted, Path(u), m);
      }
    }

    /** The path of nodes for a pattern, made where it is missing. */
    method Reach(segments: seq<string>) returns (cur: Node)
      requires Valid()
      modifies this`at, at.Values
      ensures Valid()
      ensures TrailOf(ShapeOf(segments)) in at && at[TrailOf(ShapeOf(segments))] == cur
      ensures forall u :: u in old(at) ==> u in at && at[u] == old(at)[u]
      ensures fresh(at.Values - old(at.Values))
    {
      hide Linked, Holds, Path, TrailOf;
      ghost var shape := ShapeOf(segments);
      cur := root;
      RootIsRoot();
      TrailOfNothing();
      assert shape[..0] == [];
      for i := 0 to |segments|
        invariant Valid() && TrailOf(shape[..i]) in at && at[TrailOf(shape[..i])] == cur
        invariant forall u :: u in old(at) ==> u in at && at[u] == old(at)[u]
        invariant forall u :: u in at && u !in old(at) ==> fresh(at[u])
      {
        TrailOfDown(shape, i);
        cur := Child(cur, segments[i], TrailOf(shape[..i]));
      }
      assert shape[..|segments|] == shape;
    }

    lemma TrailOfNothing()
      ensures TrailOf([]) == Root
    {
    }

    method Insert(r: Route) returns (displaced: Option<Route>)
      requires Valid()
      modifies this, at.Values
      ensures Valid() && inserted == old(inserted) + [KeyOf(r)]
      ensures forall u :: u in old(at) ==> u in at && at[u] == old(at)[u]
      ensures fresh(at.Values - old(at.Values))
      ensures displaced == Holder(old(inserted), KeyOf(r))
    {
      hide Segments;
      var segments := SplitPath(r.endpoint.path);
      displaced := InsertAlong(segments, r);
    }

    method InsertAlong(segments: seq<string>, r: Route) returns (displaced: Option<Route>)
      requires Valid()
      modifies this, at.Values
      ensures Valid() && inserted == old(inserted) + [Keyed(ShapeOf(segments), r)]
      ensures forall u :: u in old(at) ==> u in at && at[u] == old(at)[u]
      ensures fresh(at.Values - old(at.Values))
      ensures displaced == Holder(old(inserted), Keyed(ShapeOf(segments), r))
    {
      var cur := Reach(segments);
      displaced := Store(cur, ShapeOf(segments), r);
    }

    method Store(cur: Node, ghost shape: Shape, r: Route) returns (displaced: Option<Route>)
      requires Valid()
      requires TrailOf(shape) in at && at[TrailOf(shape)] == cur
      modifies this`inserted, cur`routes
      ensures Valid() && inserted == old(inserted) + [Keyed(shape, r)]
      ensures displaced == Holder(old(inserted), Keyed(shape, r))
    {
      hide FirstAt, Path, TrailOf;
      ghost var key := Keyed(shape, r);
      assert HoldsVerb(cur, shape, r.endpoint.verb);
      if r.endpoint.verb in cur.routes {
        displaced := Some(cur.routes[r.endpoint.verb]);
      } else {
        cur.routes := cur.routes[r.endpoint.verb := r];
        displaced := None;
      }
      inserted := inserted + [key];
      forall u | u in at
        ensures LinkedAt(u) && Holds(at[u], Path(u))
      {
        assert old(LinkedAt(u));
        PathIsInjective(u);
        forall m ensures HoldsVerb(at[u], Path(u), m) {
          FirstAtSnoc(old(inserted), key, Path(u), m);
          assert old(HoldsVerb(at[u], Path(u), m));
        }
      }
    }

    // Lookup ---------------------------------------------------------------------------

    lemma {:induction false} PrefixClosed(t: Trail, p: Shape)
      requires Linked() && t in at && p <= Path(t)
      ensures TrailOf(p) in at
    {
      assert LinkedAt(t);
      if p == Path(t) {
        PathIsInjective(t);
      } else {
        assert p <= Path(t.up);
        PrefixClosed(t.up, p);
      }
    }

    /** Nothing was inserted below a child that is not there. */
    lemma AbsentIsBarren(verb: string, segments: seq<string>, t: Trail)
      requires Valid() && t !in at
      requires |Path(t)| <= |segments| && Matches(Path(t), segments[..|Path(t)|])
      ensures Descend(inserted, verb, segments, Path(t)).None? && VerbsBelow(inserted, segments, Path(t)) == {}
    {
      hide Descend, VerbsBelow, Matches, Path, TrailOf, Linked, Holds;
      PathIsInjective(t);
      forall i | 0 <= i < |inserted| ensures !(Path(t) <= inserted[i].shape) {
        assert inserted[i] in inserted;
        if Path(t) <= inserted[i].shape {
          PrefixClosed(TrailOf(inserted[i].shape), Path(t));
        }
      }
      NothingBelow(inserted, verb, segments, Path(t));
    }

    /** What a traversal that had found nothing knows once everything below `p` is done. */
    ghost predicate Explored(s: Search, p: Shape, before: set<string>)
      reads this, s
      requires |p| <= |s.segments|
    {
      match Descend(inserted, s.verb, s.segments, p)
      case None => s.route == None && s.allow == before + VerbsBelow(inserted, s.segments, p)
      case Some(i) =>
        && i < |inserted| && Matches(inserted[i].shape, s.segments)
        && s.route == Some(inserted[i].route) && s.matched == ValuesOf(inserted[i].shape, s.segments)
    }

    /** Records the route that answers at a node the path ends at, or else the verbs that would. */
    method Arrive(node: Node, s: Search, ghost t: Trail)
      requires Valid() && t in at && at[t] == node && Matches(Path(t), s.segments)
      requires s.route == None && s.values == ValuesOf(Path(t), s.segments)
      modifies s`route, s`matched, s`allow
      ensures Explored(s, Path(t), old(s.allow))
    {
      hide Valid, Descend, Pick, VerbsBelow, FirstAt, Path, PickRoute, ValuesOf, Matches;
      HeldVerbs(node, t, s.segments);
      HeldPick(node, t, s.verb, s.segments);
      if |node.routes| == 0 {
        NothingToPick(node.routes, s.verb);
        return;
      }
      var r := PickRoute(node.routes, s.verb);
      if r.Some? {
        s.route := r;
        s.matched := s.values;
        return;
      }
      var left := node.routes.Keys;
      while left != {}
        invariant left <= node.routes.Keys && s.route == None
        invariant s.allow == old(s.allow) + (node.routes.Keys - left)
      {
        var verb :| verb in left;
        s.allow := s.allow + {verb};
        left := left - {verb};
      }
    }

    lemma NothingToPick(routes: map<string, Route>, verb: string)
      requires |routes| == 0
      ensures routes.Keys == {} && PickRoute(routes, verb) == None
    {
    }

    /** The routes at a node the path ends at answer as the linear list does there. */
    lemma HeldPick(node: Node, t: Trail, verb: string, segments: seq<string>)
      requires Valid() && t in at && at[t] == node && Matches(Path(t), segments)
      ensures match Descend(inserted, verb, segments, Path(t))
              case Some(i) =>
                && i < |inserted| && inserted[i].shape == Path(t)
                && PickRoute(node.routes, verb) == Some(inserted[i].route)
              case None => PickRoute(node.routes, verb) == None
    {
      var p := Path(t);
      assert Holds(node, p);
      assert HoldsVerb(node, p, verb) && HoldsVerb(node, p, METHOD_ANY) && HoldsVerb(node, p, "GET");
    }

    lemma HeldVerbs(node: Node, t: Trail, segments: seq<string>)
      requires Valid() && t in at && at[t] == node && Matches(Path(t), segments)
      ensures node.routes.Keys == VerbsBelow(inserted, segments, Path(t))
    {
      var p := Path(t);
      assert Holds(node, p);
      forall v ensures v in node.routes <==> v in VerbsBelow(inserted, segments, p) {
        assert HoldsVerb(node, p, v);
        var first := FirstAt(inserted, p, v);
        if first.Some? {
          assert inserted[first.value] in inserted;
        }
      }
    }

    /** Either a child is there, at its trail, or nothing below it could be found. */
    lemma Below(t: Trail, step: Step, verb: string, segments: seq<string>)
      requires Valid() && t in at && |Path(t)| < |segments| && Matches(Path(t), segments[..|Path(t)|])
      requires StepMatches(step, segments[|Path(t)|])
      ensures var down, child := Down(t, step), at[t].ChildAt(step);
              && Path(down) == Path(t) + [step]
              && Matches(Path(down), segments[..|Path(down)|])
              && if child == null
                 then Descend(inserted, verb, segments, Path(down)).None? && VerbsBelow(inserted, segments, Path(down)) == {}
                 else down in at && at[down] == child
    {
      hide Descend, VerbsBelow, Valid, Node.ChildAt;
      var n := |Path(t)|;
      assert segments[..n + 1] == segments[..n] + [segments[n]];
      ChildLink(t, step);
      if at[t].ChildAt(step) == null {
        AbsentIsBarren(verb, segments, Down(t, step));
      }
    }

    lemma ChildLink(t: Trail, step: Step)
      requires Valid() && t in at
      ensures at[t].ChildAt(step) == if Down(t, step) in at then at[Down(t, step)] else null
    {
      assert LinkedAt(t);
    }

    /** Depth first, literal before parameter, stopping at the first route that answers. */
    method Walk(node: Node, s: Search, depth: nat, ghost t: Trail)
      requires Valid() && t in at && at[t] == node
      requires |Path(t)| == depth <= |s.segments| && Matches(Path(t), s.segments[..depth])
      requires s.values == ValuesOf(Path(t), s.segments)
      modifies s
      ensures s.values == old(s.values)
      ensures old(s.route).Some? ==> unchanged(s)
      ensures old(s.route).None? ==> Explored(s, Path(t), old(s.allow))
      decreases |s.segments| - depth
    {
      hide Valid, Path, VerbsBelow, Matches, FirstAt;
      if s.route.Some? {
        return;
      }
      if depth == |s.segments| {
        assert s.segments[..depth] == s.segments;
        Arrive(node, s, t);
        return;
      }
      var segment := s.segments[depth];
      Below(t, Lit(segment), s.verb, s.segments);
      Below(t, Par, s.verb, s.segments);
      ValuesBelow(Path(t), s.segments);
      VerbsBelowSplit(inserted, s.segments, Path(t));
      if segment in node.literal {
        Walk(node.literal[segment], s, depth + 1, Down(t, Lit(segment)));
        if s.route.Some? {
          return;
        }
      }
      if node.param != null {
        s.values := s.values + [segment];
        Walk(node.param, s, depth + 1, Down(t, Par));
        s.values := s.values[..|s.values| - 1];
      }
    }

    /** The route that answers with its parameters bound, or the verbs the path does answer. */
    method Lookup(verb: string, segments: seq<string>)
      returns (route: Option<Route>, params: map<string, string>, allow: seq<string>)
      requires Valid()
      ensures match Winner(inserted, verb, segments)
              case Some(w) =>
                && route == Some(inserted[w].route) && allow == []
                && params == Zipped(inserted[w].route.params, ValuesOf(inserted[w].shape, segments))
              case None =>
                && route == None && params == map[]
                && IsAllowList(allow, VerbsBelow(inserted, segments, []))
    {
      hide Valid, Descend, VerbsBelow, ValuesOf, IsAllowList, Winner, Zipped;
      var s := new Search(verb, segments);
      RootIsRoot();
      Walk(root, s, 0, Root);
      DescendIsWinner(inserted, verb, segments);
      if s.route == None {
        assert s.allow == VerbsBelow(inserted, segments, []);
        allow := Allowed(s.allow);
        return None, map[], allow;
      }
      params := Zip(s.route.value.params, s.matched);
      return s.route, params, [];
    }

    lemma RootIsRoot()
      requires Valid()
      ensures Root in at && at[Root] == root && Path(Root) == []
      ensures forall segments :: ValuesOf([], segments) == [] && Matches([], segments[..0])
    {
    }
  }

  /** The verbs met during a failed search, as the Allow header lists them. */
  method Allowed(verbs: set<string>) returns (allow: seq<string>)
    ensures IsAllowList(allow, verbs)
  {
    var left := WithHead(verbs);
    allow := [];
    while left != {}
      invariant multiset(allow) + multiset(left) == multiset(WithHead(verbs))
    {
      var verb :| verb in left;
      allow := allow + [verb];
      left := left - {verb};
    }
    AllowLeIsTotalOrder();
    SortOrders(allow, AllowLe);
    allow := Sort(allow, AllowLe);
  }
}
