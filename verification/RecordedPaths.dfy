/** Which configuration paths are recorded, said without the walk: by the steps a path can take from a
    registered type. */
module RecordedPaths {
  import opened Finite
  import opened TypeGraph

  // ---------------------------------------------------------------------------
  // The steps that the registry offers
  // ---------------------------------------------------------------------------

  /** What a step comes from: an attribute, a registered type or an aggregation, by its index. */
  datatype Origin = FromAttribute(i: nat) | FromType(j: nat) | FromAggregate(i: nat)

  /** The origin `o` offers the step `e` at type `t`: a pointer to a type other than the plain object, a
      container of items of any type, a child type, or the partner in an aggregation. */
  ghost predicate Offers(reg: Registry, t: TypeId, o: Origin, e: Edge) {
    match o
    case FromAttribute(i) =>
      && i < |reg.attributes(t)|
      && (|| (reg.attributes(t)[i] == Pointer(e.tag, e.target) && e.target != reg.objectType)
          || (exists name :: reg.attributes(t)[i] == Container(name, e.target) && e.tag == name + "/[i]"))
    case FromType(j) => j < reg.n && reg.isChildOf(j, t) && e == Edge("$" + reg.name(j), j)
    case FromAggregate(i) =>
      && i < |reg.aggregates| && (reg.aggregates[i] == (t, e.target) || reg.aggregates[i] == (e.target, t))
      && e.tag == "$" + reg.name(e.target)
  }

  /** Attributes come first, then child types, then aggregations, each kind in its own order. */
  ghost predicate Precedes(o: Origin, p: Origin) {
    match (o, p)
    case (FromAttribute(i), FromAttribute(j)) => i < j
    case (FromAttribute(_), _) => true
    case (FromType(_), FromAttribute(_)) => false
    case (FromType(i), FromType(j)) => i < j
    case (FromType(_), FromAggregate(_)) => true
    case (FromAggregate(i), FromAggregate(j)) => i < j
    case (FromAggregate(_), _) => false
  }

  ghost predicate Offered(reg: Registry, t: TypeId, es: seq<Edge>, from: seq<Origin>) {
    && |from| == |es|
    && (forall k :: 0 <= k < |es| ==> Offers(reg, t, from[k], es[k]))
    && (forall k, l :: 0 <= k < l < |es| ==> Precedes(from[k], from[l]))
  }

  ghost predicate OccursFrom(es: seq<Edge>, from: seq<Origin>, o: Origin, e: Edge)
    requires |from| == |es|
  {
    exists k :: 0 <= k < |es| && from[k] == o && es[k] == e
  }

  /** `es` are the steps offered by the origins before `end`, in order. */
  ghost predicate Covers(reg: Registry, t: TypeId, es: seq<Edge>, from: seq<Origin>, end: Origin) {
    && Offered(reg, t, es, from)
    && (forall k :: 0 <= k < |es| ==> Precedes(from[k], end))
    && (forall o, e :: Offers(reg, t, o, e) && Precedes(o, end) ==> OccursFrom(es, from, o, e))
  }

  /** `next` is what `o` offers. */
  ghost predicate IsOffer(reg: Registry, t: TypeId, o: Origin, next: seq<Edge>) {
    |next| <= 1 && forall e :: Offers(reg, t, o, e) <==> next == [e]
  }

  lemma CoverMore(reg: Registry, t: TypeId, es: seq<Edge>, from: seq<Origin>, o: Origin, next: seq<Edge>, end: Origin)
    returns (more: seq<Origin>)
    requires Covers(reg, t, es, from, o) && IsOffer(reg, t, o, next)
    requires forall p :: Precedes(p, end) <==> Precedes(p, o) || p == o
    ensures Covers(reg, t, es + next, more, end)
  {
    hide Offers, Precedes;
    more := if next == [] then from else from + [o];
    if next == [] {
      assert es + next == es;
    } else {
      assert next == [next[0]];
    }
    forall p, e | Offers(reg, t, p, e) && Precedes(p, end) ensures OccursFrom(es + next, more, p, e) {
      if Precedes(p, o) {
        assert OccursFrom(es, from, p, e);
        var k :| 0 <= k < |es| && from[k] == p && es[k] == e;
        assert more[k] == p && (es + next)[k] == e;
      } else {
        assert more[|es|] == o && (es + next)[|es|] == e;
      }
    }
  }

  /** No origin lies between `end` and `later` that offers anything. */
  lemma CoverSame(reg: Registry, t: TypeId, es: seq<Edge>, from: seq<Origin>, end: Origin, later: Origin)
    requires Covers(reg, t, es, from, end)
    requires forall p :: Precedes(p, end) ==> Precedes(p, later)
    requires forall p, e :: Offers(reg, t, p, e) && Precedes(p, later) ==> Precedes(p, end)
    ensures Covers(reg, t, es, from, later)
  {
    hide Offers, Precedes;
  }

  lemma AttributeOffer(reg: Registry, t: TypeId, i: nat)
    requires i < |reg.attributes(t)|
    ensures IsOffer(reg, t, FromAttribute(i), reg.AttributeEdge(reg.attributes(t)[i]))
  {
    var next := reg.AttributeEdge(reg.attributes(t)[i]);
    forall e ensures Offers(reg, t, FromAttribute(i), e) <==> next == [e] {
      if next == [e] { assert next[0] == e; }
    }
  }

  lemma TypeOffer(reg: Registry, t: TypeId, j: nat)
    requires j < reg.n
    ensures IsOffer(reg, t, FromType(j), reg.ChildEdge(t, j))
  {
    var next := reg.ChildEdge(t, j);
    forall e ensures Offers(reg, t, FromType(j), e) <==> next == [e] {
      if next == [e] { assert next[0] == e; }
    }
  }

  lemma AggregateOffer(reg: Registry, t: TypeId, i: nat)
    requires i < |reg.aggregates|
    ensures IsOffer(reg, t, FromAggregate(i), reg.AggregateEdge(t, reg.aggregates[i]))
  {
    var next := reg.AggregateEdge(t, reg.aggregates[i]);
    forall e ensures Offers(reg, t, FromAggregate(i), e) <==> next == [e] {
      if next == [e] { assert next[0] == e; }
    }
  }

  lemma {:induction false} AttributesCovered(reg: Registry, t: TypeId, m: nat) returns (from: seq<Origin>)
    requires m <= |reg.attributes(t)|
    ensures Covers(reg, t, reg.AttributeEdges(reg.attributes(t)[..m]), from, FromAttribute(m))
  {
    hide Registry.AttributeEdges, Covers, IsOffer, Offers;
    var attrs := reg.attributes(t);
    NoEdges(reg, t);
    if m == 0 {
      from := [];
      NothingCovered(reg, t);
    } else {
      from := AttributesCovered(reg, t, m - 1);
      AttributeOffer(reg, t, m - 1);
      AttributeUpcoming(reg, t, m - 1);
      from := CoverMore(reg, t, reg.AttributeEdges(attrs[..m - 1]), from, FromAttribute(m - 1),
                        reg.AttributeEdge(attrs[m - 1]), FromAttribute(m));
    }
  }

  lemma NothingCovered(reg: Registry, t: TypeId)
    ensures Covers(reg, t, [], [], FromAttribute(0))
  {
  }

  lemma {:induction false} TypesCovered(reg: Registry, t: TypeId, j: nat) returns (from: seq<Origin>)
    requires j <= reg.n
    ensures Covers(reg, t, reg.AttributeEdges(reg.attributes(t)) + reg.ChildEdges(t, j), from, FromType(j))
  {
    hide Registry.AttributeEdges, Registry.ChildEdges, Covers, IsOffer;
    var attrs := reg.attributes(t);
    var a := reg.AttributeEdges(attrs);
    NoEdges(reg, t);
    if j == 0 {
      from := AttributesCovered(reg, t, |attrs|);
      assert attrs[..|attrs|] == attrs && a + [] == a;
      CoverSame(reg, t, a, from, FromAttribute(|attrs|), FromType(0));
    } else {
      hide Offers;
      from := TypesCovered(reg, t, j - 1);
      TypeOffer(reg, t, j - 1);
      ChildUpcoming(reg, t, j - 1);
      from := CoverMore(reg, t, a + reg.ChildEdges(t, j - 1), from, FromType(j - 1), reg.ChildEdge(t, j - 1), FromType(j));
      assert a + reg.ChildEdges(t, j - 1) + reg.ChildEdge(t, j - 1) == a + (reg.ChildEdges(t, j - 1) + reg.ChildEdge(t, j - 1));
    }
  }

  lemma {:induction false} AggregatesCovered(reg: Registry, t: TypeId, i: nat) returns (from: seq<Origin>)
    requires i <= |reg.aggregates|
    ensures Covers(reg, t, reg.AttributeEdges(reg.attributes(t)) + reg.ChildEdges(t, reg.n)
                           + reg.AggregateEdges(t, reg.aggregates[..i]), from, FromAggregate(i))
  {
    hide Registry.AttributeEdges, Registry.ChildEdges, Registry.AggregateEdges, Covers, IsOffer;
    var first := reg.AttributeEdges(reg.attributes(t)) + reg.ChildEdges(t, reg.n);
    NoEdges(reg, t);
    if i == 0 {
      from := TypesCovered(reg, t, reg.n);
      assert first + [] == first;
      CoverSame(reg, t, first, from, FromType(reg.n), FromAggregate(0));
    } else {
      hide Offers;
      from := AggregatesCovered(reg, t, i - 1);
      AggregateOffer(reg, t, i - 1);
      AggregateUpcoming(reg, t, i - 1);
      var c, d := reg.AggregateEdges(t, reg.aggregates[..i - 1]), reg.AggregateEdge(t, reg.aggregates[i - 1]);
      from := CoverMore(reg, t, first + c, from, FromAggregate(i - 1), d, FromAggregate(i));
      assert first + c + d == first + (c + d);
    }
  }

  /** The edges followed at `t` are exactly the steps on offer, in the order of their origins. */
  lemma EdgesAreOffers(reg: Registry, t: TypeId) returns (from: seq<Origin>)
    ensures Offered(reg, t, reg.Edges(t), from)
    ensures forall o, e :: Offers(reg, t, o, e) ==> OccursFrom(reg.Edges(t), from, o, e)
  {
    hide Registry.Edges, Registry.AttributeEdges, Registry.ChildEdges, Registry.AggregateEdges;
    from := AggregatesCovered(reg, t, |reg.aggregates|);
    assert reg.aggregates[..|reg.aggregates|] == reg.aggregates;
    AllEdges(reg, t);
    BeforeTheEnd(reg, t);
  }

  lemma BeforeTheEnd(reg: Registry, t: TypeId)
    ensures forall o, e :: Offers(reg, t, o, e) ==> Precedes(o, FromAggregate(|reg.aggregates|))
  {
  }

  // ---------------------------------------------------------------------------
  // Routes
  // ---------------------------------------------------------------------------

  /** The types that a route, given by its steps, passes. */
  ghost function Stations(root: TypeId, route: seq<Edge>): (v: seq<TypeId>)
    ensures |v| == |route| + 1
    decreases |route|
  {
    if route == [] then [root] else [root] + Stations(route[0].target, route[1..])
  }

  ghost function Tags(route: seq<Edge>): (l: seq<string>)
    ensures |l| == |route|
  {
    if route == [] then [] else [route[0].tag] + Tags(route[1..])
  }

  ghost predicate HasStep(reg: Registry, t: TypeId, e: Edge) {
    exists o :: Offers(reg, t, o, e)
  }

  ghost predicate IsRoute(reg: Registry, root: TypeId, route: seq<Edge>)
    decreases |route|
  {
    route == [] || (HasStep(reg, root, route[0]) && IsRoute(reg, route[0].target, route[1..]))
  }

  /** A route on offer that passes no type twice. */
  ghost predicate IsSimpleRoute(reg: Registry, root: TypeId, route: seq<Edge>) {
    IsRoute(reg, root, route) && Distinct(Stations(root, route))
  }

  lemma HasStepIsEdge(reg: Registry, t: TypeId, e: Edge)
    ensures HasStep(reg, t, e) <==> e in reg.Edges(t)
  {
    hide Registry.Edges, Offers;
    var from := EdgesAreOffers(reg, t);
    var es := reg.Edges(t);
    if e in es {
      var k :| 0 <= k < |es| && es[k] == e;
      assert Offers(reg, t, from[k], e);
    }
    if HasStep(reg, t, e) {
      var o :| Offers(reg, t, o, e);
      assert OccursFrom(es, from, o, e);
    }
  }

  lemma RouteUnfold(reg: Registry, root: TypeId, e: Edge, rest: seq<Edge>)
    ensures IsRoute(reg, root, [e] + rest) <==> HasStep(reg, root, e) && IsRoute(reg, e.target, rest)
    ensures Stations(root, [e] + rest) == [root] + Stations(e.target, rest)
    ensures Tags([e] + rest) == [e.tag] + Tags(rest)
  {
    hide HasStep;
    assert ([e] + rest)[1..] == rest;
  }

  lemma {:induction false} RouteSnoc(reg: Registry, root: TypeId, route: seq<Edge>, e: Edge)
    requires IsRoute(reg, root, route) && HasStep(reg, Stations(root, route)[|route|], e)
    ensures IsRoute(reg, root, route + [e])
    ensures Stations(root, route + [e]) == Stations(root, route) + [e.target]
    ensures Tags(route + [e]) == Tags(route) + [e.tag]
    decreases |route|
  {
    hide HasStep;
    if route == [] {
      RouteUnfold(reg, root, e, []);
      assert [e] + [] == [e] && [] + [e] == [e];
    } else {
      RouteSnoc(reg, route[0].target, route[1..], e);
      RouteUnfold(reg, root, route[0], route[1..] + [e]);
      assert route + [e] == [route[0]] + (route[1..] + [e]);
    }
  }

  /** A walk, with its edges named, is a route ... */
  lemma {:induction false} WalkIsRoute(reg: Registry, root: TypeId, w: seq<nat>) returns (route: seq<Edge>)
    requires IsWalk(reg, root, w)
    ensures IsRoute(reg, root, route)
    ensures Stations(root, route) == Visited(reg, root, w) && Tags(route) == Labels(reg, root, w)
    decreases |w|
  {
    hide Registry.Edges, IsRoute, HasStep;
    if w == [] {
      route := [];
      EmptyRoute(reg, root);
    } else {
      var e := reg.Edges(root)[w[0]];
      route := WalkIsRoute(reg, e.target, w[1..]);
      HasStepIsEdge(reg, root, e);
      RouteUnfold(reg, root, e, route);
      route := [e] + route;
    }
  }

  lemma EmptyRoute(reg: Registry, root: TypeId)
    ensures IsRoute(reg, root, [])
  {
  }

  /** ... and every route is that of some walk. */
  lemma {:induction false} RouteIsWalk(reg: Registry, root: TypeId, route: seq<Edge>) returns (w: seq<nat>)
    requires IsRoute(reg, root, route)
    ensures IsWalk(reg, root, w)
    ensures Stations(root, route) == Visited(reg, root, w) && Tags(route) == Labels(reg, root, w)
    decreases |route|
  {
    hide Registry.Edges, IsRoute, HasStep;
    if route == [] {
      w := [];
    } else {
      var e, rest := route[0], route[1..];
      assert route == [e] + rest;
      RouteUnfold(reg, root, e, rest);
      HasStepIsEdge(reg, root, e);
      var k: nat :| k < |reg.Edges(root)| && reg.Edges(root)[k] == e;
      var u := RouteIsWalk(reg, e.target, rest);
      w := [k] + u;
      assert w[1..] == u;
    }
  }

  /** What is recorded from `root`: the end and the path of every route that passes no type twice, and
      nothing else. */
  lemma RecordedExactly(reg: Registry, root: TypeId, x: TypeId, p: string)
    requires reg.Valid() && root < reg.n
    ensures reg.Closed()
    ensures (x, p) in Gathered(reg, root, {}, [])
            <==> exists route :: IsSimpleRoute(reg, root, route) && LeadsTo(root, route, x, p)
  {
    hide Registry.Valid, Registry.Edges, IsRoute, Records, Gathered, Registry.Closed, IsWalk, PathString;
    ValidIsClosed(reg);
    var ws := GatheredIsExact(reg, root, []);
    var all := Gathered(reg, root, {}, []);
    if (x, p) in all {
      var i :| 0 <= i < |all| && all[i] == (x, p);
      assert IsSimpleWalk(reg, root, {}, ws[i]);
      var route := WalkIsRoute(reg, root, ws[i]);
      assert [] + Tags(route) == Tags(route);
      assert IsSimpleRoute(reg, root, route) && LeadsTo(root, route, x, p);
    }
    if route :| IsSimpleRoute(reg, root, route) && LeadsTo(root, route, x, p) {
      var w := RouteIsWalk(reg, root, route);
      assert IsSimpleWalk(reg, root, {}, w);
      var i :| 0 <= i < |ws| && ws[i] == w;
      assert [] + Tags(route) == Tags(route);
      assert all[i] == (x, p);
    }
  }

  ghost predicate LeadsTo(root: TypeId, route: seq<Edge>, x: TypeId, p: string) {
    Stations(root, route)[|route|] == x && PathString(Tags(route)) == p
  }

  /** A pointer to anything but a plain object, and a container of anything, give their records wherever
      the walk reaches them for the first time. */
  lemma AttributesAreRecorded(reg: Registry, root: TypeId, route: seq<Edge>, name: string, u: TypeId)
    requires reg.Valid() && root < reg.n && IsSimpleRoute(reg, root, route) && u !in Stations(root, route)
    ensures reg.Closed()
    ensures Pointer(name, u) in reg.attributes(Stations(root, route)[|route|]) && u != reg.objectType ==>
              (u, PathString(Tags(route) + [name])) in Gathered(reg, root, {}, [])
    ensures Container(name, u) in reg.attributes(Stations(root, route)[|route|]) ==>
              (u, PathString(Tags(route) + [name + "/[i]"])) in Gathered(reg, root, {}, [])
  {
    hide Registry.Valid, Registry.Closed, Gathered, PathString, IsSimpleRoute;
    var t := Stations(root, route)[|route|];
    var attrs := reg.attributes(t);
    ValidIsClosed(reg);
    if Pointer(name, u) in attrs && u != reg.objectType {
      var i: nat :| i < |attrs| && attrs[i] == Pointer(name, u);
      assert Offers(reg, t, FromAttribute(i), Edge(name, u));
      StepIsRecorded(reg, root, route, Edge(name, u));
    }
    if Container(name, u) in attrs {
      var i: nat :| i < |attrs| && attrs[i] == Container(name, u);
      assert Offers(reg, t, FromAttribute(i), Edge(name + "/[i]", u));
      StepIsRecorded(reg, root, route, Edge(name + "/[i]", u));
    }
  }

  lemma StepIsRecorded(reg: Registry, root: TypeId, route: seq<Edge>, e: Edge)
    requires reg.Valid() && root < reg.n && IsSimpleRoute(reg, root, route)
    requires HasStep(reg, Stations(root, route)[|route|], e) && e.target !in Stations(root, route)
    ensures reg.Closed() && (e.target, PathString(Tags(route) + [e.tag])) in Gathered(reg, root, {}, [])
  {
    hide Registry.Valid, Registry.Closed, Gathered, PathString, HasStep, IsRoute, Stations, Tags;
    var longer := route + [e];
    RouteSnoc(reg, root, route, e);
    assert IsSimpleRoute(reg, root, longer) && LeadsTo(root, longer, e.target, PathString(Tags(longer)));
    RecordedExactly(reg, root, e.target, PathString(Tags(longer)));
  }

  // ---------------------------------------------------------------------------
  // Pointers to plain objects
  // ---------------------------------------------------------------------------

  function Blanked(attrs: seq<Attribute>, objectType: TypeId): (r: seq<Attribute>)
    ensures |r| == |attrs|
  {
    seq(|attrs|, i requires 0 <= i < |attrs| =>
      if attrs[i].Pointer? && attrs[i].pointee == objectType then Plain(attrs[i].name) else attrs[i])
  }

  /** The registry with every pointer to a plain object replaced by an attribute that points nowhere. */
  function WithoutObjectPointers(reg: Registry): Registry {
    reg.(attributes := (t: TypeId) => Blanked(reg.attributes(t), reg.objectType))
  }

  lemma {:induction false} BlankedEdges(reg: Registry, other: Registry, attrs: seq<Attribute>)
    requires other == WithoutObjectPointers(reg)
    ensures other.AttributeEdges(Blanked(attrs, reg.objectType)) == reg.AttributeEdges(attrs)
    decreases |attrs|
  {
    if attrs != [] {
      var m := |attrs| - 1;
      BlankedEdges(reg, other, attrs[..m]);
      assert Blanked(attrs, reg.objectType)[..m] == Blanked(attrs[..m], reg.objectType);
    }
  }

  lemma {:induction false} SameChildEdges(reg: Registry, other: Registry, t: TypeId, j: nat)
    requires other == WithoutObjectPointers(reg)
    ensures other.ChildEdges(t, j) == reg.ChildEdges(t, j)
  {
    if j > 0 {
      SameChildEdges(reg, other, t, j - 1);
    }
  }

  lemma {:induction false} SameAggregateEdges(reg: Registry, other: Registry, t: TypeId, items: seq<(TypeId, TypeId)>)
    requires other == WithoutObjectPointers(reg)
    ensures other.AggregateEdges(t, items) == reg.AggregateEdges(t, items)
    decreases |items|
  {
    if items != [] {
      SameAggregateEdges(reg, other, t, items[..|items| - 1]);
    }
  }

  lemma SameEdges(reg: Registry, other: Registry, t: TypeId)
    requires other == WithoutObjectPointers(reg)
    ensures other.Edges(t) == reg.Edges(t)
  {
    BlankedEdges(reg, other, reg.attributes(t));
    SameChildEdges(reg, other, t, reg.n);
    SameAggregateEdges(reg, other, t, reg.aggregates);
  }

  lemma {:induction false} SameGathered(reg: Registry, other: Registry, t: TypeId, avoid: set<TypeId>, path: seq<string>)
    requires reg.Closed() && other.Closed() && t < reg.n == other.n
    requires forall u: TypeId :: other.Edges(u) == reg.Edges(u)
    ensures Gathered(other, t, avoid, path) == Gathered(reg, t, avoid, path)
    decreases Below(reg.n) - avoid, 0, 0
  {
    hide Registry.Edges, Gathered, GatheredVia, PathString;
    if t in avoid {
      GatheredAvoided(reg, t, avoid, path);
      GatheredAvoided(other, t, avoid, path);
    } else {
      GatheredUnfold(reg, t, avoid, path);
      GatheredUnfold(other, t, avoid, path);
      SameGatheredVia(reg, other, t, 0, avoid + {t}, path);
    }
  }

  lemma {:induction false} SameGatheredVia(reg: Registry, other: Registry, t: TypeId, k: nat, avoid: set<TypeId>, path: seq<string>)
    requires reg.Closed() && other.Closed() && t < reg.n == other.n && k <= |reg.Edges(t)|
    requires forall u: TypeId :: other.Edges(u) == reg.Edges(u)
    ensures k <= |other.Edges(t)| && GatheredVia(other, t, k, avoid, path) == GatheredVia(reg, t, k, avoid, path)
    decreases Below(reg.n) - avoid, 1, |reg.Edges(t)| - k
  {
    hide Registry.Edges, Gathered, GatheredVia, PathString;
    assert other.Edges(t) == reg.Edges(t);
    if k == |reg.Edges(t)| {
      GatheredViaEnd(reg, t, avoid, path);
      GatheredViaEnd(other, t, avoid, path);
    } else {
      var e := reg.Edges(t)[k];
      ClosedAt(reg, t, k);
      GatheredViaUnfold(reg, t, k, avoid, path);
      GatheredViaUnfold(other, t, k, avoid, path);
      SameGathered(reg, other, e.target, avoid, path + [e.tag]);
      SameGatheredVia(reg, other, t, k + 1, avoid, path);
    }
  }

  lemma BlankedIsValid(reg: Registry)
    requires reg.Valid()
    ensures WithoutObjectPointers(reg).Valid()
  {
    var other := WithoutObjectPointers(reg);
    forall t: TypeId, i: int | t < other.n && 0 <= i < |other.attributes(t)|
      ensures other.AttributeValid(other.attributes(t)[i])
    {
      assert other.attributes(t) == Blanked(reg.attributes(t), reg.objectType);
      assert reg.AttributeValid(reg.attributes(t)[i]);
    }
  }

  /** Pointers to plain objects add nothing to the output, whatever they are called and wherever they occur:
      it is the output of the registry without them, record by record. */
  lemma ObjectPointersAddNothing(reg: Registry, root: TypeId, avoid: set<TypeId>, path: seq<string>)
    requires reg.Valid() && root < reg.n
    ensures reg.Closed() && WithoutObjectPointers(reg).Closed()
    ensures Gathered(reg, root, avoid, path) == Gathered(WithoutObjectPointers(reg), root, avoid, path)
  {
    hide Registry.Valid, Registry.Edges, Registry.Closed, Gathered;
    var other := WithoutObjectPointers(reg);
    BlankedIsValid(reg);
    ValidIsClosed(reg);
    ValidIsClosed(other);
    forall u: TypeId ensures other.Edges(u) == reg.Edges(u) {
      SameEdges(reg, other, u);
    }
    SameGathered(reg, other, root, avoid, path);
  }
}
