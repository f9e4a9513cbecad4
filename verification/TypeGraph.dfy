/** Configuration paths: the backtracking walk over the graph of registered types, which may be
    cyclic and may have parallel edges. */
module TypeGraph {
  import opened Finite

  type TypeId = nat

  /** What the checker of an attribute points to. */
  datatype Attribute =
    | Pointer(name: string, pointee: TypeId)
    | Container(name: string, item: TypeId)
    | Plain(name: string)

  datatype Edge = Edge(tag: string, target: TypeId)

  /** The registered types `0 .. n - 1`; `objectType` is the root of the object hierarchy. */
  datatype Registry = Registry(
    n: nat,
    objectType: TypeId,
    name: TypeId -> string,
    attributes: TypeId -> seq<Attribute>,
    isChildOf: (TypeId, TypeId) -> bool,
    aggregates: seq<(TypeId, TypeId)>)
  {
    /** Attributes and aggregations refer to registered types. */
    ghost predicate Valid() {
      && (forall t: TypeId, i: int :: t < n && 0 <= i < |attributes(t)| ==> AttributeValid(attributes(t)[i]))
      && (forall i :: 0 <= i < |aggregates| ==> aggregates[i].0 < n && aggregates[i].1 < n)
    }

    ghost predicate AttributeValid(a: Attribute) {
      match a
      case Pointer(_, t) => t < n
      case Container(_, t) => t < n
      case Plain(_) => true
    }

    /** Pointers to plain objects are not followed: they would lead anywhere. */
    function AttributeEdge(a: Attribute): seq<Edge> {
      match a
      case Pointer(name, t) => if t == objectType then [] else [Edge(name, t)]
      case Container(name, t) => [Edge(name + "/[i]", t)]
      case Plain(_) => []
    }

    function ChildEdge(t: TypeId, j: TypeId): seq<Edge> {
      if isChildOf(j, t) then [Edge("$" + name(j), j)] else []
    }

    /** The other end of an aggregation involving `t`. */
    function AggregateEdge(t: TypeId, item: (TypeId, TypeId)): seq<Edge> {
      if item.0 == t || item.1 == t then
        var other := if item.1 == t then item.0 else item.1;
        [Edge("$" + name(other), other)]
      else []
    }

    ghost function AttributeEdges(attrs: seq<Attribute>): seq<Edge> {
      if attrs == [] then [] else AttributeEdges(attrs[..|attrs| - 1]) + AttributeEdge(attrs[|attrs| - 1])
    }

    ghost function ChildEdges(t: TypeId, j: nat): seq<Edge> {
      if j == 0 then [] else ChildEdges(t, j - 1) + ChildEdge(t, j - 1)
    }

    ghost function AggregateEdges(t: TypeId, items: seq<(TypeId, TypeId)>): seq<Edge> {
      if items == [] then [] else AggregateEdges(t, items[..|items| - 1]) + AggregateEdge(t, items[|items| - 1])
    }

    /** The edges leaving `t`, in the order they are explored. */
    ghost function Edges(t: TypeId): seq<Edge> {
      AttributeEdges(attributes(t)) + ChildEdges(t, n) + AggregateEdges(t, aggregates)
    }

    /** Every edge leads to a registered type. */
    ghost predicate Closed() {
      forall t: TypeId, k: int :: t < n && 0 <= k < |Edges(t)| ==> Edges(t)[k].target < n
    }
  }

  ghost predicate Targets(es: seq<Edge>, n: nat) {
    forall k :: 0 <= k < |es| ==> es[k].target < n
  }

  lemma ValidIsClosed(reg: Registry)
    requires reg.Valid()
    ensures reg.Closed()
  {
    forall t: TypeId | t < reg.n ensures Targets(reg.Edges(t), reg.n) {
      AttributeTargets(reg, t, reg.attributes(t));
      ChildTargets(reg, t, reg.n);
      AggregateTargets(reg, t, reg.aggregates);
    }
    forall t: TypeId, k: int | t < reg.n && 0 <= k < |reg.Edges(t)| ensures reg.Edges(t)[k].target < reg.n {
      assert Targets(reg.Edges(t), reg.n);
    }
  }

  lemma {:induction false} AttributeTargets(reg: Registry, t: TypeId, attrs: seq<Attribute>)
    requires forall i :: 0 <= i < |attrs| ==> reg.AttributeValid(attrs[i])
    ensures Targets(reg.AttributeEdges(attrs), reg.n)
    decreases |attrs|
  {
    if attrs != [] {
      AttributeTargets(reg, t, attrs[..|attrs| - 1]);
      assert reg.AttributeValid(attrs[|attrs| - 1]);
    }
  }

  lemma {:induction false} ChildTargets(reg: Registry, t: TypeId, j: nat)
    requires j <= reg.n
    ensures Targets(reg.ChildEdges(t, j), reg.n)
  {
    if j > 0 {
      ChildTargets(reg, t, j - 1);
    }
  }

  lemma {:induction false} AggregateTargets(reg: Registry, t: TypeId, items: seq<(TypeId, TypeId)>)
    requires forall i :: 0 <= i < |items| ==> items[i].0 < reg.n && items[i].1 < reg.n
    ensures Targets(reg.AggregateEdges(t, items), reg.n)
    decreases |items|
  {
    if items != [] {
      AggregateTargets(reg, t, items[..|items| - 1]);
    }
  }

  // ---------------------------------------------------------------------------
  // The walks of the type graph
  // ---------------------------------------------------------------------------

  /** A walk from `root` is given by the index of the edge taken at each type. */
  ghost predicate IsWalk(reg: Registry, root: TypeId, ks: seq<nat>)
    decreases |ks|
  {
    ks != [] ==> ks[0] < |reg.Edges(root)| && IsWalk(reg, reg.Edges(root)[ks[0]].target, ks[1..])
  }

  /** The types visited, in order, starting with `root`. */
  ghost function Visited(reg: Registry, root: TypeId, ks: seq<nat>): (v: seq<TypeId>)
    requires IsWalk(reg, root, ks)
    ensures |v| == |ks| + 1
    decreases |ks|
  {
    if ks == [] then [root] else [root] + Visited(reg, reg.Edges(root)[ks[0]].target, ks[1..])
  }

  ghost function Labels(reg: Registry, root: TypeId, ks: seq<nat>): (l: seq<string>)
    requires IsWalk(reg, root, ks)
    ensures |l| == |ks|
    decreases |ks|
  {
    if ks == [] then [] else
      var e := reg.Edges(root)[ks[0]];
      [e.tag] + Labels(reg, e.target, ks[1..])
  }

  /** A simple walk visits no type twice and none of the types in `avoid`. */
  ghost predicate IsSimpleWalk(reg: Registry, root: TypeId, avoid: set<TypeId>, ks: seq<nat>) {
    && IsWalk(reg, root, ks)
    && var v := Visited(reg, root, ks);
       && (forall i, j :: 0 <= i < j < |v| ==> v[i] != v[j])
       && (forall i :: 0 <= i < |v| ==> v[i] !in avoid)
  }

  /** Depth-first preorder on walks: a walk before its extensions, then by edge index. */
  ghost predicate Before(a: seq<nat>, b: seq<nat>)
    decreases |a|
  {
    b != [] && (a == [] || a[0] < b[0] || (a[0] == b[0] && Before(a[1..], b[1..])))
  }

  ghost predicate Ordered(ws: seq<seq<nat>>) {
    forall i, j :: 0 <= i < j < |ws| ==> Before(ws[i], ws[j])
  }

  lemma {:induction false} BeforeIsStrict(a: seq<nat>)
    ensures !Before(a, a)
    decreases |a|
  {
    if a != [] {
      BeforeIsStrict(a[1..]);
    }
  }

  // ---------------------------------------------------------------------------
  // The enumeration, in the order the program explores
  // ---------------------------------------------------------------------------

  ghost function Prefixed(k: nat, ws: seq<seq<nat>>): (r: seq<seq<nat>>)
    ensures |r| == |ws| && forall i :: 0 <= i < |ws| ==> r[i] == [k] + ws[i]
  {
    seq(|ws|, i requires 0 <= i < |ws| => [k] + ws[i])
  }

  /** The walks from `t` that avoid the ancestors `avoid`. */
  ghost function Walks(reg: Registry, t: TypeId, avoid: set<TypeId>): seq<seq<nat>>
    requires reg.Closed() && t < reg.n
    decreases Below(reg.n) - avoid, 0, 0
  {
    if t in avoid then [] else
      [[]] + WalksVia(reg, t, 0, avoid + {t})
  }

  /** The walks from `t` whose first edge is the `k`-th or a later one. */
  ghost function WalksVia(reg: Registry, t: TypeId, k: nat, avoid: set<TypeId>): seq<seq<nat>>
    requires reg.Closed() && t < reg.n && k <= |reg.Edges(t)|
    decreases Below(reg.n) - avoid, 1, |reg.Edges(t)| - k
  {
    if k == |reg.Edges(t)| then [] else
      Prefixed(k, Walks(reg, reg.Edges(t)[k].target, avoid)) + WalksVia(reg, t, k + 1, avoid)
  }

  lemma SimpleWalkUnfold(reg: Registry, t: TypeId, avoid: set<TypeId>, w: seq<nat>)
    ensures IsSimpleWalk(reg, t, avoid, w) <==>
              && t !in avoid
              && (w == [] || (w[0] < |reg.Edges(t)|
                              && IsSimpleWalk(reg, reg.Edges(t)[w[0]].target, avoid + {t}, w[1..])))
  {
    if IsWalk(reg, t, w) {
      var v := Visited(reg, t, w);
      assert v[0] == t;
      if w != [] {
        var next := reg.Edges(t)[w[0]].target;
        var u := Visited(reg, next, w[1..]);
        assert v == [t] + u;
        ConsFresh(t, u, avoid);
      }
    }
  }

  lemma ConsFresh(t: TypeId, u: seq<TypeId>, avoid: set<TypeId>)
    ensures var v := [t] + u;
            (forall i, j :: 0 <= i < j < |v| ==> v[i] != v[j]) && (forall i :: 0 <= i < |v| ==> v[i] !in avoid)
            <==>
            && t !in avoid
            && (forall i, j :: 0 <= i < j < |u| ==> u[i] != u[j]) && (forall i :: 0 <= i < |u| ==> u[i] !in avoid + {t})
  {
    var v := [t] + u;
    assert v[0] == t;
    assert forall i :: 0 <= i < |u| ==> v[i + 1] == u[i];
    assert forall j :: 0 < j < |v| ==> v[j] == u[j - 1];
  }

  /** The enumeration lists exactly the simple walks ... */
  lemma {:induction false} WalksAreTheSimpleOnes(reg: Registry, t: TypeId, avoid: set<TypeId>, w: seq<nat>)
    requires reg.Closed() && t < reg.n
    ensures w in Walks(reg, t, avoid) <==> IsSimpleWalk(reg, t, avoid, w)
    decreases Below(reg.n) - avoid, 0, 0
  {
    hide IsSimpleWalk, Registry.Edges, WalksVia;
    SimpleWalkUnfold(reg, t, avoid, w);
    if t !in avoid {
      WalksViaAreTheSimpleOnes(reg, t, 0, avoid + {t}, w);
      var rest := WalksVia(reg, t, 0, avoid + {t});
      assert w in [[]] + rest <==> w == [] || w in rest;
    }
  }

  lemma InPrefixed(k: nat, ws: seq<seq<nat>>, w: seq<nat>)
    ensures w in Prefixed(k, ws) <==> w != [] && w[0] == k && w[1..] in ws
  {
    var p := Prefixed(k, ws);
    if w in p {
      var i :| 0 <= i < |p| && p[i] == w;
      assert w[1..] == ws[i];
    }
    if w != [] && w[0] == k && w[1..] in ws {
      var i :| 0 <= i < |ws| && ws[i] == w[1..];
      assert w == [k] + ws[i];
      assert p[i] == w;
    }
  }

  lemma {:induction false} WalksViaAreTheSimpleOnes(reg: Registry, t: TypeId, k: nat, avoid: set<TypeId>, w: seq<nat>)
    requires reg.Closed() && t < reg.n && k <= |reg.Edges(t)|
    ensures w in WalksVia(reg, t, k, avoid) <==>
              && w != [] && k <= w[0] < |reg.Edges(t)|
              && IsSimpleWalk(reg, reg.Edges(t)[w[0]].target, avoid, w[1..])
    decreases Below(reg.n) - avoid, 1, |reg.Edges(t)| - k
  {
    hide *;
    if k < |reg.Edges(t)| {
      ClosedAt(reg, t, k);
      var next := reg.Edges(t)[k].target;
      var ws := Walks(reg, next, avoid);
      WalksViaUnfold(reg, t, k, avoid, w);
      InPrefixed(k, ws, w);
      if w != [] {
        WalksAreTheSimpleOnes(reg, next, avoid, w[1..]);
      }
      WalksViaAreTheSimpleOnes(reg, t, k + 1, avoid, w);
    } else {
      NoWalksVia(reg, t, avoid);
    }
  }

  lemma ClosedAt(reg: Registry, t: TypeId, k: nat)
    requires reg.Closed() && t < reg.n && k < |reg.Edges(t)|
    ensures reg.Edges(t)[k].target < reg.n
  {
  }

  lemma NoWalksVia(reg: Registry, t: TypeId, avoid: set<TypeId>)
    requires reg.Closed() && t < reg.n
    ensures WalksVia(reg, t, |reg.Edges(t)|, avoid) == []
  {
  }

  lemma WalksViaUnfold(reg: Registry, t: TypeId, k: nat, avoid: set<TypeId>, w: seq<nat>)
    requires reg.Closed() && t < reg.n && k < |reg.Edges(t)|
    ensures reg.Edges(t)[k].target < reg.n
    ensures w in WalksVia(reg, t, k, avoid)
            <==> w in Prefixed(k, Walks(reg, reg.Edges(t)[k].target, avoid)) || w in WalksVia(reg, t, k + 1, avoid)
  {
    hide Registry.Edges, Prefixed, Walks;
  }

  /** ... in depth-first preorder, so each of them once. */
  lemma {:induction false} WalksAreOrdered(reg: Registry, t: TypeId, avoid: set<TypeId>)
    requires reg.Closed() && t < reg.n
    ensures Ordered(Walks(reg, t, avoid))
    decreases Below(reg.n) - avoid, 0, 0
  {
    if t !in avoid {
      var rest := WalksVia(reg, t, 0, avoid + {t});
      WalksViaAreOrdered(reg, t, 0, avoid + {t});
      forall j | 0 <= j < |rest| ensures Before([], rest[j]) {
        assert rest[j] in rest;
        WalksViaAreTheSimpleOnes(reg, t, 0, avoid + {t}, rest[j]);
      }
    }
  }

  lemma PrefixedOrdered(k: nat, ws: seq<seq<nat>>)
    requires Ordered(ws)
    ensures Ordered(Prefixed(k, ws))
  {
    var p := Prefixed(k, ws);
    forall i, j | 0 <= i < j < |p| ensures Before(p[i], p[j]) {
      assert p[i][1..] == ws[i] && p[j][1..] == ws[j];
    }
  }

  lemma {:induction false} WalksViaAreOrdered(reg: Registry, t: TypeId, k: nat, avoid: set<TypeId>)
    requires reg.Closed() && t < reg.n && k <= |reg.Edges(t)|
    ensures Ordered(WalksVia(reg, t, k, avoid))
    decreases Below(reg.n) - avoid, 1, |reg.Edges(t)| - k
  {
    if k < |reg.Edges(t)| {
      var next := reg.Edges(t)[k].target;
      WalksAreOrdered(reg, next, avoid);
      PrefixedOrdered(k, Walks(reg, next, avoid));
      WalksViaAreOrdered(reg, t, k + 1, avoid);
      var a, b := Prefixed(k, Walks(reg, next, avoid)), WalksVia(reg, t, k + 1, avoid);
      forall i, j | 0 <= i < |a| && 0 <= j < |b| ensures Before(a[i], b[j]) {
        assert b[j] in b;
        WalksViaAreTheSimpleOnes(reg, t, k + 1, avoid, b[j]);
      }
    }
  }

  // ---------------------------------------------------------------------------
  // What is recorded for a walk
  // ---------------------------------------------------------------------------

  function PathString(path: seq<string>): string {
    if path == [] then "" else PathString(path[..|path| - 1]) + "/" + path[|path| - 1]
  }

  /** The record of a walk: the type it ends in and the labels along the way. */
  ghost function Record(reg: Registry, root: TypeId, path: seq<string>, ks: seq<nat>): (TypeId, string)
    requires IsWalk(reg, root, ks)
  {
    (Visited(reg, root, ks)[|ks|], PathString(path + Labels(reg, root, ks)))
  }

  ghost predicate AllWalks(reg: Registry, root: TypeId, ws: seq<seq<nat>>) {
    forall i :: 0 <= i < |ws| ==> IsWalk(reg, root, ws[i])
  }

  ghost function Records(reg: Registry, root: TypeId, path: seq<string>, ws: seq<seq<nat>>): (r: seq<(TypeId, string)>)
    requires AllWalks(reg, root, ws)
    ensures |r| == |ws| && forall i :: 0 <= i < |ws| ==> r[i] == Record(reg, root, path, ws[i])
  {
    seq(|ws|, i requires 0 <= i < |ws| => Record(reg, root, path, ws[i]))
  }

  lemma WalksAreWalks(reg: Registry, t: TypeId, avoid: set<TypeId>)
    requires reg.Closed() && t < reg.n
    ensures AllWalks(reg, t, Walks(reg, t, avoid))
  {
    var ws := Walks(reg, t, avoid);
    forall i | 0 <= i < |ws| ensures IsWalk(reg, t, ws[i]) {
      assert ws[i] in ws;
      WalksAreTheSimpleOnes(reg, t, avoid, ws[i]);
    }
  }

  lemma WalksViaAreWalks(reg: Registry, t: TypeId, k: nat, avoid: set<TypeId>)
    requires reg.Closed() && t < reg.n && k <= |reg.Edges(t)|
    ensures AllWalks(reg, t, WalksVia(reg, t, k, avoid))
  {
    var ws := WalksVia(reg, t, k, avoid);
    forall i | 0 <= i < |ws| ensures IsWalk(reg, t, ws[i]) {
      assert ws[i] in ws;
      WalksViaAreTheSimpleOnes(reg, t, k, avoid, ws[i]);
    }
  }

  /** The records of all walks that `DoGather(t)` explores below the ancestors `avoid`. */
  ghost function Gathered(reg: Registry, t: TypeId, avoid: set<TypeId>, path: seq<string>): seq<(TypeId, string)>
    requires reg.Closed() && t < reg.n
  {
    WalksAreWalks(reg, t, avoid);
    Records(reg, t, path, Walks(reg, t, avoid))
  }

  /** Those whose first edge is the `k`-th or a later one. */
  ghost function GatheredVia(reg: Registry, t: TypeId, k: nat, avoid: set<TypeId>, path: seq<string>): seq<(TypeId, string)>
    requires reg.Closed() && t < reg.n && k <= |reg.Edges(t)|
  {
    WalksViaAreWalks(reg, t, k, avoid);
    Records(reg, t, path, WalksVia(reg, t, k, avoid))
  }

  lemma RecordsConcat(reg: Registry, t: TypeId, path: seq<string>, a: seq<seq<nat>>, b: seq<seq<nat>>)
    requires AllWalks(reg, t, a) && AllWalks(reg, t, b)
    ensures AllWalks(reg, t, a + b)
    ensures Records(reg, t, path, a + b) == Records(reg, t, path, a) + Records(reg, t, path, b)
  {
    hide IsWalk, Record;
  }

  lemma RecordOfRoot(reg: Registry, t: TypeId, path: seq<string>)
    ensures AllWalks(reg, t, [[]]) && Records(reg, t, path, [[]]) == [(t, PathString(path))]
  {
    assert path + [] == path;
  }

  lemma GatheredUnfold(reg: Registry, t: TypeId, avoid: set<TypeId>, path: seq<string>)
    requires reg.Closed() && t < reg.n && t !in avoid
    ensures Gathered(reg, t, avoid, path) == [(t, PathString(path))] + GatheredVia(reg, t, 0, avoid + {t}, path)
  {
    hide Registry.Edges, Records, AllWalks, WalksVia, PathString;
    WalksViaAreWalks(reg, t, 0, avoid + {t});
    RecordOfRoot(reg, t, path);
    RecordsConcat(reg, t, path, [[]], WalksVia(reg, t, 0, avoid + {t}));
  }

  lemma RecordOfExtension(reg: Registry, t: TypeId, path: seq<string>, k: nat, w: seq<nat>)
    requires k < |reg.Edges(t)| && IsWalk(reg, reg.Edges(t)[k].target, w)
    ensures IsWalk(reg, t, [k] + w)
    ensures Record(reg, t, path, [k] + w) ==
            Record(reg, reg.Edges(t)[k].target, path + [reg.Edges(t)[k].tag], w)
  {
    var e := reg.Edges(t)[k];
    var kw := [k] + w;
    assert kw[1..] == w;
    assert path + ([e.tag] + Labels(reg, e.target, w)) == (path + [e.tag]) + Labels(reg, e.target, w);
  }

  lemma RecordsPrefixed(reg: Registry, t: TypeId, path: seq<string>, k: nat, ws: seq<seq<nat>>)
    requires k < |reg.Edges(t)| && AllWalks(reg, reg.Edges(t)[k].target, ws)
    ensures AllWalks(reg, t, Prefixed(k, ws))
    ensures Records(reg, t, path, Prefixed(k, ws)) ==
            Records(reg, reg.Edges(t)[k].target, path + [reg.Edges(t)[k].tag], ws)
  {
    hide Registry.Edges, Record, IsWalk;
    var p := Prefixed(k, ws);
    forall i | 0 <= i < |ws|
      ensures IsWalk(reg, t, p[i])
      ensures Record(reg, t, path, p[i]) == Record(reg, reg.Edges(t)[k].target, path + [reg.Edges(t)[k].tag], ws[i])
    {
      RecordOfExtension(reg, t, path, k, ws[i]);
    }
  }

  lemma GatheredViaUnfold(reg: Registry, t: TypeId, k: nat, avoid: set<TypeId>, path: seq<string>)
    requires reg.Closed() && t < reg.n && k < |reg.Edges(t)|
    ensures var e := reg.Edges(t)[k];
            GatheredVia(reg, t, k, avoid, path) ==
            Gathered(reg, e.target, avoid, path + [e.tag]) + GatheredVia(reg, t, k + 1, avoid, path)
  {
    hide Registry.Edges, Records, Prefixed, AllWalks;
    var e := reg.Edges(t)[k];
    WalksAreWalks(reg, e.target, avoid);
    WalksViaAreWalks(reg, t, k + 1, avoid);
    RecordsPrefixed(reg, t, path, k, Walks(reg, e.target, avoid));
    RecordsConcat(reg, t, path, Prefixed(k, Walks(reg, e.target, avoid)), WalksVia(reg, t, k + 1, avoid));
  }

  lemma GatheredViaEnd(reg: Registry, t: TypeId, avoid: set<TypeId>, path: seq<string>)
    requires reg.Closed() && t < reg.n
    ensures GatheredVia(reg, t, |reg.Edges(t)|, avoid, path) == []
  {
  }

  lemma GatheredAvoided(reg: Registry, t: TypeId, avoid: set<TypeId>, path: seq<string>)
    requires reg.Closed() && t < reg.n && t in avoid
    ensures Gathered(reg, t, avoid, path) == []
  {
  }

  /** Main result.  What `DoGather` records from `root` are the records of a list of walks that holds
      every simple walk from `root` exactly once, in depth-first preorder. */
  lemma GatheredIsExact(reg: Registry, root: TypeId, path: seq<string>) returns (ws: seq<seq<nat>>)
    requires reg.Closed() && root < reg.n
    ensures forall w :: w in ws <==> IsSimpleWalk(reg, root, {}, w)
    ensures Ordered(ws) && forall i, j :: 0 <= i < j < |ws| ==> ws[i] != ws[j]
    ensures AllWalks(reg, root, ws) && Gathered(reg, root, {}, path) == Records(reg, root, path, ws)
  {
    hide IsSimpleWalk, Records;
    ws := Walks(reg, root, {});
    WalksAreWalks(reg, root, {});
    WalksAreOrdered(reg, root, {});
    forall w ensures w in ws <==> IsSimpleWalk(reg, root, {}, w) {
      WalksAreTheSimpleOnes(reg, root, {}, w);
    }
    forall i, j | 0 <= i < j < |ws| ensures ws[i] != ws[j] {
      assert Before(ws[i], ws[j]);
      BeforeIsStrict(ws[i]);
    }
  }

  // ---------------------------------------------------------------------------
  // Edges as the loops meet them
  // ---------------------------------------------------------------------------

  lemma {:induction false} AttributeEdgesPrefix(reg: Registry, attrs: seq<Attribute>, i: nat)
    requires i <= |attrs|
    ensures reg.AttributeEdges(attrs[..i]) <= reg.AttributeEdges(attrs)
    decreases |attrs|
  {
    if i == |attrs| {
      assert attrs[..i] == attrs;
    } else {
      AttributeEdgesPrefix(reg, attrs[..|attrs| - 1], i);
      assert attrs[..|attrs| - 1][..i] == attrs[..i];
    }
  }

  lemma {:induction false} ChildEdgesPrefix(reg: Registry, t: TypeId, j: nat, n: nat)
    requires j <= n
    ensures reg.ChildEdges(t, j) <= reg.ChildEdges(t, n)
    decreases n
  {
    if j < n {
      ChildEdgesPrefix(reg, t, j, n - 1);
    }
  }

  lemma {:induction false} AggregateEdgesPrefix(reg: Registry, t: TypeId, items: seq<(TypeId, TypeId)>, i: nat)
    requires i <= |items|
    ensures reg.AggregateEdges(t, items[..i]) <= reg.AggregateEdges(t, items)
    decreases |items|
  {
    if i == |items| {
      assert items[..i] == items;
    } else {
      AggregateEdgesPrefix(reg, t, items[..|items| - 1], i);
      assert items[..|items| - 1][..i] == items[..i];
    }
  }

  lemma NoEdges(reg: Registry, t: TypeId)
    ensures reg.AttributeEdges(reg.attributes(t)[..0]) == []
    ensures reg.ChildEdges(t, 0) == []
    ensures reg.AggregateEdges(t, reg.aggregates[..0]) == []
  {
  }

  lemma AllEdges(reg: Registry, t: TypeId)
    ensures reg.AttributeEdges(reg.attributes(t)) + reg.ChildEdges(t, reg.n) + reg.AggregateEdges(t, reg.aggregates)
            == reg.Edges(t)
  {
  }

  /** `done`, extended by the edges of one more loop iteration, is still a prefix of all edges. */
  ghost predicate Upcoming(reg: Registry, t: TypeId, done: seq<Edge>, next: seq<Edge>) {
    done + next <= reg.Edges(t) && |next| <= 1
  }

  lemma AttributeUpcoming(reg: Registry, t: TypeId, i: nat)
    requires i < |reg.attributes(t)|
    ensures Upcoming(reg, t, reg.AttributeEdges(reg.attributes(t)[..i]), reg.AttributeEdge(reg.attributes(t)[i]))
    ensures reg.AttributeEdges(reg.attributes(t)[..i + 1]) ==
            reg.AttributeEdges(reg.attributes(t)[..i]) + reg.AttributeEdge(reg.attributes(t)[i])
  {
    var attrs := reg.attributes(t);
    AttributeEdgesPrefix(reg, attrs, i + 1);
    assert attrs[..i + 1][..i] == attrs[..i];
  }

  lemma ChildUpcoming(reg: Registry, t: TypeId, j: nat)
    requires j < reg.n
    ensures Upcoming(reg, t, reg.AttributeEdges(reg.attributes(t)) + reg.ChildEdges(t, j), reg.ChildEdge(t, j))
    ensures reg.ChildEdges(t, j + 1) == reg.ChildEdges(t, j) + reg.ChildEdge(t, j)
  {
    ChildEdgesPrefix(reg, t, j + 1, reg.n);
    var a, c, d := reg.AttributeEdges(reg.attributes(t)), reg.ChildEdges(t, j), reg.ChildEdge(t, j);
    assert a + c + d == a + (c + d);
  }

  lemma AggregateUpcoming(reg: Registry, t: TypeId, i: nat)
    requires i < |reg.aggregates|
    ensures var done := reg.AttributeEdges(reg.attributes(t)) + reg.ChildEdges(t, reg.n);
            Upcoming(reg, t, done + reg.AggregateEdges(t, reg.aggregates[..i]), reg.AggregateEdge(t, reg.aggregates[i]))
    ensures reg.AggregateEdges(t, reg.aggregates[..i + 1]) ==
            reg.AggregateEdges(t, reg.aggregates[..i]) + reg.AggregateEdge(t, reg.aggregates[i])
  {
    var items := reg.aggregates;
    AggregateEdgesPrefix(reg, t, items, i + 1);
    assert items[..i + 1][..i] == items[..i];
    var done := reg.AttributeEdges(reg.attributes(t)) + reg.ChildEdges(t, reg.n);
    var c, d := reg.AggregateEdges(t, items[..i]), reg.AggregateEdge(t, items[i]);
    assert done + c + d == done + (c + d);
  }

  /** Part-way through the edges of `t`, with the edges `done` explored: what is still to be recorded
      completes `output` to `final`. */
  ghost predicate Gathering(reg: Registry, t: TypeId, avoid: set<TypeId>, path: seq<string>,
                            final: seq<(TypeId, string)>, output: seq<(TypeId, string)>, done: seq<Edge>) {
    && reg.Closed() && t < reg.n
    && done <= reg.Edges(t)
    && final == output + GatheredVia(reg, t, |done|, avoid, path)
  }

  lemma GatheringStart(reg: Registry, t: TypeId, avoid: set<TypeId>, path: seq<string>, before: seq<(TypeId, string)>)
    requires reg.Closed() && t < reg.n && t !in avoid
    ensures Gathering(reg, t, avoid + {t}, path, before + Gathered(reg, t, avoid, path), before + [(t, PathString(path))], [])
  {
    hide Registry.Edges, Gathered, GatheredVia, PathString;
    GatheredUnfold(reg, t, avoid, path);
    var x, y := [(t, PathString(path))], GatheredVia(reg, t, 0, avoid + {t}, path);
    assert before + (x + y) == (before + x) + y;
  }

  lemma GatheringStep(reg: Registry, t: TypeId, avoid: set<TypeId>, path: seq<string>,
                      final: seq<(TypeId, string)>, output: seq<(TypeId, string)>, done: seq<Edge>, e: Edge)
    requires Gathering(reg, t, avoid, path, final, output, done) && Upcoming(reg, t, done, [e])
    ensures e.target < reg.n
    ensures Gathering(reg, t, avoid, path, final, output + Gathered(reg, e.target, avoid, path + [e.tag]), done + [e])
  {
    hide Registry.Edges, Gathered, GatheredVia;
    var k := |done|;
    assert (done + [e])[k] == reg.Edges(t)[k];
    GatheredViaUnfold(reg, t, k, avoid, path);
    var x, y := Gathered(reg, e.target, avoid, path + [e.tag]), GatheredVia(reg, t, k + 1, avoid, path);
    assert output + (x + y) == (output + x) + y;
  }

  lemma GatheringEnd(reg: Registry, t: TypeId, avoid: set<TypeId>, path: seq<string>,
                     final: seq<(TypeId, string)>, output: seq<(TypeId, string)>)
    requires Gathering(reg, t, avoid, path, final, output, reg.Edges(t))
    ensures output == final
  {
    hide Registry.Edges, GatheredVia;
    GatheredViaEnd(reg, t, avoid, path);
  }

  // ---------------------------------------------------------------------------
  // The program
  // ---------------------------------------------------------------------------

  class StaticInformation {
    var output: seq<(TypeId, string)>
    var currentPath: seq<string>
    var alreadyProcessed: seq<TypeId>

    constructor ()
      ensures output == [] && currentPath == [] && alreadyProcessed == []
    {
      output, currentPath, alreadyProcessed := [], [], [];
    }

    method GetCurrentPath() returns (oss: string)
      ensures oss == PathString(currentPath)
    {
      oss := "";
      for i := 0 to |currentPath|
        invariant oss == PathString(currentPath[..i])
      {
        assert currentPath[..i + 1][..i] == currentPath[..i];
        oss := oss + "/" + currentPath[i];
      }
      assert currentPath[..|currentPath|] == currentPath;
    }

    method RecordOutput(tid: TypeId)
      modifies this`output
      ensures output == old(output) + [(tid, PathString(currentPath))]
    {
      var path := GetCurrentPath();
      output := output + [(tid, path)];
    }

    method HasAlreadyBeenProcessed(tid: TypeId) returns (r: bool)
      ensures r <==> tid in alreadyProcessed
    {
      for i := 0 to |alreadyProcessed|
        invariant tid !in alreadyProcessed[..i]
      {
        if alreadyProcessed[i] == tid { return true; }
      }
      return false;
    }

    /** Explores everything below `tid`: appends the records of the simple walks from `tid` that avoid
        the ancestors on the stack, and restores both stacks.  The recursion ends because every level
        puts one more registered type on the stack. */
    method DoGather(reg: Registry, tid: TypeId)
      requires reg.Valid() && reg.Closed() && tid < reg.n
      modifies this
      ensures currentPath == old(currentPath) && alreadyProcessed == old(alreadyProcessed)
      ensures output == old(output) + Gathered(reg, tid, Elements(old(alreadyProcessed)), old(currentPath))
      decreases Below(reg.n) - Elements(alreadyProcessed), 1
    {
      hide Elements, Below, Gathering, Gathered, PathString, Upcoming;
      hide Registry.Valid, Registry.Closed, Registry.Edges;
      hide Registry.AttributeEdges, Registry.ChildEdges, Registry.AggregateEdges;
      ghost var path, avoid, before := currentPath, Elements(alreadyProcessed), output;
      var seen := HasAlreadyBeenProcessed(tid);
      if seen {
        GatheredAvoided(reg, tid, avoid, path);
        return;
      }
      ghost var final := output + Gathered(reg, tid, avoid, path);
      GatheringStart(reg, tid, avoid, path, output);
      RecordOutput(tid);
      avoid := avoid + {tid};
      NoEdges(reg, tid);
      var attrs := reg.attributes(tid);
      ghost var done: seq<Edge> := [];
      for i := 0 to |attrs|
        invariant currentPath == path && alreadyProcessed == old(alreadyProcessed)
        invariant done == reg.AttributeEdges(attrs[..i])
        invariant Gathering(reg, tid, avoid, path, final, output, done)
      {
        AttributeUpcoming(reg, tid, i);
        assert done + [] == done;
        match attrs[i] {
          case Pointer(name, pointee) =>
            if pointee != reg.objectType {
              GatheringStep(reg, tid, avoid, path, final, output, done, Edge(name, pointee));
              Follow(reg, tid, name, pointee);
            }
          case Container(name, item) =>
            GatheringStep(reg, tid, avoid, path, final, output, done, Edge(name + "/[i]", item));
            Follow(reg, tid, name + "/[i]", item);
          case Plain(_) =>
        }
        done := done + reg.AttributeEdge(attrs[i]);
      }
      assert attrs[..|attrs|] == attrs;
      ghost var first := done;
      assert first + [] == first;
      for j := 0 to reg.n
        invariant currentPath == path && alreadyProcessed == old(alreadyProcessed)
        invariant done == first + reg.ChildEdges(tid, j)
        invariant Gathering(reg, tid, avoid, path, final, output, done)
      {
        ChildUpcoming(reg, tid, j);
        assert done + [] == done;
        if reg.isChildOf(j, tid) {
          var childName := "$" + reg.name(j);
          GatheringStep(reg, tid, avoid, path, final, output, done, Edge(childName, j));
          Follow(reg, tid, childName, j);
        }
        done := done + reg.ChildEdge(tid, j);
      }
      ghost var second := done;
      assert second + [] == second;
      for i := 0 to |reg.aggregates|
        invariant currentPath == path && alreadyProcessed == old(alreadyProcessed)
        invariant done == second + reg.AggregateEdges(tid, reg.aggregates[..i])
        invariant Gathering(reg, tid, avoid, path, final, output, done)
      {
        AggregateUpcoming(reg, tid, i);
        assert done + [] == done;
        var item := reg.aggregates[i];
        if item.0 == tid || item.1 == tid {
          var other: TypeId := item.1;
          if item.1 == tid { other := item.0; }
          var name := "$" + reg.name(other);
          GatheringStep(reg, tid, avoid, path, final, output, done, Edge(name, other));
          Follow(reg, tid, name, other);
        }
        done := done + reg.AggregateEdge(tid, item);
      }
      assert reg.aggregates[..|reg.aggregates|] == reg.aggregates;
      AllEdges(reg, tid);
      GatheringEnd(reg, tid, avoid, path, final, output);
    }

    /** The entry point, called with empty stacks.  (The clean-up the program runs afterwards works on a
        copy of the output and changes nothing.) */
    method Gather(reg: Registry, tid: TypeId)
      requires reg.Valid() && tid < reg.n && currentPath == [] && alreadyProcessed == []
      modifies this
      ensures currentPath == [] && alreadyProcessed == []
      ensures reg.Closed() && output == old(output) + Gathered(reg, tid, {}, [])
    {
      ValidIsClosed(reg);
      hide Registry.Closed, Registry.Valid, Gathered;
      DoGather(reg, tid);
    }

    /** One recursive visit: pushes the label and the ancestor, explores, and pops both. */
    method Follow(reg: Registry, tid: TypeId, tag: string, target: TypeId)
      requires reg.Valid() && reg.Closed() && tid < reg.n && target < reg.n && tid !in alreadyProcessed
      modifies this
      ensures currentPath == old(currentPath) && alreadyProcessed == old(alreadyProcessed)
      ensures output == old(output) +
                        Gathered(reg, target, Elements(old(alreadyProcessed)) + {tid}, old(currentPath) + [tag])
      decreases Below(reg.n) - Elements(alreadyProcessed), 0
    {
      hide Registry.Valid, Registry.Closed, Gathered, Elements, Below;
      currentPath := currentPath + [tag];
      alreadyProcessed := alreadyProcessed + [tid];
      ElementsAdd(old(alreadyProcessed), tid, reg.n);
      DoGather(reg, target);
      alreadyProcessed := alreadyProcessed[..|alreadyProcessed| - 1];
      currentPath := currentPath[..|currentPath| - 1];
    }
  }

  lemma ElementsAdd(s: seq<TypeId>, t: TypeId, n: nat)
    requires t < n && t !in s
    ensures Elements(s + [t]) == Elements(s) + {t}
    ensures Below(n) - Elements(s + [t]) < Below(n) - Elements(s)
  {
    assert t in Below(n) && t !in Elements(s);
  }
}
