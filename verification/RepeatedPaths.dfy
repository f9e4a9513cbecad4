/** When the gathered configuration paths hold the same record twice. */
module RepeatedPaths {
  import opened Finite
  import opened TypeGraph

  ghost predicate HasRepeat<T>(s: seq<T>) {
    exists i, j :: 0 <= i < j < |s| && s[i] == s[j]
  }

  // ---------------------------------------------------------------------------
  // Labels can be read back from a path
  // ---------------------------------------------------------------------------

  ghost predicate SlashFree(s: string) {
    forall i :: 0 <= i < |s| ==> s[i] != '/'
  }

  /** One label: a name, or a name followed by the container suffix. */
  ghost predicate IsLabel(l: string) {
    IsPlain(l) || IsIndexed(l)
  }

  ghost predicate IsPlain(l: string) {
    SlashFree(l) && l != "[i]"
  }

  ghost predicate IsIndexed(l: string) {
    |l| >= 4 && l[|l| - 4..] == "/[i]" && SlashFree(l[..|l| - 4])
  }

  ghost predicate AllLabels(ls: seq<string>) {
    forall i :: 0 <= i < |ls| ==> IsLabel(ls[i])
  }

  /** A text is split in one way at its last slash. */
  lemma LastSlash(x: string, p: string, y: string, q: string)
    requires SlashFree(p) && SlashFree(q) && x + "/" + p == y + "/" + q
    ensures x == y && p == q
  {
    var s := x + "/" + p;
    NoSlashAfter(x, p);
    NoSlashAfter(y, q);
    assert s[|x|] == '/' && s[|y|] == '/';
    assert |x| == |y|;
    assert s[..|x|] == x && s[..|y|] == y && s[|x| + 1..] == p && s[|y| + 1..] == q;
  }

  lemma NoSlashAfter(x: string, p: string)
    requires SlashFree(p)
    ensures forall k :: |x| < k < |x| + 1 + |p| ==> (x + "/" + p)[k] != '/'
  {
    forall k | |x| < k < |x| + 1 + |p| ensures (x + "/" + p)[k] != '/' {
      assert (x + "/" + p)[k] == p[k - |x| - 1];
    }
  }

  /** Two labels at the end of one path are the same label. */
  lemma LastLabel(x: string, l: string, y: string, m: string)
    requires IsLabel(l) && IsLabel(m) && x + "/" + l == y + "/" + m
    ensures x == y && l == m
  {
    if IsPlain(l) && IsPlain(m) {
      LastSlash(x, l, y, m);
    } else if IsPlain(l) {
      PlainIsNotIndexed(x, l, y, m);
    } else if IsPlain(m) {
      PlainIsNotIndexed(y, m, x, l);
    } else {
      var a, b := l[..|l| - 4], m[..|m| - 4];
      assert x + "/" + l == (x + "/" + a) + "/[i]" && y + "/" + m == (y + "/" + b) + "/[i]";
      DropSuffix(x + "/" + a, y + "/" + b, "/[i]");
      LastSlash(x, a, y, b);
      assert l == a + "/[i]" && m == b + "/[i]";
    }
  }

  lemma DropSuffix(a: string, b: string, c: string)
    requires a + c == b + c
    ensures a == b
  {
    assert (a + c)[..|a|] == a && (b + c)[..|b|] == b;
  }

  lemma PlainIsNotIndexed(x: string, l: string, y: string, m: string)
    requires IsPlain(l) && IsIndexed(m)
    ensures x + "/" + l != y + "/" + m
  {
    var b := m[..|m| - 4];
    if x + "/" + l == y + "/" + m {
      assert m == b + "/" + "[i]" && y + "/" + m == (y + "/" + b) + "/" + "[i]";
      LastSlash(x, l, y + "/" + b, "[i]");
    }
  }

  /** A path determines its labels. */
  lemma {:induction false} PathIsInjective(a: seq<string>, b: seq<string>)
    requires AllLabels(a) && AllLabels(b) && PathString(a) == PathString(b)
    ensures a == b
    decreases |a|
  {
    if a != [] && b != [] {
      var l, m := a[|a| - 1], b[|b| - 1];
      LastLabel(PathString(a[..|a| - 1]), l, PathString(b[..|b| - 1]), m);
      PathIsInjective(a[..|a| - 1], b[..|b| - 1]);
      assert a == a[..|a| - 1] + [l] && b == b[..|b| - 1] + [m];
    } else {
      PathOfSome(a);
      PathOfSome(b);
    }
  }

  lemma PathOfSome(a: seq<string>)
    ensures PathString(a) == "" <==> a == []
  {
  }

  // ---------------------------------------------------------------------------
  // Extending a walk
  // ---------------------------------------------------------------------------

  ghost function End(reg: Registry, root: TypeId, w: seq<nat>): TypeId
    requires IsWalk(reg, root, w)
  {
    Visited(reg, root, w)[|w|]
  }

  lemma {:induction false} WalkSnoc(reg: Registry, root: TypeId, w: seq<nat>, k: nat)
    requires IsWalk(reg, root, w) && k < |reg.Edges(End(reg, root, w))|
    ensures var e := reg.Edges(End(reg, root, w))[k];
            && IsWalk(reg, root, w + [k])
            && Visited(reg, root, w + [k]) == Visited(reg, root, w) + [e.target]
            && Labels(reg, root, w + [k]) == Labels(reg, root, w) + [e.tag]
    decreases |w|
  {
    hide Registry.Edges;
    if w == [] {
      assert ([] + [k])[1..] == [];
    } else {
      var next := reg.Edges(root)[w[0]].target;
      assert End(reg, root, w) == End(reg, next, w[1..]);
      WalkSnoc(reg, next, w[1..], k);
      assert (w + [k])[1..] == w[1..] + [k];
    }
  }

  /** At the end of the simple walk `w`, two equal edges lead to a type not yet visited. */
  ghost predicate Fork(reg: Registry, root: TypeId, avoid: set<TypeId>, w: seq<nat>, j: nat, k: nat) {
    && IsSimpleWalk(reg, root, avoid, w)
    && var es := reg.Edges(End(reg, root, w));
       j < k < |es| && es[j] == es[k] && es[j].target !in Visited(reg, root, w) && es[j].target !in avoid
  }

  /** Tags that are equal lead to the same type. */
  ghost predicate TagsDetermine(reg: Registry) {
    forall t: TypeId, j: int, k: int :: t < reg.n && 0 <= j < |reg.Edges(t)| && 0 <= k < |reg.Edges(t)| ==>
      reg.Edges(t)[j].tag == reg.Edges(t)[k].tag ==> reg.Edges(t)[j].target == reg.Edges(t)[k].target
  }

  lemma SameTagSameEdge(reg: Registry, t: TypeId, j: nat, k: nat)
    requires TagsDetermine(reg) && t < reg.n && j < |reg.Edges(t)| && k < |reg.Edges(t)|
    requires reg.Edges(t)[j].tag == reg.Edges(t)[k].tag
    ensures reg.Edges(t)[j] == reg.Edges(t)[k]
  {
  }

  lemma ForkCons(reg: Registry, t: TypeId, avoid: set<TypeId>, k0: nat, w: seq<nat>, j: nat, k: nat)
    requires t !in avoid && k0 < |reg.Edges(t)|
    requires Fork(reg, reg.Edges(t)[k0].target, avoid + {t}, w, j, k)
    ensures Fork(reg, t, avoid, [k0] + w, j, k)
  {
    hide Registry.Edges;
    var next := reg.Edges(t)[k0].target;
    assert ([k0] + w)[1..] == w;
    SimpleWalkUnfold(reg, t, avoid, [k0] + w);
    assert Visited(reg, t, [k0] + w) == [t] + Visited(reg, next, w);
    assert End(reg, t, [k0] + w) == End(reg, next, w);
  }

  /** Two different simple walks with the same labels part at a fork. */
  lemma {:induction false} FirstDifference(reg: Registry, t: TypeId, avoid: set<TypeId>, a: seq<nat>, b: seq<nat>)
    returns (w: seq<nat>, j: nat, k: nat)
    requires reg.Closed() && TagsDetermine(reg) && t < reg.n && a != b
    requires IsSimpleWalk(reg, t, avoid, a) && IsSimpleWalk(reg, t, avoid, b)
    requires Labels(reg, t, a) == Labels(reg, t, b)
    ensures Fork(reg, t, avoid, w, j, k)
    decreases |a|
  {
    hide Registry.Edges, IsSimpleWalk, TagsDetermine, Fork;
    SimpleWalkUnfold(reg, t, avoid, a);
    SimpleWalkUnfold(reg, t, avoid, b);
    SimpleIsWalk(reg, t, avoid, a);
    SimpleIsWalk(reg, t, avoid, b);
    assert |a| == |Labels(reg, t, a)| == |b| && a != [];
    LabelsUnfold(reg, t, a);
    LabelsUnfold(reg, t, b);
    if a[0] == b[0] {
      assert a == [a[0]] + a[1..] && b == [b[0]] + b[1..];
      w, j, k := FirstDifference(reg, reg.Edges(t)[a[0]].target, avoid + {t}, a[1..], b[1..]);
      ForkCons(reg, t, avoid, a[0], w, j, k);
      w := [a[0]] + w;
    } else {
      SameTagSameEdge(reg, t, a[0], b[0]);
      w, j, k := [], if a[0] < b[0] then a[0] else b[0], if a[0] < b[0] then b[0] else a[0];
      ForkAtOnce(reg, t, avoid, j, k, a[1..]);
    }
  }

  lemma SimpleIsWalk(reg: Registry, t: TypeId, avoid: set<TypeId>, w: seq<nat>)
    requires IsSimpleWalk(reg, t, avoid, w)
    ensures IsWalk(reg, t, w)
  {
  }

  lemma LabelsUnfold(reg: Registry, t: TypeId, w: seq<nat>)
    requires w != [] && IsWalk(reg, t, w)
    ensures w[0] < |reg.Edges(t)| && IsWalk(reg, reg.Edges(t)[w[0]].target, w[1..])
    ensures Labels(reg, t, w)[0] == reg.Edges(t)[w[0]].tag
    ensures Labels(reg, t, w)[1..] == Labels(reg, reg.Edges(t)[w[0]].target, w[1..])
  {
  }

  lemma ForkAtOnce(reg: Registry, t: TypeId, avoid: set<TypeId>, j: nat, k: nat, rest: seq<nat>)
    requires t !in avoid && j < k < |reg.Edges(t)| && reg.Edges(t)[j] == reg.Edges(t)[k]
    requires IsSimpleWalk(reg, reg.Edges(t)[j].target, avoid + {t}, rest)
    ensures Fork(reg, t, avoid, [], j, k)
  {
    hide Registry.Edges;
    var next := reg.Edges(t)[j].target;
    assert Visited(reg, next, rest)[0] == next;
    SimpleWalkUnfold(reg, t, avoid, []);
  }

  // ---------------------------------------------------------------------------
  // Repeated records and forks
  // ---------------------------------------------------------------------------

  ghost predicate WellLabelled(reg: Registry) {
    forall t: TypeId, k: int :: t < reg.n && 0 <= k < |reg.Edges(t)| ==> IsLabel(reg.Edges(t)[k].tag)
  }

  lemma {:induction false} LabelsAreLabels(reg: Registry, t: TypeId, w: seq<nat>)
    requires reg.Closed() && WellLabelled(reg) && t < reg.n && IsWalk(reg, t, w)
    ensures AllLabels(Labels(reg, t, w))
    decreases |w|
  {
    hide Registry.Edges, IsLabel;
    if w != [] {
      LabelsUnfold(reg, t, w);
      LabelsAreLabels(reg, reg.Edges(t)[w[0]].target, w[1..]);
    }
  }

  /** Both edges of a fork extend its walk to the same record. */
  lemma ForkRepeats(reg: Registry, root: TypeId, w: seq<nat>, j: nat, k: nat)
    requires Fork(reg, root, {}, w, j, k)
    ensures IsSimpleWalk(reg, root, {}, w + [j]) && IsSimpleWalk(reg, root, {}, w + [k])
    ensures Record(reg, root, [], w + [j]) == Record(reg, root, [], w + [k])
  {
    hide Registry.Edges, PathString;
    WalkSnoc(reg, root, w, j);
    WalkSnoc(reg, root, w, k);
    assert [] + Labels(reg, root, w + [j]) == [] + Labels(reg, root, w + [k]);
  }

  lemma ForkGivesRepeat(reg: Registry, root: TypeId, w: seq<nat>, j: nat, k: nat)
    requires reg.Closed() && root < reg.n && Fork(reg, root, {}, w, j, k)
    ensures HasRepeat(Gathered(reg, root, {}, []))
  {
    hide Registry.Edges, Record, IsSimpleWalk, Gathered, Records, IsWalk, Visited;
    ForkRepeats(reg, root, w, j, k);
    ForkIndices(reg, root, w, j, k);
    var ws := GatheredIsExact(reg, root, []);
    var x: int :| 0 <= x < |ws| && ws[x] == w + [j];
    var y: int :| 0 <= y < |ws| && ws[y] == w + [k];
    RecordAt(reg, root, ws, x);
    RecordAt(reg, root, ws, y);
    assert x != y by { assert (w + [j])[|w|] == j && (w + [k])[|w|] == k; }
    var r := Gathered(reg, root, {}, []);
    assert if x < y then r[x] == r[y] else r[y] == r[x];
  }

  lemma ForkIndices(reg: Registry, root: TypeId, w: seq<nat>, j: nat, k: nat)
    requires Fork(reg, root, {}, w, j, k)
    ensures j < k
  {
  }

  lemma RecordAt(reg: Registry, root: TypeId, ws: seq<seq<nat>>, i: nat)
    requires AllWalks(reg, root, ws) && i < |ws|
    ensures |Records(reg, root, [], ws)| == |ws|
    ensures IsWalk(reg, root, ws[i]) && Records(reg, root, [], ws)[i] == Record(reg, root, [], ws[i])
  {
  }

  lemma RepeatGivesFork(reg: Registry, root: TypeId) returns (w: seq<nat>, j: nat, k: nat)
    requires reg.Closed() && WellLabelled(reg) && TagsDetermine(reg) && root < reg.n
    requires HasRepeat(Gathered(reg, root, {}, []))
    ensures Fork(reg, root, {}, w, j, k)
  {
    hide Registry.Edges, IsSimpleWalk, Gathered, Records, IsWalk, Visited, TagsDetermine, WellLabelled, Labels, PathString;
    var ws := GatheredIsExact(reg, root, []);
    var r := Gathered(reg, root, {}, []);
    var x, y :| 0 <= x < y < |r| && r[x] == r[y];
    RecordAt(reg, root, ws, x);
    RecordAt(reg, root, ws, y);
    assert ws[x] in ws && ws[y] in ws;
    LabelsAreLabels(reg, root, ws[x]);
    LabelsAreLabels(reg, root, ws[y]);
    var a, b := Labels(reg, root, ws[x]), Labels(reg, root, ws[y]);
    assert [] + a == a && [] + b == b;
    PathIsInjective(a, b);
    w, j, k := FirstDifference(reg, root, {}, ws[x], ws[y]);
  }

  /** Records repeat exactly when some simple walk from the root ends at a type with two equal edges to a
      type it has not visited. */
  lemma RepeatsExactlyAtForks(reg: Registry, root: TypeId)
    requires reg.Closed() && WellLabelled(reg) && TagsDetermine(reg) && root < reg.n
    ensures HasRepeat(Gathered(reg, root, {}, [])) <==> exists w, j, k :: Fork(reg, root, {}, w, j, k)
  {
    hide *;
    if HasRepeat(Gathered(reg, root, {}, [])) {
      var w, j, k := RepeatGivesFork(reg, root);
    }
    forall w, j, k | Fork(reg, root, {}, w, j, k) ensures HasRepeat(Gathered(reg, root, {}, [])) {
      ForkGivesRepeat(reg, root, w, j, k);
    }
  }

  // ---------------------------------------------------------------------------
  // Forks of a registry
  // ---------------------------------------------------------------------------

  /** Type names and attribute names are free of slashes; types have different names, and so have the
      attributes of one type; no attribute is called `[i]` or starts with a dollar sign. */
  ghost predicate Named(reg: Registry) {
    && (forall t: TypeId :: t < reg.n ==> SlashFree(reg.name(t)))
    && (forall t: TypeId, u: TypeId :: t < reg.n && u < reg.n && t != u ==> reg.name(t) != reg.name(u))
    && (forall t: TypeId :: t < reg.n ==> AttributesNamed(reg.attributes(t)))
  }

  ghost predicate AttributesNamed(attrs: seq<Attribute>) {
    && (forall i :: 0 <= i < |attrs| ==> AttributeNamed(attrs[i].name))
    && (forall i, j :: 0 <= i < j < |attrs| ==> attrs[i].name != attrs[j].name)
  }

  ghost predicate AttributeNamed(name: string) {
    SlashFree(name) && name != "[i]" && (name != "" ==> name[0] != '$')
  }

  /** The number of ways from `t` to `u` by a child relation or an aggregation. */
  ghost function Links(reg: Registry, t: TypeId, u: TypeId): nat {
    (if reg.isChildOf(u, t) then 1 else 0) + AggregateLinks(reg.aggregates, t, u)
  }

  ghost function AggregateLinks(items: seq<(TypeId, TypeId)>, t: TypeId, u: TypeId): nat {
    if items == [] then 0 else
      AggregateLinks(items[..|items| - 1], t, u) + (if Joins(items[|items| - 1], t, u) then 1 else 0)
  }

  predicate Joins(item: (TypeId, TypeId), t: TypeId, u: TypeId) {
    (item.1 == t && item.0 == u) || (item.0 == t && item.1 == u && item.1 != t)
  }

  ghost function Count(es: seq<Edge>, e: Edge): nat {
    if es == [] then 0 else Count(es[..|es| - 1], e) + (if es[|es| - 1] == e then 1 else 0)
  }

  lemma {:induction false} CountConcat(a: seq<Edge>, b: seq<Edge>, e: Edge)
    ensures Count(a + b, e) == Count(a, e) + Count(b, e)
    decreases |b|
  {
    if b == [] {
      assert a + b == a;
    } else {
      assert (a + b)[..|a + b| - 1] == a + b[..|b| - 1];
      CountConcat(a, b[..|b| - 1], e);
    }
  }

  ghost predicate Occurs(es: seq<Edge>, e: Edge) {
    exists k :: 0 <= k < |es| && es[k] == e
  }

  ghost predicate OccursTwice(es: seq<Edge>, e: Edge) {
    exists j, k :: 0 <= j < k < |es| && es[j] == e && es[k] == e
  }

  lemma {:induction false} CountTellsOccurrences(es: seq<Edge>, e: Edge)
    ensures Count(es, e) >= 1 <==> Occurs(es, e)
    ensures Count(es, e) >= 2 <==> OccursTwice(es, e)
    decreases |es|
  {
    if es != [] {
      var m := |es| - 1;
      var init := es[..m];
      CountTellsOccurrences(init, e);
      assert forall k :: 0 <= k < m ==> init[k] == es[k];
      if Occurs(init, e) {
        var k :| 0 <= k < m && init[k] == e;
        assert es[k] == e;
      }
      if OccursTwice(init, e) {
        var j, k :| 0 <= j < k < m && init[j] == e && init[k] == e;
        assert es[j] == e && es[k] == e;
      }
      if OccursTwice(es, e) {
        var j, k :| 0 <= j < k < |es| && es[j] == e && es[k] == e;
        assert init[j] == e;
        assert k < m ==> init[k] == e;
      }
    }
  }

  /** An edge to a named type, as children and aggregations make them. */
  function TypeEdge(reg: Registry, u: TypeId): Edge {
    Edge("$" + reg.name(u), u)
  }

  lemma {:induction false} ChildEdgeCount(reg: Registry, t: TypeId, j: nat, u: TypeId)
    ensures Count(reg.ChildEdges(t, j), TypeEdge(reg, u)) == if u < j && reg.isChildOf(u, t) then 1 else 0
  {
    hide Count, TypeEdge;
    if j > 0 {
      ChildEdgeCount(reg, t, j - 1, u);
      CountConcat(reg.ChildEdges(t, j - 1), reg.ChildEdge(t, j - 1), TypeEdge(reg, u));
      ChildIsTypeEdge(reg, t, j - 1, u);
    } else {
      CountOne([], TypeEdge(reg, u));
    }
  }

  lemma ChildIsTypeEdge(reg: Registry, t: TypeId, j: TypeId, u: TypeId)
    ensures Count(reg.ChildEdge(t, j), TypeEdge(reg, u)) == if u == j && reg.isChildOf(u, t) then 1 else 0
  {
    hide Count;
    CountOne(reg.ChildEdge(t, j), TypeEdge(reg, u));
  }

  lemma CountOne(es: seq<Edge>, e: Edge)
    requires |es| <= 1
    ensures Count(es, e) == if |es| == 1 && es[0] == e then 1 else 0
  {
  }

  lemma {:induction false} AggregateEdgeCount(reg: Registry, t: TypeId, items: seq<(TypeId, TypeId)>, u: TypeId)
    ensures Count(reg.AggregateEdges(t, items), TypeEdge(reg, u)) == AggregateLinks(items, t, u)
    decreases |items|
  {
    if items != [] {
      var init, last := items[..|items| - 1], items[|items| - 1];
      AggregateEdgeCount(reg, t, init, u);
      CountConcat(reg.AggregateEdges(t, init), reg.AggregateEdge(t, last), TypeEdge(reg, u));
      CountOne(reg.AggregateEdge(t, last), TypeEdge(reg, u));
    }
  }

  /** The tag of an attribute's edge. */
  predicate TagOf(a: Attribute, tag: string) {
    match a
    case Pointer(name, _) => tag == name
    case Container(name, _) => tag == name + "/[i]"
    case Plain(_) => false
  }

  ghost predicate TagFrom(attrs: seq<Attribute>, tag: string) {
    exists i :: 0 <= i < |attrs| && TagOf(attrs[i], tag)
  }

  lemma AttributeTag(name: string, tag: string)
    requires AttributeNamed(name) && (tag == name || tag == name + "/[i]")
    ensures IsLabel(tag) && (tag != "" ==> tag[0] != '$')
  {
    if tag == name + "/[i]" {
      assert tag[|tag| - 4..] == "/[i]" && tag[..|tag| - 4] == name;
    }
  }

  lemma TagsOfNames(a: Attribute, b: Attribute, tag: string)
    requires AttributeNamed(a.name) && AttributeNamed(b.name) && TagOf(a, tag) && TagOf(b, tag)
    ensures a.name == b.name
  {
    NameOfTag(a, tag);
    NameOfTag(b, tag);
  }

  /** The name is what stands before the first slash of the tag. */
  function UpToSlash(s: string): string {
    if s == "" || s[0] == '/' then "" else [s[0]] + UpToSlash(s[1..])
  }

  lemma {:induction false} UpToSlashOf(name: string, rest: string)
    requires SlashFree(name) && (rest != "" ==> rest[0] == '/')
    ensures UpToSlash(name + rest) == name
    decreases |name|
  {
    if name == "" {
      assert name + rest == rest;
    } else {
      assert (name + rest)[1..] == name[1..] + rest;
      UpToSlashOf(name[1..], rest);
    }
  }

  lemma NameOfTag(a: Attribute, tag: string)
    requires AttributeNamed(a.name) && TagOf(a, tag)
    ensures a.name == UpToSlash(tag)
  {
    UpToSlashOf(a.name, "");
    UpToSlashOf(a.name, "/[i]");
    assert a.name + "" == a.name;
  }

  /** The attribute edges of a type have labels for tags, none twice and none starting with a dollar sign. */
  ghost predicate AttributeTagsFit(es: seq<Edge>, attrs: seq<Attribute>) {
    && (forall k :: 0 <= k < |es| ==> TagFits(es[k].tag) && TagFrom(attrs, es[k].tag))
    && (forall j, k :: 0 <= j < k < |es| ==> es[j].tag != es[k].tag)
  }

  ghost predicate TagFits(tag: string) {
    IsLabel(tag) && (tag != "" ==> tag[0] != '$')
  }

  lemma TagFromPrefix(attrs: seq<Attribute>, tag: string)
    requires attrs != [] && TagFrom(attrs[..|attrs| - 1], tag)
    ensures TagFrom(attrs, tag)
  {
    var i :| 0 <= i < |attrs| - 1 && TagOf(attrs[..|attrs| - 1][i], tag);
    assert TagOf(attrs[i], tag);
  }

  lemma FreshTag(attrs: seq<Attribute>, tag: string)
    requires AttributesNamed(attrs) && attrs != [] && TagOf(attrs[|attrs| - 1], tag)
    ensures !TagFrom(attrs[..|attrs| - 1], tag) && TagFits(tag) && TagFrom(attrs, tag)
  {
    hide TagFits, AttributeNamed, TagOf;
    var m := |attrs| - 1;
    if TagFrom(attrs[..m], tag) {
      var i :| 0 <= i < m && TagOf(attrs[..m][i], tag);
      TagsOfNames(attrs[i], attrs[m], tag);
    }
    TagIsLabel(attrs[m], tag);
  }

  lemma TagIsLabel(a: Attribute, tag: string)
    requires AttributeNamed(a.name) && TagOf(a, tag)
    ensures TagFits(tag)
  {
    AttributeTag(a.name, tag);
  }

  lemma {:induction false} AttributeEdgesFit(reg: Registry, attrs: seq<Attribute>)
    requires AttributesNamed(attrs)
    ensures AttributeTagsFit(reg.AttributeEdges(attrs), attrs)
    decreases |attrs|
  {
    hide TagFits, AttributeNamed, TagFrom;
    if attrs != [] {
      var m := |attrs| - 1;
      AttributeEdgesFit(reg, attrs[..m]);
      var before, last := reg.AttributeEdges(attrs[..m]), reg.AttributeEdge(attrs[m]);
      forall k | 0 <= k < |before| ensures TagFrom(attrs, before[k].tag) {
        TagFromPrefix(attrs, before[k].tag);
      }
      if last != [] {
        assert last == [last[0]] && TagOf(attrs[m], last[0].tag);
        FreshTag(attrs, last[0].tag);
      }
    }
  }

  ghost predicate TypeEdges(reg: Registry, es: seq<Edge>) {
    forall k :: 0 <= k < |es| ==> es[k].target < reg.n && es[k] == TypeEdge(reg, es[k].target)
  }

  lemma {:induction false} ChildEdgesAreTypeEdges(reg: Registry, t: TypeId, j: nat)
    requires j <= reg.n
    ensures TypeEdges(reg, reg.ChildEdges(t, j))
  {
    if j > 0 {
      ChildEdgesAreTypeEdges(reg, t, j - 1);
    }
  }

  lemma {:induction false} AggregateEdgesAreTypeEdges(reg: Registry, t: TypeId, items: seq<(TypeId, TypeId)>)
    requires forall i :: 0 <= i < |items| ==> items[i].0 < reg.n && items[i].1 < reg.n
    ensures TypeEdges(reg, reg.AggregateEdges(t, items))
    decreases |items|
  {
    if items != [] {
      AggregateEdgesAreTypeEdges(reg, t, items[..|items| - 1]);
    }
  }

  /** The edges of `t` that come from the child relation and from aggregations. */
  ghost function NamedEdges(reg: Registry, t: TypeId): seq<Edge> {
    reg.ChildEdges(t, reg.n) + reg.AggregateEdges(t, reg.aggregates)
  }

  lemma NamedEdgesAreLinks(reg: Registry, t: TypeId, u: TypeId)
    requires u < reg.n
    ensures Count(NamedEdges(reg, t), TypeEdge(reg, u)) == Links(reg, t, u)
  {
    hide Count, TypeEdge, AggregateLinks, Registry.ChildEdges, Registry.AggregateEdges;
    ChildEdgeCount(reg, t, reg.n, u);
    AggregateEdgeCount(reg, t, reg.aggregates, u);
    CountConcat(reg.ChildEdges(t, reg.n), reg.AggregateEdges(t, reg.aggregates), TypeEdge(reg, u));
  }

  lemma NamedEdgesAreTypeEdges(reg: Registry, t: TypeId)
    requires reg.Valid()
    ensures TypeEdges(reg, NamedEdges(reg, t))
  {
    hide TypeEdge, Registry.ChildEdges, Registry.AggregateEdges;
    ChildEdgesAreTypeEdges(reg, t, reg.n);
    AggregateEdgesAreTypeEdges(reg, t, reg.aggregates);
  }

  lemma EdgesInTwo(reg: Registry, t: TypeId)
    ensures reg.Edges(t) == reg.AttributeEdges(reg.attributes(t)) + NamedEdges(reg, t)
  {
    hide Registry.AttributeEdges, Registry.ChildEdges, Registry.AggregateEdges;
  }

  /** The edges of `t`: attribute edges with tags of their own, then edges to named types. */
  lemma EdgesOf(reg: Registry, t: TypeId) returns (a: seq<Edge>, b: seq<Edge>)
    requires reg.Valid() && Named(reg) && t < reg.n
    ensures reg.Edges(t) == a + b && AttributeTagsFit(a, reg.attributes(t)) && TypeEdges(reg, b)
    ensures forall u: TypeId :: u < reg.n ==> Count(b, TypeEdge(reg, u)) == Links(reg, t, u)
  {
    hide *;
    a, b := reg.AttributeEdges(reg.attributes(t)), NamedEdges(reg, t);
    EdgesInTwo(reg, t);
    AttributesAreNamed(reg, t);
    AttributeEdgesFit(reg, reg.attributes(t));
    NamedEdgesAreTypeEdges(reg, t);
    forall u: TypeId | u < reg.n ensures Count(b, TypeEdge(reg, u)) == Links(reg, t, u) {
      NamedEdgesAreLinks(reg, t, u);
    }
  }

  lemma AttributesAreNamed(reg: Registry, t: TypeId)
    requires Named(reg) && t < reg.n
    ensures AttributesNamed(reg.attributes(t))
  {
  }

  lemma TypeTag(reg: Registry, u: TypeId)
    requires Named(reg) && u < reg.n
    ensures IsLabel(TypeEdge(reg, u).tag) && !TagFits(TypeEdge(reg, u).tag)
  {
    var name, tag := reg.name(u), TypeEdge(reg, u).tag;
    assert SlashFree(name);
    assert tag == "$" + name && tag[0] == '$';
    assert forall i :: 0 < i < |tag| ==> tag[i] == name[i - 1];
    assert "[i]"[0] == '[';
    assert IsPlain(tag);
  }

  lemma SameTypeTag(reg: Registry, u: TypeId, v: TypeId)
    requires Named(reg) && u < reg.n && v < reg.n && TypeEdge(reg, u).tag == TypeEdge(reg, v).tag
    ensures u == v
  {
    assert ("$" + reg.name(u))[1..] == reg.name(u) && ("$" + reg.name(v))[1..] == reg.name(v);
  }

  /** In a properly named registry every tag is a label and determines the type it leads to. */
  lemma NamedIsWellLabelled(reg: Registry)
    requires reg.Valid() && Named(reg)
    ensures WellLabelled(reg) && TagsDetermine(reg)
  {
    hide Named, TypeEdge, TagFrom, Registry.Valid, Registry.Edges, IsLabel, Links, Count;
    forall t: TypeId, k: int | t < reg.n && 0 <= k < |reg.Edges(t)| ensures IsLabel(reg.Edges(t)[k].tag) {
      var a, b := EdgesOf(reg, t);
      if k < |a| { FitIsLabel(a[k].tag); } else { TypeTag(reg, b[k - |a|].target); }
    }
    forall t: TypeId, j: int, k: int | t < reg.n && 0 <= j < |reg.Edges(t)| && 0 <= k < |reg.Edges(t)|
      ensures reg.Edges(t)[j].tag == reg.Edges(t)[k].tag ==> reg.Edges(t)[j].target == reg.Edges(t)[k].target
    {
      if reg.Edges(t)[j].tag == reg.Edges(t)[k].tag {
        var a, b := EdgesOf(reg, t);
        SameTagSameTarget(reg, a, b, reg.attributes(t), j, k);
      }
    }
  }

  lemma FitIsLabel(tag: string)
    requires TagFits(tag)
    ensures IsLabel(tag)
  {
  }

  lemma SameTagSameTarget(reg: Registry, a: seq<Edge>, b: seq<Edge>, attrs: seq<Attribute>, j: nat, k: nat)
    requires Named(reg) && AttributeTagsFit(a, attrs) && TypeEdges(reg, b)
    requires j < |a + b| && k < |a + b| && (a + b)[j].tag == (a + b)[k].tag
    ensures (a + b)[j].target == (a + b)[k].target
    ensures j != k ==> j >= |a| && k >= |a|
  {
    hide Named, TypeEdge, TagFits, TagFrom;
    if j >= |a| { TypeTag(reg, b[j - |a|].target); }
    if k >= |a| { TypeTag(reg, b[k - |a|].target); }
    if j >= |a| && k >= |a| {
      SameTypeTag(reg, b[j - |a|].target, b[k - |a|].target);
    }
  }

  /** Two equal edges from `t` to `u` are two links from `t` to `u`. */
  lemma EqualEdgesAreLinks(reg: Registry, t: TypeId, u: TypeId)
    requires reg.Valid() && Named(reg) && t < reg.n && u < reg.n
    ensures (exists j: nat, k: nat :: EqualEdges(reg.Edges(t), j, k, u)) <==> Links(reg, t, u) >= 2
  {
    hide Named, TagFits, TagFrom, Registry.Valid, Registry.Edges, Links, Count;
    var a, b := EdgesOf(reg, t);
    var e := TypeEdge(reg, u);
    CountTellsOccurrences(b, e);
    if Links(reg, t, u) >= 2 {
      var j, k :| 0 <= j < k < |b| && b[j] == e && b[k] == e;
      assert EqualEdges(reg.Edges(t), |a| + j, |a| + k, u);
    }
    forall j: nat, k: nat | EqualEdges(reg.Edges(t), j, k, u) ensures Links(reg, t, u) >= 2 {
      SameTagSameTarget(reg, a, b, reg.attributes(t), j, k);
      assert b[j - |a|] == e && b[k - |a|] == e;
      assert OccursTwice(b, e);
    }
  }

  ghost predicate EqualEdges(es: seq<Edge>, j: nat, k: nat, u: TypeId) {
    j < k < |es| && es[j] == es[k] && es[j].target == u
  }

  /** The simple walk `w` ends at a type that is linked twice to `u`, which it has not visited. */
  ghost predicate LinkedTwice(reg: Registry, root: TypeId, w: seq<nat>, u: TypeId) {
    && IsSimpleWalk(reg, root, {}, w) && u < reg.n
    && u !in Visited(reg, root, w) && Links(reg, End(reg, root, w), u) >= 2
  }

  lemma {:induction false} EndIsRegistered(reg: Registry, root: TypeId, w: seq<nat>)
    requires reg.Closed() && root < reg.n && IsWalk(reg, root, w)
    ensures End(reg, root, w) < reg.n
    decreases |w|
  {
    hide Registry.Edges;
    if w != [] {
      EndIsRegistered(reg, reg.Edges(root)[w[0]].target, w[1..]);
    }
  }

  lemma ForksAreLinks(reg: Registry, root: TypeId, w: seq<nat>, j: nat, k: nat)
    requires reg.Valid() && Named(reg) && root < reg.n && Fork(reg, root, {}, w, j, k)
    ensures exists u :: LinkedTwice(reg, root, w, u)
  {
    hide Named, Registry.Valid, Registry.Edges, Links, Visited, IsWalk;
    ValidIsClosed(reg);
    SimpleIsWalk(reg, root, {}, w);
    EndIsRegistered(reg, root, w);
    var t := End(reg, root, w);
    var u := reg.Edges(t)[j].target;
    TargetIsRegistered(reg, t, j);
    assert EqualEdges(reg.Edges(t), j, k, u);
    EqualEdgesAreLinks(reg, t, u);
    assert LinkedTwice(reg, root, w, u);
  }

  lemma TargetIsRegistered(reg: Registry, t: TypeId, k: nat)
    requires reg.Closed() && t < reg.n && k < |reg.Edges(t)|
    ensures reg.Edges(t)[k].target < reg.n
  {
  }

  lemma LinksAreForks(reg: Registry, root: TypeId, w: seq<nat>, u: TypeId)
    requires reg.Valid() && Named(reg) && root < reg.n && LinkedTwice(reg, root, w, u)
    ensures exists j, k :: Fork(reg, root, {}, w, j, k)
  {
    hide Named, Registry.Valid, Registry.Edges, Links, Visited, IsWalk;
    ValidIsClosed(reg);
    SimpleIsWalk(reg, root, {}, w);
    EndIsRegistered(reg, root, w);
    var t := End(reg, root, w);
    EqualEdgesAreLinks(reg, t, u);
    var j: nat, k: nat :| EqualEdges(reg.Edges(t), j, k, u);
    assert Fork(reg, root, {}, w, j, k);
  }

  /** Main result.  In a properly named registry the gathered paths hold a record twice exactly when some
      simple walk from the root ends at a type that is linked twice, by aggregations or by an aggregation
      and the child relation, to a type the walk has not visited. */
  lemma RepeatsExactlyAtDoubleLinks(reg: Registry, root: TypeId)
    requires reg.Valid() && Named(reg) && root < reg.n
    ensures reg.Closed()
    ensures HasRepeat(Gathered(reg, root, {}, [])) <==> exists w, u :: LinkedTwice(reg, root, w, u)
  {
    hide *;
    ValidIsClosed(reg);
    NamedIsWellLabelled(reg);
    RepeatsExactlyAtForks(reg, root);
    forall w, j, k | Fork(reg, root, {}, w, j, k) ensures exists u :: LinkedTwice(reg, root, w, u) {
      ForksAreLinks(reg, root, w, j, k);
    }
    forall w, u | LinkedTwice(reg, root, w, u) ensures exists j, k :: Fork(reg, root, {}, w, j, k) {
      LinksAreForks(reg, root, w, u);
    }
  }

  // ---------------------------------------------------------------------------
  // An aggregation registered twice
  // ---------------------------------------------------------------------------

  lemma {:induction false} TwoItemsTwoLinks(items: seq<(TypeId, TypeId)>, i: nat, j: nat, t: TypeId, u: TypeId)
    requires i < j < |items| && Joins(items[i], t, u) && Joins(items[j], t, u)
    ensures AggregateLinks(items, t, u) >= 2
    decreases |items|
  {
    if j < |items| - 1 {
      TwoItemsTwoLinks(items[..|items| - 1], i, j, t, u);
    } else {
      OneItemOneLink(items[..|items| - 1], i, t, u);
    }
  }

  lemma {:induction false} OneItemOneLink(items: seq<(TypeId, TypeId)>, i: nat, t: TypeId, u: TypeId)
    requires i < |items| && Joins(items[i], t, u)
    ensures AggregateLinks(items, t, u) >= 1
    decreases |items|
  {
    if i < |items| - 1 {
      OneItemOneLink(items[..|items| - 1], i, t, u);
    }
  }

  /** Registering one aggregation twice repeats a record: the paths gathered from its first type name the
      second type twice. */
  lemma AggregationTwiceRepeats(reg: Registry, i: nat, j: nat)
    requires reg.Valid() && Named(reg)
    requires i < j < |reg.aggregates| && reg.aggregates[i] == reg.aggregates[j]
    requires reg.aggregates[i].0 != reg.aggregates[i].1
    ensures reg.Closed() && reg.aggregates[i].0 < reg.n && HasRepeat(Gathered(reg, reg.aggregates[i].0, {}, []))
  {
    hide Named, Gathered;
    var (t, u) := reg.aggregates[i];
    TwoItemsTwoLinks(reg.aggregates, i, j, t, u);
    SimpleWalkUnfold(reg, t, {}, []);
    assert LinkedTwice(reg, t, [], u);
    RepeatsExactlyAtDoubleLinks(reg, t);
  }

  const NODE: string := "ns3::Node"
  const ICMP: string := "ns3::Icmpv4L4Protocol"

  /** The two types and the aggregation that the program registers twice. */
  function NodeAndIcmp(): Registry {
    Registry(2, 2, t => if t == 0 then NODE else ICMP, t => [], (t, u) => false, [(0, 1), (0, 1)])
  }

  lemma NamesAreSlashFree()
    ensures SlashFree(NODE) && SlashFree(ICMP)
  {
  }

  lemma NamesDiffer()
    ensures NODE != ICMP
  {
    assert |NODE| != |ICMP|;
  }

  lemma IcmpIsRepeated()
    ensures NodeAndIcmp().Closed() && HasRepeat(Gathered(NodeAndIcmp(), 0, {}, []))
  {
    hide Gathered, HasRepeat, Registry.Closed, SlashFree, NODE, ICMP;
    NamesAreSlashFree();
    NamesDiffer();
    AggregationTwiceRepeats(NodeAndIcmp(), 0, 1);
  }
}
