/** The topology probe's one-hop and two-hop neighbourhoods of the nodes' disk graph. */
module TopologyProbe {
  import opened Finite
  import opened Graphs
  import opened Space
  import opened Statistics

  ghost function Disk(pos: seq<Vector>, range: real): Graph {
    Graph(|pos|, set u: nat, v: nat | u < |pos| && v < |pos| && u != v && Within(pos[u], pos[v], range) :: (u, v))
  }

  /** Whether two nodes are within range of each other. */
  function NearPairs(pos: seq<Vector>, range: real): (nat, nat) -> bool {
    (u: nat, v: nat) => u < |pos| && v < |pos| && Within(pos[u], pos[v], range)
  }

  lemma DiskIsPairGraph(pos: seq<Vector>, range: real)
    ensures PairGraph(|pos|, NearPairs(pos, range)) == Disk(pos, range)
  {
  }

  method BuildAdjacency(pos: seq<Vector>, range: real) returns (adj: seq<seq<nat>>)
    ensures Lists(Disk(pos, range), adj)
  {
    hide Lists;
    DiskIsPairGraph(pos, range);
    adj := AdjacencyLists(|pos|, NearPairs(pos, range));
  }

  /** The nodes at hop distance `k` from `u`. */
  ghost function AtDistance(g: Graph, u: nat, k: nat): (r: set<nat>)
    ensures forall v: nat :: v in r <==> v < g.n && g.IsHopDistance(u, v, k)
  {
    set v: nat | v < g.n && g.IsHopDistance(u, v, k)
  }

  lemma DistanceOne(g: Graph, u: nat, v: nat)
    requires u < g.n && v < g.n
    ensures g.IsHopDistance(u, v, 1) <==> u != v && g.Adjacent(u, v)
  {
    if g.IsHopDistance(u, v, 1) {
      assert g.IsWalk([u], u, u);
      var w :| g.IsWalk(w, u, v) && |w| == 2;
      assert w == [u, v];
    }
    if u != v && g.Adjacent(u, v) {
      assert g.IsWalk([u, v], u, v);
    }
  }

  lemma WalkOfTwo(g: Graph, w: seq<nat>, u: nat, v: nat)
    requires g.IsWalk(w, u, v)
    ensures |w| == 2 ==> g.Adjacent(u, v)
  {
    if |w| == 2 {
      assert g.Adjacent(w[0], w[1]);
    }
  }

  /** Two hops away is exactly: neither the node itself nor its neighbour, but a neighbour's neighbour. */
  lemma DistanceTwo(g: Graph, u: nat, v: nat)
    requires u < g.n && v < g.n
    ensures g.IsHopDistance(u, v, 2)
            <==> u != v && !g.Adjacent(u, v) && exists w: nat :: g.Adjacent(u, w) && g.Adjacent(w, v)
  {
    if g.IsHopDistance(u, v, 2) {
      assert g.IsWalk([u], u, u);
      assert g.Adjacent(u, v) ==> g.IsWalk([u, v], u, v);
      var w :| g.IsWalk(w, u, v) && |w| == 3;
      assert g.Adjacent(w[0], w[1]) && g.Adjacent(w[1], w[2]);
    }
    if u != v && !g.Adjacent(u, v) && exists w: nat :: g.Adjacent(u, w) && g.Adjacent(w, v) {
      var x: nat :| g.Adjacent(u, x) && g.Adjacent(x, v);
      assert g.IsWalk([u, x, v], u, v);
      forall w | g.IsWalk(w, u, v) ensures 3 <= |w| {
        WalkOfTwo(g, w, u, v);
      }
    }
  }

  /** The neighbours' neighbours of `i` that are neither `i` nor its neighbours. */
  method TwoHopSet(ghost g: Graph, adj: seq<seq<nat>>, i: nat) returns (oneHop: set<nat>, twoHop: set<nat>)
    requires Lists(g, adj) && i < g.n
    ensures oneHop == AtDistance(g, i, 1) && |adj[i]| == |oneHop|
    ensures twoHop == AtDistance(g, i, 2)
  {
    hide Graph.IsHopDistance;
    oneHop := set v | v in adj[i];
    twoHop := {};
    for k := 0 to |adj[i]|
      invariant forall v: nat :: v in twoHop <==>
                  v != i && v !in oneHop && exists m :: 0 <= m < k && g.Adjacent(adj[i][m], v)
    {
      var u := adj[i][k];
      assert g.Adjacent(i, u);
      ghost var before := twoHop;
      for l := 0 to |adj[u]|
        invariant forall v: nat :: v in twoHop <==>
                    v in before || (v != i && v !in oneHop && exists m :: 0 <= m < l && adj[u][m] == v)
      {
        var v := adj[u][l];
        if v == i || v in oneHop { continue; }
        twoHop := twoHop + {v};
      }
      assert forall v: nat :: g.Adjacent(u, v) <==> v in adj[u];
    }
    forall v: nat | v < g.n
      ensures v in oneHop <==> g.IsHopDistance(i, v, 1)
      ensures v in twoHop <==> g.IsHopDistance(i, v, 2)
    {
      DistanceOne(g, i, v);
      DistanceTwo(g, i, v);
      assert forall w: nat :: g.Adjacent(i, w) <==> w in adj[i];
    }
    assert oneHop == AtDistance(g, i, 1);
    assert oneHop == Elements(adj[i]);
  }

  function Count(s: seq<nat>, x: int): nat {
    if s == [] then 0 else Count(s[..|s| - 1], x) + if s[|s| - 1] == x then 1 else 0
  }

  /** Mean, and standard deviation before its square root. */
  datatype Spread = Spread(mean: real, variance: real)

  ghost function Reals(counts: seq<nat>): (v: seq<real>)
    ensures |v| == |counts| && forall i :: 0 <= i < |v| ==> v[i] == counts[i] as real
  {
    seq(|counts|, i requires 0 <= i < |counts| => counts[i] as real)
  }

  ghost predicate IsSpreadOf(s: Spread, counts: seq<nat>) {
    s.mean == Mean(Reals(counts)) && s.variance == Variance(Reals(counts))
  }

  /** The deviation of fewer than two values is 0 without looking at them; it would be anyway. */
  method VarianceAbout(v: seq<real>, mean: real) returns (r: real)
    requires mean == Mean(v)
    ensures r == Variance(v)
  {
    if |v| < 2 {
      FewDoNotVary(v);
      return 0.0;
    }
    hide Mean;
    var s := 0.0;
    for i := 0 to |v|
      invariant s == Deviations(v[..i], mean)
    {
      assert v[..i + 1][..i] == v[..i];
      var d := v[i] - mean;
      s := s + Square(d);
    }
    assert v[..|v|] == v;
    return s / |v| as real;
  }

  lemma FewDoNotVary(v: seq<real>)
    requires |v| < 2
    ensures Variance(v) == 0.0
  {
    if v != [] {
      assert Sum(v) == Sum([]) + v[0] by { assert v[..0] == []; }
      assert Mean(v) == v[0];
      assert Deviations(v, v[0]) == Deviations([], v[0]) + Square(v[0] - v[0]) by { assert v[..0] == []; }
    }
  }

  method SpreadOf(counts: seq<nat>) returns (s: Spread)
    ensures IsSpreadOf(s, counts)
  {
    hide Mean, Variance;
    var v := seq(|counts|, i requires 0 <= i < |counts| => counts[i] as real);
    assert v == Reals(counts);
    var mean := ComputeMean(v);
    var variance := VarianceAbout(v, mean);
    s := Spread(mean, variance);
  }

  /** The probe of a topology: each node's numbers of nodes one hop and two hops away, their extremes and
      spreads, how many routing tables are full and how their sizes spread, and whether the flow's two ends, nodes 1 and 0, are neighbours. */
  method RecordTopologyProbe(pos: seq<Vector>, range: real, rtSizes: seq<nat>)
    returns (neighborCounts: seq<nat>, twoHopCounts: seq<nat>, minNei: nat, maxNei: nat,
             fullyConverged: nat, node1IsNeighborOfNode0: bool, nei: Spread, two: Spread, rt: Spread)
    requires pos != [] && |rtSizes| == |pos|
    ensures |neighborCounts| == |twoHopCounts| == |pos|
    ensures forall i :: 0 <= i < |pos| ==>
              && neighborCounts[i] == |AtDistance(Disk(pos, range), i, 1)|
              && twoHopCounts[i] == |AtDistance(Disk(pos, range), i, 2)|
    ensures minNei in neighborCounts && maxNei in neighborCounts
    ensures forall d :: d in neighborCounts ==> minNei <= d <= maxNei
    ensures fullyConverged == Count(rtSizes, |pos| - 1)
    ensures node1IsNeighborOfNode0 <==> Disk(pos, range).Adjacent(1, 0)
    ensures IsSpreadOf(nei, neighborCounts) && IsSpreadOf(two, twoHopCounts) && IsSpreadOf(rt, rtSizes)
  {
    hide *;
    var n := |pos|;
    ghost var g := Disk(pos, range);
    var adj := BuildAdjacency(pos, range);
    DiskLists(pos, range, adj);
    CountPrefix(rtSizes, n - 1, 0);
    neighborCounts, twoHopCounts, fullyConverged := [], [], 0;
    minNei, maxNei := |adj[0]|, |adj[0]|;
    for i := 0 to n
      invariant |neighborCounts| == |twoHopCounts| == i
      invariant forall k :: 0 <= k < i ==>
                  && neighborCounts[k] == |AtDistance(g, k, 1)| && twoHopCounts[k] == |AtDistance(g, k, 2)|
      invariant minNei in neighborCounts + [|adj[0]|] && maxNei in neighborCounts + [|adj[0]|]
      invariant i > 0 ==> neighborCounts[0] == |adj[0]|
      invariant forall k :: 0 <= k < i ==> minNei <= neighborCounts[k] <= maxNei
      invariant fullyConverged == Count(rtSizes[..i], n - 1)
    {
      var deg := |adj[i]|;
      if deg < minNei { minNei := deg; }
      if deg > maxNei { maxNei := deg; }
      var oneHop, twoHop := TwoHopSet(g, adj, i);
      neighborCounts := neighborCounts + [deg];
      twoHopCounts := twoHopCounts + [|twoHop|];
      CountPrefix(rtSizes, n - 1, i);
      if rtSizes[i] == n - 1 { fullyConverged := fullyConverged + 1; }
    }
    assert rtSizes[..n] == rtSizes;
    nei := SpreadOf(neighborCounts);
    two := SpreadOf(twoHopCounts);
    rt := SpreadOf(rtSizes);
    node1IsNeighborOfNode0 := n >= 2 && 0 in adj[1];
  }

  lemma DiskLists(pos: seq<Vector>, range: real, adj: seq<seq<nat>>)
    requires Lists(Disk(pos, range), adj)
    ensures Disk(pos, range).n == |pos| == |adj|
    ensures |pos| > 1 ==> (0 in adj[1] <==> Disk(pos, range).Adjacent(1, 0))
    ensures |pos| <= 1 ==> !Disk(pos, range).Adjacent(1, 0)
  {
  }

  lemma CountPrefix(s: seq<nat>, x: int, i: nat)
    requires i <= |s|
    ensures Count(s[..0], x) == 0
    ensures i < |s| ==> Count(s[..i + 1], x) == Count(s[..i], x) + if s[i] == x then 1 else 0
  {
    if i < |s| {
      assert s[..i + 1][..i] == s[..i];
    }
  }
}
