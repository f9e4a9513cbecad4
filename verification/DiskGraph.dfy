/** The disk graph over node placements: two nodes are neighbours when their distance is at
    most the radio range.  `HopCountsFrom` is the shortest-path search used to pick flows,
    `CountReached` the search that accepts a placement, `PlaceNodesConnected` the retry loop
    around it. */
module DiskGraph {
  import opened Finite
  import opened Graphs
  import Space

  datatype Point = Point(x: real, y: real)

  /** The largest 32-bit value, used as the "unreachable" mark. */
  const UNREACHABLE: nat := 0xFFFF_FFFF

  predicate Near(a: Point, b: Point, range: real) {
    var dx := a.x - b.x;
    var dy := a.y - b.y;
    dx * dx + dy * dy <= range * range
  }

  /** Being near is being within range in the plane, whatever the common height. */
  lemma NearIsWithin(a: Point, b: Point, height: real, range: real)
    ensures Near(a, b, range) <==> Space.Within(Space.Vector(a.x, a.y, height), Space.Vector(b.x, b.y, height), range)
  {
  }

  ghost function Disk(pos: seq<Point>, range: real): Graph {
    Graph(|pos|, set u: nat, v: nat | u < |pos| && v < |pos| && u != v && Near(pos[u], pos[v], range) :: (u, v))
  }

  lemma DiskUndirected(pos: seq<Point>, range: real)
    ensures Disk(pos, range).Undirected()
  {
  }

  // ---------------------------------------------------------------------------
  // HopCountsFrom: breadth-first hop counts
  // ---------------------------------------------------------------------------

  /** `h` holds the hop counts found so far, each witnessed by a walk; `done` the expanded nodes. */
  ghost predicate Numbered(g: Graph, src: nat, h: seq<nat>, done: set<nat>) {
    && |h| == g.n < UNREACHABLE
    && src < |h| && h[src] == 0
    && (forall u: nat :: u in done ==> u < |h| && h[u] != UNREACHABLE)
    && (forall v: nat :: v < |h| && h[v] != UNREACHABLE ==> h[v] <= |done|)
    && (forall v: nat :: v < |h| && h[v] != UNREACHABLE ==> g.HasWalk(src, v, h[v]))
  }

  /** The queue `q` lists the set `wait` of numbered but unexpanded nodes, each once. */
  ghost predicate Queued(h: seq<nat>, q: seq<nat>, wait: set<nat>, done: set<nat>) {
    && (forall v: nat :: v < |h| && h[v] != UNREACHABLE ==> v in done || v in wait)
    && (forall v: nat :: v in wait ==> v < |h| && h[v] != UNREACHABLE && v !in done)
    && (forall i :: 0 <= i < |q| ==> q[i] in wait)
    && (forall i, j :: 0 <= i < j < |q| ==> q[i] != q[j])
    && |q| == |wait|
  }

  /** The queue is ordered by hop count and spans at most two layers above the expanded nodes. */
  ghost predicate Layered(h: seq<nat>, q: seq<nat>, wait: set<nat>, level: nat, done: set<nat>)
    requires Queued(h, q, wait, done)
    requires forall u: nat :: u in done ==> u < |h|
  {
    && (forall i, j :: 0 <= i < j < |q| ==> h[q[i]] <= h[q[j]])
    && (forall v :: v in wait ==> level <= h[v] <= level + 1)
    && (forall u :: u in done ==> h[u] <= level)
  }

  /** Every neighbour of the expanded node `u`, up to `bound`, is at most one hop further. */
  ghost predicate Expanded(g: Graph, h: seq<nat>, u: nat, bound: nat)
    requires u < |h| == g.n
  {
    forall v: nat :: v < bound && g.Adjacent(u, v) ==> h[v] != UNREACHABLE && h[v] <= h[u] + 1
  }

  lemma {:induction false} WalkIsNoShorter(g: Graph, src: nat, h: seq<nat>, w: seq<nat>, v: nat)
    requires |h| == g.n && src < |h| && h[src] == 0 && 0 < |h| < UNREACHABLE
    requires forall u: nat :: u < |h| && h[u] != UNREACHABLE ==> Expanded(g, h, u, |h|)
    requires g.IsWalk(w, src, v)
    ensures h[v] != UNREACHABLE && h[v] + 1 <= |w|
    decreases |w|
  {
    if |w| > 1 {
      var u := w[|w| - 2];
      PrefixWalk(g, w, src, v, |w| - 2);
      WalkIsNoShorter(g, src, h, w[..|w| - 1], u);
      assert g.Adjacent(u, v);
    }
  }

  lemma SearchFinished(g: Graph, src: nat, h: seq<nat>, wait: set<nat>, level: nat, done: set<nat>, u: nat)
    requires Searching(g, src, h, [], wait, level, done, u, g.n)
    ensures HopCounts(g, src, h)
  {
    forall v: nat | v < |h|
      ensures h[v] == UNREACHABLE <==> !g.Reaches(src, v)
      ensures h[v] != UNREACHABLE ==> g.IsHopDistance(src, v, h[v])
    {
      forall w | g.IsWalk(w, src, v) ensures h[v] != UNREACHABLE && h[v] + 1 <= |w| {
        WalkIsNoShorter(g, src, h, w, v);
      }
      if h[v] != UNREACHABLE {
        assert g.HasWalk(src, v, h[v]);
      }
    }
  }

  /** What the search promises: exact shortest distances, and the mark exactly on the unreachable. */
  ghost predicate HopCounts(g: Graph, src: nat, h: seq<nat>) {
    && |h| == g.n
    && forall v: nat :: v < |h| ==>
      && (h[v] == UNREACHABLE <==> !g.Reaches(src, v))
      && (h[v] != UNREACHABLE ==> g.IsHopDistance(src, v, h[v]))
  }

  lemma SameElements(q: seq<nat>, wait: set<nat>)
    requires forall i :: 0 <= i < |q| ==> q[i] in wait
    requires forall i, j :: 0 <= i < j < |q| ==> q[i] != q[j]
    requires |q| == |wait|
    ensures forall v :: v in wait ==> v in q
  {
    var e := Elements(q);
    assert e <= wait && wait == e + (wait - e);
    assert |wait| == |e| + |wait - e|;
    assert wait - e == {};
  }

  /** Taking `q[0]` off the queue to expand it keeps the search state. */
  lemma DequeueNumbered(g: Graph, src: nat, h: seq<nat>, u: nat, done: set<nat>)
    requires Numbered(g, src, h, done) && u < |h| && h[u] != UNREACHABLE && u !in done
    ensures |done| < |done + {u}| <= |h| && h[u] < |done + {u}|
    ensures Numbered(g, src, h, done + {u})
  {
    SubsetBound(done + {u}, |h|);
  }

  lemma DequeueQueued(h: seq<nat>, q: seq<nat>, wait: set<nat>, done: set<nat>)
    requires Queued(h, q, wait, done) && q != []
    ensures Queued(h, q[1..], wait - {q[0]}, done + {q[0]})
  {
  }

  lemma DequeueLayered(h: seq<nat>, q: seq<nat>, wait: set<nat>, level: nat, done: set<nat>)
    requires Queued(h, q, wait, done) && q != [] && Queued(h, q[1..], wait - {q[0]}, done + {q[0]})
    requires forall u: nat :: u in done ==> u < |h|
    requires Layered(h, q, wait, level, done)
    ensures Layered(h, q[1..], wait - {q[0]}, h[q[0]], done + {q[0]})
  {
    SameElements(q, wait);
  }

  /** Enqueueing the undiscovered neighbour `v` of the node `u` being expanded keeps the search state. */
  lemma DiscoverNumbered(g: Graph, src: nat, h: seq<nat>, done: set<nat>, u: nat, v: nat)
    requires Numbered(g, src, h, done)
    requires u in done && h[u] < |done|
    requires g.Adjacent(u, v) && h[v] == UNREACHABLE
    ensures h[u] + 1 < UNREACHABLE
    ensures Numbered(g, src, h[v := h[u] + 1], done)
  {
    hide Graph.HasWalk;
    SubsetBound(done + {v}, |h|);
    ExtendWalk(g, src, u, v, h[u]);
  }

  lemma DiscoverQueued(h: seq<nat>, q: seq<nat>, wait: set<nat>, done: set<nat>, v: nat, k: nat)
    requires Queued(h, q, wait, done)
    requires v < |h| && h[v] == UNREACHABLE && k != UNREACHABLE && v !in done
    ensures Queued(h[v := k], q + [v], wait + {v}, done)
  {
  }

  lemma DiscoverLayered(h: seq<nat>, q: seq<nat>, wait: set<nat>, level: nat, done: set<nat>, v: nat)
    requires v < |h|
    requires Queued(h, q, wait, done) && Queued(h[v := level + 1], q + [v], wait + {v}, done)
    requires forall u: nat :: u in done ==> u < |h|
    requires Layered(h, q, wait, level, done)
    requires v !in done && v !in wait
    ensures Layered(h[v := level + 1], q + [v], wait + {v}, level, done)
  {
  }

  /** Writing the hop count of an undiscovered node disturbs no expanded node. */
  lemma ExpandedKept(g: Graph, h: seq<nat>, v: nat, k: nat, u: nat, bound: nat)
    requires |h| == g.n && v < |h| && h[v] == UNREACHABLE
    requires u < |h| && u != v && Expanded(g, h, u, bound)
    ensures Expanded(g, h[v := k], u, bound)
  {
  }

  /** The state of the search between two queue operations; `u` is the node being expanded and
      its neighbours below `bound` have been looked at (`bound == g.n` when none is in progress). */
  ghost predicate Searching(g: Graph, src: nat, h: seq<nat>, q: seq<nat>, wait: set<nat>, level: nat,
                            done: set<nat>, u: nat, bound: nat) {
    && Numbered(g, src, h, done)
    && Queued(h, q, wait, done)
    && Layered(h, q, wait, level, done)
    && (forall x: nat :: x in done && x != u ==> Expanded(g, h, x, g.n))
    && (u in done ==> h[u] == level < |done| && Expanded(g, h, u, bound))
  }

  lemma Dequeue(g: Graph, src: nat, h: seq<nat>, q: seq<nat>, wait: set<nat>, level: nat, done: set<nat>, u: nat)
    requires Searching(g, src, h, q, wait, level, done, u, g.n) && q != []
    ensures q[0] < |h| == g.n && |done| < |done + {q[0]}| <= |h|
    ensures Searching(g, src, h, q[1..], wait - {q[0]}, h[q[0]], done + {q[0]}, q[0], 0)
  {
    DequeueNumbered(g, src, h, q[0], done);
    DequeueQueued(h, q, wait, done);
    DequeueLayered(h, q, wait, level, done);
  }

  lemma Discover(g: Graph, src: nat, h: seq<nat>, q: seq<nat>, wait: set<nat>, level: nat, done: set<nat>, u: nat, v: nat)
    requires Searching(g, src, h, q, wait, level, done, u, v) && u in done
    requires g.Adjacent(u, v) && h[v] == UNREACHABLE
    ensures u != v
    ensures Searching(g, src, h[v := level + 1], q + [v], wait + {v}, level, done, u, v + 1)
  {
    hide Graph.HasWalk;
    DiscoverNumbered(g, src, h, done, u, v);
    DiscoverQueued(h, q, wait, done, v, level + 1);
    DiscoverLayered(h, q, wait, level, done, v);
    forall x: nat | x in done ensures Expanded(g, h[v := level + 1], x, if x == u then v else g.n) {
      ExpandedKept(g, h, v, level + 1, x, if x == u then v else g.n);
    }
  }

  lemma Pass(g: Graph, src: nat, h: seq<nat>, q: seq<nat>, wait: set<nat>, level: nat, done: set<nat>, u: nat, v: nat)
    requires Searching(g, src, h, q, wait, level, done, u, v) && u in done
    requires v < g.n && (g.Adjacent(u, v) ==> h[v] != UNREACHABLE)
    ensures Searching(g, src, h, q, wait, level, done, u, v + 1)
  {
  }

  lemma SearchStart(g: Graph, src: nat, h: seq<nat>)
    requires |h| == g.n < UNREACHABLE && src < g.n
    requires forall v: nat :: v < |h| ==> h[v] == if v == src then 0 else UNREACHABLE
    ensures Searching(g, src, h, [src], {src}, 0, {}, src, g.n)
  {
    assert g.IsWalk([src], src, src) && g.HasWalk(src, src, 0);
  }

  method HopCountsFrom(pos: seq<Point>, src: nat, range: real) returns (hops: array<nat>)
    requires src < |pos| < UNREACHABLE
    ensures fresh(hops)
    ensures HopCounts(Disk(pos, range), src, hops[..])
  {
    hide Searching;
    var n := |pos|;
    ghost var g := Disk(pos, range);
    hops := new nat[n](_ => UNREACHABLE);
    hops[src] := 0;
    var u, bfs: seq<nat> := src, [src];
    ghost var h: seq<nat>, wait: set<nat>, level: nat, done: set<nat> := hops[..], {src}, 0, {};
    SearchStart(g, src, h);
    while bfs != []
      invariant h == hops[..]
      invariant Searching(g, src, h, bfs, wait, level, done, u, n)
      decreases n - |done|
    {
      Dequeue(g, src, h, bfs, wait, level, done, u);
      u := bfs[0];
      bfs := bfs[1..];
      wait, level, done := wait - {u}, h[u], done + {u};
      for v := 0 to n
        invariant h == hops[..] && u in done && u < n && h[u] == level
        invariant Searching(g, src, h, bfs, wait, level, done, u, v)
      {
        if v == u || hops[v] != UNREACHABLE {
          Pass(g, src, h, bfs, wait, level, done, u, v);
          continue;
        }
        if Near(pos[u], pos[v], range) {
          Discover(g, src, h, bfs, wait, level, done, u, v);
          hops[v] := hops[u] + 1;
          bfs := bfs + [v];
          h, wait := h[v := level + 1], wait + {v};
        } else {
          Pass(g, src, h, bfs, wait, level, done, u, v);
        }
      }
    }
    SearchFinished(g, src, h, wait, level, done, u);
  }

  // ---------------------------------------------------------------------------
  // The search that accepts a placement
  // ---------------------------------------------------------------------------

  /** Whether two nodes are within range of each other. */
  function NearPairs(pos: seq<Point>, range: real): (nat, nat) -> bool {
    (u: nat, v: nat) => u < |pos| && v < |pos| && Near(pos[u], pos[v], range)
  }

  lemma DiskIsPairGraph(pos: seq<Point>, range: real)
    ensures PairGraph(|pos|, NearPairs(pos, range)) == Disk(pos, range)
  {
  }

  method BuildAdjacency(pos: seq<Point>, range: real) returns (adj: seq<seq<nat>>)
    ensures |adj| == |pos|
    ensures forall u: nat, v: nat :: u < |pos| ==> (v in adj[u] <==> Disk(pos, range).Adjacent(u, v))
  {
    DiskIsPairGraph(pos, range);
    adj := AdjacencyLists(|pos|, NearPairs(pos, range));
  }

  /** `seen` are the visited nodes, all reachable from node 0; those off the queue `q` (and other
      than `u`, which is being expanded) have all their neighbours visited. */
  ghost predicate Exploring(g: Graph, seen: set<nat>, q: seq<nat>, u: nat) {
    && 0 in seen && u in seen
    && (forall v: nat :: v in seen ==> v < g.n && g.Reaches(0, v))
    && (forall i :: 0 <= i < |q| ==> q[i] in seen)
    && (forall v: nat, x: nat :: v in seen && v !in q && v != u && g.Adjacent(v, x) ==> x in seen)
  }

  lemma ReachNeighbour(g: Graph, s: nat, u: nat, v: nat)
    requires g.Reaches(s, u) && g.Adjacent(u, v)
    ensures g.Reaches(s, v)
  {
    var w :| g.IsWalk(w, s, u);
    assert g.HasWalk(s, u, |w| - 1);
    ExtendWalk(g, s, u, v, |w| - 1);
  }

  lemma {:induction false} ClosedContains(g: Graph, seen: set<nat>, w: seq<nat>, s: nat, v: nat)
    requires s in seen
    requires forall x: nat, y: nat :: x in seen && g.Adjacent(x, y) ==> y in seen
    requires g.IsWalk(w, s, v)
    ensures v in seen
    decreases |w|
  {
    if |w| > 1 {
      PrefixWalk(g, w, s, v, |w| - 2);
      ClosedContains(g, seen, w[..|w| - 1], s, w[|w| - 2]);
    }
  }

  /** With an empty queue the visited nodes are the reachable ones, and all `n` are visited exactly
      when the graph is connected. */
  lemma Explored(g: Graph, seen: set<nat>, u: nat)
    requires g.Undirected() && Exploring(g, seen, [], u) && NeighboursIn(g, u, seen)
    ensures seen == set v: nat | v < g.n && g.Reaches(0, v)
    ensures |seen| == g.n <==> g.Connected()
  {
    forall v: nat | g.Reaches(0, v) ensures v in seen {
      var w :| g.IsWalk(w, 0, v);
      ClosedContains(g, seen, w, 0, v);
    }
    ConnectedFromZero(g);
    SubsetBound(seen, g.n);
    if g.Connected() {
      assert seen == Below(g.n);
    }
  }

  ghost predicate NeighboursIn(g: Graph, u: nat, seen: set<nat>) {
    forall x: nat :: g.Adjacent(u, x) ==> x in seen
  }

  lemma ExploreNext(g: Graph, seen: set<nat>, q: seq<nat>, u: nat)
    requires Exploring(g, seen, q, u) && (u in q || NeighboursIn(g, u, seen)) && q != []
    ensures q[0] < g.n
    ensures Exploring(g, seen, q[1..], q[0])
  {
    assert q == [q[0]] + q[1..];
  }

  lemma ExploreDiscover(g: Graph, seen: set<nat>, q: seq<nat>, u: nat, v: nat)
    requires Exploring(g, seen, q, u) && g.Adjacent(u, v) && v !in seen
    ensures v < g.n && |seen| < |seen + {v}| <= g.n
    ensures Exploring(g, seen + {v}, q + [v], u)
  {
    ReachNeighbour(g, 0, u, v);
    SubsetBound(seen + {v}, g.n);
  }

  method CountReached(pos: seq<Point>, range: real) returns (reached: nat)
    requires |pos| > 0
    ensures reached == |set v: nat | v < |pos| && Disk(pos, range).Reaches(0, v)|
    ensures reached == |pos| <==> Disk(pos, range).Connected()
  {
    var n := |pos|;
    ghost var g := Disk(pos, range);
    DiskUndirected(pos, range);
    var adj := BuildAdjacency(pos, range);
    assert g.n == n && g.Undirected() && g.IsWalk([0], 0, 0);
    assert Exploring(g, {0}, [0], 0);
    hide Disk, Exploring, Graph.Undirected;
    var visited := new bool[n](_ => false);
    visited[0] := true;
    var u, bfs: seq<nat> := 0, [0];
    reached := 1;
    ghost var seen: set<nat> := {0};
    while bfs != []
      invariant Exploring(g, seen, bfs, u) && (u in bfs || NeighboursIn(g, u, seen))
      invariant forall v: nat :: v < n ==> (visited[v] <==> v in seen)
      invariant reached == |seen| <= n
      decreases n - |seen|, |bfs|
    {
      ExploreNext(g, seen, bfs, u);
      u := bfs[0];
      bfs := bfs[1..];
      ghost var size, rest := |seen|, |bfs|;
      for k := 0 to |adj[u]|
        invariant Exploring(g, seen, bfs, u)
        invariant forall i :: 0 <= i < k ==> adj[u][i] in seen
        invariant forall v: nat :: v < n ==> (visited[v] <==> v in seen)
        invariant reached == |seen| <= n
        invariant size < |seen| || (size == |seen| && rest == |bfs|)
      {
        var v := adj[u][k];
        assert v in adj[u];
        if !visited[v] {
          visited[v] := true;
          reached := reached + 1;
          ExploreDiscover(g, seen, bfs, u, v);
          bfs, seen := bfs + [v], seen + {v};
        }
      }
    }
    Explored(g, seen, u);
  }

  // ---------------------------------------------------------------------------
  // The retry loop
  // ---------------------------------------------------------------------------

  const SEED_RANGE: nat := 0x1_0000_0000

  /** The placement drawn by attempt `a`; `draw(seed, i)` is where seed `seed` puts node `i`.
      Seeds are 32-bit and wrap around. */
  function Placement(draw: (nat, nat) -> Point, numNodes: nat, seedIn: nat, a: nat): seq<Point> {
    seq(numNodes, i requires 0 <= i < numNodes => draw((seedIn + a) % SEED_RANGE, i))
  }

  method PlaceNodesConnected(draw: (nat, nat) -> Point, numNodes: nat, range: real, seedIn: nat, maxAttempts: nat)
    returns (r: Option<seq<Point>>, seedOutUsed: nat)
    requires numNodes > 0
    // Success is the placement of the least attempt whose disk graph is connected ...
    ensures r.Some? ==> exists a: nat ::
                          && a < maxAttempts
                          && r.value == Placement(draw, numNodes, seedIn, a)
                          && seedOutUsed == (seedIn + a) % SEED_RANGE
                          && Disk(r.value, range).Connected()
                          && forall b: nat :: b < a ==> !Disk(Placement(draw, numNodes, seedIn, b), range).Connected()
    // ... and failure (a fatal error in the program) means that no attempt was connected.
    ensures r.None? <==>
      forall a: nat :: a < maxAttempts ==> !Disk(Placement(draw, numNodes, seedIn, a), range).Connected()
  {
    hide Disk;
    seedOutUsed := 0;
    for attempt := 0 to maxAttempts
      invariant forall a: nat :: a < attempt ==> !Disk(Placement(draw, numNodes, seedIn, a), range).Connected()
    {
      var currentSeed := (seedIn + attempt) % SEED_RANGE;
      var pos := [];
      for i := 0 to numNodes
        invariant |pos| == i && forall k :: 0 <= k < i ==> pos[k] == draw(currentSeed, k)
      {
        pos := pos + [draw(currentSeed, i)];
      }
      assert pos == Placement(draw, numNodes, seedIn, attempt);
      var reached := CountReached(pos, range);
      if reached == numNodes {
        return Some(pos), currentSeed;
      }
    }
    return None, seedOutUsed;
  }

  /** On an accepted placement the two searches agree: no hop count carries the unreachable mark,
      and every count is at most `n - 1`. */
  lemma AcceptedPlacementsAreReachable(pos: seq<Point>, range: real, src: nat, h: seq<nat>)
    requires src < |pos| && HopCounts(Disk(pos, range), src, h)
    requires Disk(pos, range).Connected()
    ensures forall v: nat :: v < |pos| ==> h[v] != UNREACHABLE && h[v] <= |pos| - 1
  {
    var g := Disk(pos, range);
    forall v: nat | v < |pos| ensures h[v] != UNREACHABLE && h[v] <= |pos| - 1 {
      assert g.Reaches(src, v);
      HopDistanceBound(g, src, v, h[v]);
    }
  }

  /** Hop counts are symmetric in their endpoints. */
  lemma HopCountsSymmetric(pos: seq<Point>, range: real, s: nat, v: nat, hs: seq<nat>, hv: seq<nat>)
    requires s < |pos| && v < |pos|
    requires HopCounts(Disk(pos, range), s, hs) && HopCounts(Disk(pos, range), v, hv)
    ensures hs[v] == hv[s]
  {
    var g := Disk(pos, range);
    DiskUndirected(pos, range);
    if g.Reaches(s, v) {
      HopDistanceSymmetric(g, s, v, hs[v]);
      var w :| g.IsWalk(w, s, v);
      ReverseWalk(g, w, s, v);
    } else if g.Reaches(v, s) {
      var w :| g.IsWalk(w, v, s);
      ReverseWalk(g, w, v, s);
    }
  }
}
