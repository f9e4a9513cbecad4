/** Walks, reachability and hop distance in a finite undirected graph on the nodes `0 .. n - 1`. */
module Graphs {
  import opened Finite

  datatype Graph = Graph(n: nat, edges: set<(nat, nat)>) {

    predicate Adjacent(u: nat, v: nat) {
      u < n && v < n && (u, v) in edges
    }

    ghost predicate Undirected() {
      forall u: nat, v: nat :: Adjacent(u, v) ==> Adjacent(v, u)
    }

    /** `w` is a walk from `s` to `v`; its hop count is one less than its length. */
    ghost predicate IsWalk(w: seq<nat>, s: nat, v: nat) {
      && w != []
      && w[0] == s && w[|w| - 1] == v
      && (forall i :: 0 <= i < |w| ==> w[i] < n)
      && (forall i :: 0 < i < |w| ==> Adjacent(w[i - 1], w[i]))
    }

    ghost predicate Reaches(s: nat, v: nat) {
      exists w :: IsWalk(w, s, v)
    }

    ghost predicate HasWalk(s: nat, v: nat, k: nat) {
      exists w :: IsWalk(w, s, v) && |w| == k + 1
    }

    /** `k` is the length of a shortest walk from `s` to `v`. */
    ghost predicate IsHopDistance(s: nat, v: nat, k: nat) {
      && HasWalk(s, v, k)
      && (forall w :: IsWalk(w, s, v) ==> k + 1 <= |w|)
    }

    ghost predicate Connected() {
      forall s: nat, v: nat :: s < n && v < n ==> Reaches(s, v)
    }
  }

  lemma ExtendWalk(g: Graph, s: nat, u: nat, v: nat, k: nat)
    requires g.HasWalk(s, u, k) && g.Adjacent(u, v)
    ensures g.HasWalk(s, v, k + 1)
  {
    var w :| g.IsWalk(w, s, u) && |w| == k + 1;
    var x := w + [v];
    forall i | 0 < i < |x| ensures g.Adjacent(x[i - 1], x[i]) {
      if i == |w| { assert x[i - 1] == u; }
    }
    assert g.IsWalk(x, s, v);
  }

  ghost function Reversed(w: seq<nat>): (r: seq<nat>)
    ensures |r| == |w| && forall i :: 0 <= i < |w| ==> r[i] == w[|w| - 1 - i]
  {
    seq(|w|, i requires 0 <= i < |w| => w[|w| - 1 - i])
  }

  lemma ReverseWalk(g: Graph, w: seq<nat>, s: nat, v: nat)
    requires g.Undirected() && g.IsWalk(w, s, v)
    ensures g.IsWalk(Reversed(w), v, s)
  {
    var r := Reversed(w);
    forall i | 0 < i < |r| ensures g.Adjacent(r[i - 1], r[i]) {
      var j := |w| - i;
      assert r[i - 1] == w[j] && r[i] == w[j - 1];
    }
  }

  lemma JoinWalks(g: Graph, a: seq<nat>, b: seq<nat>, s: nat, u: nat, v: nat)
    requires g.IsWalk(a, s, u) && g.IsWalk(b, u, v)
    ensures g.IsWalk(a + b[1..], s, v)
  {
    var x := a + b[1..];
    forall i | 0 < i < |x| ensures g.Adjacent(x[i - 1], x[i]) {
      if i >= |a| {
        var j := i - |a| + 1;
        assert x[i] == b[j];
        assert x[i - 1] == b[j - 1];
      }
    }
  }

  /** Hop distance does not depend on the direction. */
  lemma HopDistanceSymmetric(g: Graph, s: nat, v: nat, k: nat)
    requires g.Undirected()
    ensures g.IsHopDistance(s, v, k) <==> g.IsHopDistance(v, s, k)
  {
    if g.IsHopDistance(s, v, k) { HopDistanceReverse(g, s, v, k); }
    if g.IsHopDistance(v, s, k) { HopDistanceReverse(g, v, s, k); }
  }

  lemma HopDistanceReverse(g: Graph, s: nat, v: nat, k: nat)
    requires g.Undirected() && g.IsHopDistance(s, v, k)
    ensures g.IsHopDistance(v, s, k)
  {
    var w :| g.IsWalk(w, s, v) && |w| == k + 1;
    ReverseWalk(g, w, s, v);
    assert |Reversed(w)| == k + 1;
    forall x | g.IsWalk(x, v, s) ensures k + 1 <= |x| {
      ReverseWalk(g, x, v, s);
      assert |Reversed(x)| == |x|;
    }
  }

  /** Joining walks through node 0: all pairs are connected as soon as node 0 reaches everyone. */
  lemma ConnectedFromZero(g: Graph)
    requires g.n > 0 && g.Undirected()
    ensures g.Connected() <==> forall v: nat :: v < g.n ==> g.Reaches(0, v)
  {
    if forall v: nat :: v < g.n ==> g.Reaches(0, v) {
      forall s: nat, v: nat | s < g.n && v < g.n ensures g.Reaches(s, v) {
        assert g.Reaches(0, s) && g.Reaches(0, v);
        var a :| g.IsWalk(a, 0, s);
        var b :| g.IsWalk(b, 0, v);
        ReverseWalk(g, a, 0, s);
        JoinWalks(g, Reversed(a), b, s, 0, v);
      }
    }
  }

  lemma PrefixWalk(g: Graph, w: seq<nat>, s: nat, v: nat, i: nat)
    requires g.IsWalk(w, s, v) && i < |w|
    ensures g.IsWalk(w[..i + 1], s, w[i])
    ensures g.IsWalk(w[i..], w[i], v)
  {
  }

  /** A shortest walk never repeats a node, so a hop distance is at most `n - 1`. */
  lemma HopDistanceBound(g: Graph, s: nat, v: nat, k: nat)
    requires g.IsHopDistance(s, v, k)
    ensures k + 1 <= g.n
  {
    var w :| g.IsWalk(w, s, v) && |w| == k + 1;
    forall i, j | 0 <= i < j < |w| ensures w[i] != w[j] {
      if w[i] == w[j] {
        PrefixWalk(g, w, s, v, i);
        PrefixWalk(g, w, s, v, j);
        JoinWalks(g, w[..i + 1], w[j..], s, w[i], v);
      }
    }
    SubsetBound(Elements(w), g.n);
  }

  // ---------------------------------------------------------------------------
  // Adjacency lists
  // ---------------------------------------------------------------------------

  /** The graph on `0 .. n - 1` of a relation that is given for pairs in ascending order. */
  ghost function PairGraph(n: nat, near: (nat, nat) -> bool): Graph {
    Graph(n, set u: nat, v: nat | u < n && v < n && u != v && (if u < v then near(u, v) else near(v, u)) :: (u, v))
  }

  /** The adjacency lists hold each neighbour once. */
  ghost predicate Lists(g: Graph, adj: seq<seq<nat>>) {
    && |adj| == g.n
    && (forall u: nat :: !g.Adjacent(u, u))
    && forall u: nat :: u < g.n ==> Distinct(adj[u]) && forall v: nat :: v in adj[u] <==> g.Adjacent(u, v)
  }

  /** Every pair is looked at once and, if near, entered in both lists. */
  method AdjacencyLists(n: nat, near: (nat, nat) -> bool) returns (adj: seq<seq<nat>>)
    ensures Lists(PairGraph(n, near), adj)
  {
    ghost var g := PairGraph(n, near);
    adj := seq(n, _ => []);
    for i := 0 to n
      invariant |adj| == n && forall u: nat :: u < n ==> Distinct(adj[u])
      invariant forall u: nat, v: nat :: u < n ==> (v in adj[u] <==> g.Adjacent(u, v) && (u < i || v < i))
    {
      for j := i + 1 to n
        invariant |adj| == n && forall u: nat :: u < n ==> Distinct(adj[u])
        invariant forall u: nat, v: nat :: u < n ==>
          (v in adj[u] <==> g.Adjacent(u, v) && (u < i || v < i || (u == i && v < j) || (v == i && u < j)))
      {
        if near(i, j) {
          assert g.Adjacent(i, j) && g.Adjacent(j, i);
          adj := adj[i := adj[i] + [j]];
          adj := adj[j := adj[j] + [i]];
        }
      }
    }
  }
}
