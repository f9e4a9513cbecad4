/** The walk along OLSR next hops from a source to a destination address, and its loop detection. */
module RouteWalk {
  import opened Finite

  type Address = nat

  /** A routing-table entry: packets for `dest` go to `next`. */
  datatype Entry = Entry(dest: Address, next: Address)

  /** What the walk can see: the `n` nodes, the node behind each address, and each node's routing
      table (`None` when the node runs no OLSR). */
  datatype Network = Network(n: nat, ipToNode: map<Address, nat>, tables: nat -> Option<seq<Entry>>) {

    /** At most one mapped address per node, as the address map is filled. */
    ghost predicate Valid() {
      && |ipToNode| <= n
      && forall a :: a in ipToNode ==> ipToNode[a] < n
    }

    /** The first entry for `dst` in the table of the node behind `a`. */
    function NextHop(a: Address, dst: Address): Option<Address> {
      if a in ipToNode && tables(ipToNode[a]).Some? then FirstMatch(tables(ipToNode[a]).value, dst) else None
    }

    /** `hops` is a chain of next hops from `src`: every address but the last is mapped, differs from
        `dst`, and hands over to its successor. */
    ghost predicate IsChain(hops: seq<Address>, src: Address, dst: Address) {
      && hops != [] && hops[0] == src
      && forall i :: 0 <= i < |hops| - 1 ==> hops[i] != dst && NextHop(hops[i], dst) == Some(hops[i + 1])
    }

    /** Following next hops from `src` arrives at a mapped `dst`. */
    ghost predicate Arrives(src: Address, dst: Address) {
      dst in ipToNode && exists hops :: IsChain(hops, src, dst) && hops[|hops| - 1] == dst
    }

    /** The node indices of a chain of mapped addresses. */
    ghost predicate NodesOf(path: seq<nat>, hops: seq<Address>) {
      && |path| == |hops|
      && forall i :: 0 <= i < |hops| ==> hops[i] in ipToNode && path[i] == ipToNode[hops[i]]
    }
  }

  function FirstMatch(entries: seq<Entry>, dst: Address): (r: Option<Address>)
    ensures r.None? <==> forall e :: e in entries ==> e.dest != dst
    ensures r.Some? ==> exists i :: 0 <= i < |entries| && entries[i] == Entry(dst, r.value)
                                    && forall j :: 0 <= j < i ==> entries[j].dest != dst
  {
    if entries == [] then None
    else if entries[0].dest == dst then Some(entries[0].next)
    else
      assert entries == [entries[0]] + entries[1..];
      FirstMatch(entries[1..], dst)
  }

  /** Two chains from the same source agree as far as both go: next hops are deterministic. */
  lemma {:induction false} ChainsAgree(net: Network, a: seq<Address>, b: seq<Address>, src: Address, dst: Address, i: nat)
    requires net.IsChain(a, src, dst) && net.IsChain(b, src, dst)
    requires i < |a| && i < |b|
    ensures a[i] == b[i]
  {
    if i > 0 {
      ChainsAgree(net, a, b, src, dst, i - 1);
    }
  }

  /** A chain that comes back to an address never arrives: from there on it repeats. */
  lemma {:induction false} RepeatingChainsAgree(net: Network, a: seq<Address>, b: seq<Address>, src: Address, dst: Address,
                                                i: nat, j: nat, k: nat)
    requires net.IsChain(a, src, dst) && net.IsChain(b, src, dst) && |a| <= |b|
    requires i < j < |a| && a[i] == a[j] && j + k < |b|
    ensures b[j + k] == b[i + k]
  {
    if k == 0 {
      ChainsAgree(net, a, b, src, dst, i);
      ChainsAgree(net, a, b, src, dst, j);
    } else {
      RepeatingChainsAgree(net, a, b, src, dst, i, j, k - 1);
    }
  }

  lemma LoopNeverArrives(net: Network, a: seq<Address>, src: Address, dst: Address, i: nat, j: nat)
    requires net.IsChain(a, src, dst) && i < j < |a| && a[i] == a[j]
    ensures !net.Arrives(src, dst)
  {
    forall b | net.IsChain(b, src, dst) && b[|b| - 1] == dst ensures false {
      var m := |b| - 1;
      if m < j {
        // the arriving chain is a proper prefix of `a`, but no address before the last is `dst`
        ChainsAgree(net, a, b, src, dst, m);
      } else {
        if |a| <= |b| {
          RepeatingChainsAgree(net, a, b, src, dst, i, j, m - j);
        } else {
          var prefix := a[..j + 1];
          assert net.IsChain(prefix, src, dst);
          RepeatingChainsAgree(net, prefix, b, src, dst, i, j, m - j);
        }
      }
    }
  }

  /** `hops` arrives, so it is the only arriving chain and it has no repetition. */
  lemma ArrivingChainIsSimple(net: Network, hops: seq<Address>, src: Address, dst: Address)
    requires net.IsChain(hops, src, dst) && hops[|hops| - 1] == dst && dst in net.ipToNode
    ensures forall i, j :: 0 <= i < j < |hops| ==> hops[i] != hops[j]
  {
    forall i, j | 0 <= i < j < |hops| ensures hops[i] != hops[j] {
      if hops[i] == hops[j] {
        LoopNeverArrives(net, hops, src, dst, i, j);
      }
    }
  }

  lemma ChainHandsOver(net: Network, hops: seq<Address>, src: Address, dst: Address, i: nat)
    requires net.IsChain(hops, src, dst)
    ensures i < |hops| - 1 ==> hops[i] != dst && net.NextHop(hops[i], dst).Some?
  {
    if i < |hops| - 1 {
      var next := hops[i + 1];
      assert net.NextHop(hops[i], dst) == Some(next);
    }
  }

  lemma StuckNeverArrives(net: Network, hops: seq<Address>, src: Address, dst: Address)
    requires net.IsChain(hops, src, dst)
    requires hops[|hops| - 1] !in net.ipToNode || (hops[|hops| - 1] != dst && net.NextHop(hops[|hops| - 1], dst).None?)
    ensures !net.Arrives(src, dst)
  {
    var m := |hops| - 1;
    if net.Arrives(src, dst) {
      var b :| net.IsChain(b, src, dst) && b[|b| - 1] == dst;
      if |b| - 1 < m {
        ChainsAgree(net, hops, b, src, dst, |b| - 1);
      } else {
        ChainHandsOver(net, b, src, dst, m);
        ChainsAgree(net, hops, b, src, dst, m);
      }
    }
  }

  lemma KeysBound(net: Network, visited: set<Address>)
    requires net.Valid() && visited <= net.ipToNode.Keys
    ensures |visited| <= net.n
  {
    var keys := net.ipToNode.Keys;
    assert keys == visited + (keys - visited);
    assert |keys| == |visited| + |keys - visited|;
    assert |keys| == |net.ipToNode|;
  }

  lemma ArrivesIntro(net: Network, hops: seq<Address>, src: Address, dst: Address)
    requires net.IsChain(hops, src, dst) && hops[|hops| - 1] == dst && dst in net.ipToNode
    ensures net.Arrives(src, dst)
  {
  }

  lemma SingletonChain(net: Network, src: Address, dst: Address)
    ensures net.IsChain([src], src, dst)
  {
  }

  lemma ExtendChain(net: Network, hops: seq<Address>, src: Address, dst: Address, next: Address)
    requires net.IsChain(hops, src, dst) && hops[|hops| - 1] != dst
    requires net.NextHop(hops[|hops| - 1], dst) == Some(next)
    ensures net.IsChain(hops + [next], src, dst)
  {
  }

  /** The state of the walk: the chain `hops` so far, the nodes of all but its last address, and these
      addresses, none of them twice. */
  ghost predicate Walking(net: Network, src: Address, dst: Address, hops: seq<Address>, path: seq<nat>, visited: set<Address>) {
    && net.IsChain(hops, src, dst)
    && net.NodesOf(path, hops[..|hops| - 1])
    && visited == (set i | 0 <= i < |hops| - 1 :: hops[i])
    && |visited| == |hops| - 1 && visited <= net.ipToNode.Keys
  }

  lemma WalkStart(net: Network, src: Address, dst: Address)
    ensures Walking(net, src, dst, [src], [], {})
  {
    hide Network.IsChain;
    SingletonChain(net, src, dst);
  }

  lemma WalkOf(net: Network, src: Address, dst: Address, hops: seq<Address>, path: seq<nat>, visited: set<Address>)
    requires Walking(net, src, dst, hops, path, visited)
    ensures hops != [] && net.IsChain(hops, src, dst) && |path| == |visited| == |hops| - 1
  {
  }

  /** By pigeonhole the walk stops before the step bound: the bound never ends it. */
  lemma WalkIsBounded(net: Network, src: Address, dst: Address, hops: seq<Address>, path: seq<nat>, visited: set<Address>)
    requires net.Valid() && Walking(net, src, dst, hops, path, visited)
    ensures hops != [] && |hops| - 1 <= net.n
  {
    hide Network.IsChain, Network.NodesOf;
    WalkOf(net, src, dst, hops, path, visited);
    KeysBound(net, visited);
  }

  lemma WalkRepeats(net: Network, src: Address, dst: Address, hops: seq<Address>, path: seq<nat>, visited: set<Address>)
    requires Walking(net, src, dst, hops, path, visited) && hops != [] && hops[|hops| - 1] in visited
    ensures !net.Arrives(src, dst)
  {
    hide Network.IsChain, Network.NodesOf, Network.Arrives;
    var m := |hops| - 1;
    var i :| 0 <= i < m && hops[i] == hops[m];
    LoopNeverArrives(net, hops, src, dst, i, m);
  }

  /** The node of a fresh, mapped address is added to the path. */
  lemma WalkEnters(net: Network, src: Address, dst: Address, hops: seq<Address>, path: seq<nat>, visited: set<Address>)
    requires Walking(net, src, dst, hops, path, visited) && hops != []
    requires hops[|hops| - 1] in net.ipToNode && hops[|hops| - 1] !in visited
    ensures var current := hops[|hops| - 1];
            && net.NodesOf(path + [net.ipToNode[current]], hops)
            && visited + {current} == (set i | 0 <= i < |hops| :: hops[i])
            && |visited + {current}| == |hops| && visited + {current} <= net.ipToNode.Keys
  {
    hide Network.IsChain;
  }

  lemma WalkMoves(net: Network, src: Address, dst: Address, hops: seq<Address>, path: seq<nat>, visited: set<Address>, next: Address)
    requires net.IsChain(hops, src, dst) && hops[|hops| - 1] != dst && net.NextHop(hops[|hops| - 1], dst) == Some(next)
    requires net.NodesOf(path, hops) && visited == (set i | 0 <= i < |hops| :: hops[i])
    requires |visited| == |hops| && visited <= net.ipToNode.Keys
    ensures Walking(net, src, dst, hops + [next], path, visited)
  {
    hide Network.NodesOf, Network.NextHop;
    ExtendChain(net, hops, src, dst, next);
    var longer := hops + [next];
    assert longer[..|longer| - 1] == hops;
    assert forall i :: 0 <= i < |hops| ==> longer[i] == hops[i];
  }

  ghost predicate IsRoute(net: Network, src: Address, dst: Address, path: seq<nat>, hops: seq<Address>) {
    && net.IsChain(hops, src, dst) && hops[|hops| - 1] == dst && net.NodesOf(path, hops)
    && Distinct(hops)
  }

  lemma WalkArrives(net: Network, src: Address, dst: Address, hops: seq<Address>, path: seq<nat>)
    requires net.IsChain(hops, src, dst) && hops[|hops| - 1] == dst && dst in net.ipToNode && net.NodesOf(path, hops)
    ensures net.Arrives(src, dst) && IsRoute(net, src, dst, path, hops) && path != []
  {
    hide Network.IsChain, Network.Arrives;
    ChainIsNotEmpty(net, hops, src, dst);
    ArrivesIntro(net, hops, src, dst);
    ArrivingChainIsSimple(net, hops, src, dst);
  }

  lemma ChainIsNotEmpty(net: Network, hops: seq<Address>, src: Address, dst: Address)
    requires net.IsChain(hops, src, dst)
    ensures hops != []
  {
  }

  lemma NextHopIs(net: Network, a: Address, dst: Address)
    requires a in net.ipToNode
    ensures net.NextHop(a, dst) == if net.tables(net.ipToNode[a]).Some? then FirstMatch(net.tables(net.ipToNode[a]).value, dst) else None
  {
  }

  /** The walk: the node indices of the route, or the empty path when there is none. */
  method WalkOlsrPath(net: Network, src: Address, dst: Address) returns (path: seq<nat>)
    requires net.Valid()
    // A path is returned exactly when following next hops arrives ...
    ensures path != [] <==> net.Arrives(src, dst)
    // ... and it is the arriving chain, which repeats no address.
    ensures path != [] ==> exists hops :: IsRoute(net, src, dst, path, hops)
  {
    hide *;
    var maxHops := net.n + 2;
    path := [];
    var visited: set<Address> := {};
    var current := src;
    ghost var hops := [src];
    WalkStart(net, src, dst);
    var step := 0;
    while step < maxHops
      invariant step <= net.n + 1 && |hops| == step + 1 && hops[step] == current
      invariant Walking(net, src, dst, hops, path, visited)
      decreases maxHops - step
    {
      WalkIsBounded(net, src, dst, hops, path, visited);
      WalkOf(net, src, dst, hops, path, visited);
      if current in visited {
        WalkRepeats(net, src, dst, hops, path, visited);
        return [];
      }
      if current !in net.ipToNode {
        StuckNeverArrives(net, hops, src, dst);
        return [];
      }
      WalkEnters(net, src, dst, hops, path, visited);
      NextHopIs(net, current, dst);
      visited := visited + {current};
      var nodeIdx := net.ipToNode[current];
      path := path + [nodeIdx];
      if current == dst {
        WalkArrives(net, src, dst, hops, path);
        return path;
      }
      if net.tables(nodeIdx).None? {
        StuckNeverArrives(net, hops, src, dst);
        return [];
      }
      var nextHop := FirstMatch(net.tables(nodeIdx).value, dst);
      if nextHop.None? {
        StuckNeverArrives(net, hops, src, dst);
        return [];
      }
      current := nextHop.value;
      WalkMoves(net, src, dst, hops, path, visited, current);
      hops := hops + [current];
      step := step + 1;
      WalkIsBounded(net, src, dst, hops, path, visited);
    }
    assert false;
  }
}
