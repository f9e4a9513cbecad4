/** The two acceptance gates and the connectivity report, which read every node's routing table. */
module AcceptanceGates {
  import opened Finite
  import opened RouteWalk

  /** `NoOlsr` and `Unreached` name the node, `NoOlsrOnClient` and `NoRoute` the flow, that caused the rejection. */
  datatype Verdict =
    | Passed
    | NoOlsr(node: nat)
    | Unreached(node: nat)
    | NoOlsrOnClient(flow: nat)
    | NoRoute(flow: nat)

  /** The routing table of each node, `None` when it runs no OLSR. */
  type Tables = seq<Option<seq<Entry>>>

  function Destinations(entries: seq<Entry>): (r: set<Address>)
    ensures forall a :: a in r <==> exists i :: 0 <= i < |entries| && entries[i].dest == a
  {
    set i | 0 <= i < |entries| :: entries[i].dest
  }

  method UniqueDestinations(entries: seq<Entry>) returns (dests: set<Address>)
    ensures dests == Destinations(entries)
  {
    dests := {};
    for i := 0 to |entries|
      invariant dests == set k | 0 <= k < i :: entries[k].dest
    {
      dests := dests + {entries[i].dest};
    }
  }

  /** Node `i` knows at least as many destinations as there are other nodes. */
  predicate KnowsEnough(tables: Tables, i: nat) {
    i < |tables| && tables[i].Some? && |Destinations(tables[i].value)| + 1 >= |tables|
  }

  /** The first gate: stops at the first node that runs no OLSR or knows too few destinations. */
  method AssertConnectivity(tables: Tables) returns (v: Verdict)
    ensures v == Passed <==> forall i :: 0 <= i < |tables| ==> KnowsEnough(tables, i)
    ensures v != Passed ==>
              && (v.NoOlsr? || v.Unreached?) && v.node < |tables| && !KnowsEnough(tables, v.node)
              && (v.NoOlsr? <==> tables[v.node].None?)
              && forall i :: 0 <= i < v.node ==> KnowsEnough(tables, i)
  {
    var n := |tables|;
    for i := 0 to n
      invariant forall k :: 0 <= k < i ==> KnowsEnough(tables, k)
    {
      if tables[i].None? {
        assert !KnowsEnough(tables, i);
        return NoOlsr(i);
      }
      var dests := UniqueDestinations(tables[i].value);
      if |dests| < n - 1 {
        assert !KnowsEnough(tables, i);
        return Unreached(i);
      }
    }
    return Passed;
  }

  // An address that was never set.
  const NO_ADDRESS: Address := 0

  function AddressOf(nodeToIp: map<nat, Address>, node: nat): Address {
    if node in nodeToIp then nodeToIp[node] else NO_ADDRESS
  }

  /** The flow's source has a route to its destination. */
  predicate HasRoute(tables: Tables, nodeToIp: map<nat, Address>, flow: (nat, nat)) {
    && flow.0 < |tables| && tables[flow.0].Some?
    && AddressOf(nodeToIp, flow.1) in Destinations(tables[flow.0].value)
  }

  /** The second gate: every flow's source must have a route to the flow's destination. */
  method AssertRouteExists(tables: Tables, nodeToIp: map<nat, Address>, flows: seq<(nat, nat)>) returns (v: Verdict)
    requires |tables| < 2 || forall f :: 0 <= f < |flows| ==> flows[f].0 < |tables|
    ensures v == Passed <==> |tables| < 2 || forall f :: 0 <= f < |flows| ==> HasRoute(tables, nodeToIp, flows[f])
    ensures v != Passed ==>
              && (v.NoOlsrOnClient? || v.NoRoute?) && v.flow < |flows| && !HasRoute(tables, nodeToIp, flows[v.flow])
              && (v.NoOlsrOnClient? <==> tables[flows[v.flow].0].None?)
              && forall f :: 0 <= f < v.flow ==> HasRoute(tables, nodeToIp, flows[f])
  {
    if |tables| < 2 { return Passed; }
    for f := 0 to |flows|
      invariant forall g :: 0 <= g < f ==> HasRoute(tables, nodeToIp, flows[g])
    {
      var src, dst := flows[f].0, flows[f].1;
      if tables[src].None? { return NoOlsrOnClient(f); }
      var found := FirstMatch(tables[src].value, AddressOf(nodeToIp, dst));
      if found.None? { return NoRoute(f); }
    }
    return Passed;
  }

  /** The nodes below `n` that know enough. */
  ghost function Knowing(tables: Tables, n: nat): (r: set<nat>)
    ensures n == 0 ==> r == {}
  {
    set i: nat | i < n && KnowsEnough(tables, i)
  }

  lemma KnowingNext(tables: Tables, n: nat)
    ensures Knowing(tables, n + 1) == Knowing(tables, n) + if KnowsEnough(tables, n) then {n} else {}
    ensures n !in Knowing(tables, n)
  {
    hide KnowsEnough;
  }

  /** How many nodes know every other node. */
  method CheckAndReportConnectivity(tables: Tables) returns (fullyConnected: nat)
    ensures fullyConnected == |Knowing(tables, |tables|)|
    ensures fullyConnected <= |tables|
    ensures fullyConnected == |tables| <==> forall i :: 0 <= i < |tables| ==> KnowsEnough(tables, i)
  {
    hide Knowing;
    fullyConnected := 0;
    for i := 0 to |tables|
      invariant fullyConnected == |Knowing(tables, i)|
      invariant fullyConnected <= i
      invariant fullyConnected == i <==> forall k :: 0 <= k < i ==> KnowsEnough(tables, k)
    {
      KnowingNext(tables, i);
      assert KnowsEnough(tables, i) ==> tables[i].Some?;
      if tables[i].None? { continue; }
      var dests := UniqueDestinations(tables[i].value);
      assert KnowsEnough(tables, i) <==> |dests| >= |tables| - 1;
      if |dests| >= |tables| - 1 { fullyConnected := fullyConnected + 1; }
    }
  }

  // ---------------------------------------------------------------------------
  // The first gate implies the second
  // ---------------------------------------------------------------------------

  /** Every node has its own address, and tables list other nodes' addresses only. */
  ghost predicate Addressed(tables: Tables, nodeToIp: map<nat, Address>) {
    && (forall i: nat :: i < |tables| ==> i in nodeToIp)
    && (forall i: nat, j: nat :: i < j < |tables| ==> nodeToIp[i] != nodeToIp[j])
    && (forall i: nat :: i < |tables| && tables[i].Some? ==>
          Destinations(tables[i].value) <= Others(|tables|, nodeToIp, i))
  }

  ghost function Others(n: nat, nodeToIp: map<nat, Address>, i: nat): (r: set<Address>)
    requires forall k: nat :: k < n ==> k in nodeToIp
    ensures forall a :: a in r <==> exists k: nat :: k < n && k != i && nodeToIp[k] == a
  {
    set k: nat | k < n && k != i :: nodeToIp[k]
  }

  lemma OthersUnfold(n: nat, nodeToIp: map<nat, Address>, i: nat)
    requires n > 0 && forall k: nat :: k < n ==> k in nodeToIp
    ensures Others(n, nodeToIp, i) == Others(n - 1, nodeToIp, i) + if i == n - 1 then {} else {nodeToIp[n - 1]}
  {
  }

  lemma NoOthers(nodeToIp: map<nat, Address>, i: nat)
    ensures Others(0, nodeToIp, i) == {}
  {
  }

  lemma {:induction false} OthersCount(n: nat, nodeToIp: map<nat, Address>, i: nat)
    requires forall k: nat :: k < n ==> k in nodeToIp
    ensures |Others(n, nodeToIp, i)| <= if i < n then n - 1 else n
    ensures AllDiffer(n, nodeToIp) ==> |Others(n, nodeToIp, i)| == if i < n then n - 1 else n
  {
    hide Others;
    if n == 0 {
      NoOthers(nodeToIp, i);
    } else {
      OthersCount(n - 1, nodeToIp, i);
      OthersUnfold(n, nodeToIp, i);
      if AllDiffer(n, nodeToIp) { LastIsNew(n, nodeToIp, i); }
    }
  }

  ghost predicate AllDiffer(n: nat, nodeToIp: map<nat, Address>)
    requires forall k: nat :: k < n ==> k in nodeToIp
  {
    forall i: nat, j: nat :: i < j < n ==> nodeToIp[i] != nodeToIp[j]
  }

  lemma LastIsNew(n: nat, nodeToIp: map<nat, Address>, i: nat)
    requires n > 0 && (forall k: nat :: k < n ==> k in nodeToIp) && AllDiffer(n, nodeToIp)
    ensures nodeToIp[n - 1] !in Others(n - 1, nodeToIp, i)
  {
  }

  lemma LargeSubset(a: set<Address>, b: set<Address>)
    requires a <= b && |a| >= |b|
    ensures a == b
  {
    assert b == a + (b - a);
    assert |b - a| == 0;
  }

  /** With tables that list other nodes only, the second gate never rejects what the first one let through:
      a node that knows as many destinations as there are other nodes knows all of them. */
  lemma ConnectivityImpliesRoutes(tables: Tables, nodeToIp: map<nat, Address>, flow: (nat, nat))
    requires Addressed(tables, nodeToIp) && forall i :: 0 <= i < |tables| ==> KnowsEnough(tables, i)
    requires flow.0 < |tables| && flow.1 < |tables| && flow.0 != flow.1
    ensures HasRoute(tables, nodeToIp, flow)
  {
    var i := flow.0;
    assert KnowsEnough(tables, i);
    OthersCount(|tables|, nodeToIp, i);
    LargeSubset(Destinations(tables[i].value), Others(|tables|, nodeToIp, i));
  }

  /** A node knows enough exactly when it runs OLSR and its table lists every other node; so tables that list
      all other nodes pass the first gate, and only these do. */
  lemma KnowingEnoughIsKnowingAll(tables: Tables, nodeToIp: map<nat, Address>, i: nat)
    requires Addressed(tables, nodeToIp) && i < |tables|
    ensures KnowsEnough(tables, i)
            <==> && tables[i].Some?
                 && forall k: nat :: k < |tables| && k != i ==>
                      exists e :: 0 <= e < |tables[i].value| && tables[i].value[e].dest == nodeToIp[k]
  {
    OthersCount(|tables|, nodeToIp, i);
    if tables[i].Some? {
      var dests, others := Destinations(tables[i].value), Others(|tables|, nodeToIp, i);
      if KnowsEnough(tables, i) {
        LargeSubset(dests, others);
        assert forall k: nat :: k < |tables| && k != i ==> nodeToIp[k] in dests;
      }
      if forall k: nat :: k < |tables| && k != i ==>
           exists e :: 0 <= e < |tables[i].value| && tables[i].value[e].dest == nodeToIp[k] {
        assert forall k: nat :: k < |tables| && k != i ==> nodeToIp[k] in dests;
        assert others <= dests;
        assert dests == others;
      }
    }
  }
}
