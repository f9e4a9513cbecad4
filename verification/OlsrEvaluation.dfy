/** An evaluation run whose gates and detection samples read the nodes' OLSR state. */
module OlsrEvaluation {
  import opened Finite
  import opened EventOrder
  import opened RouteWalk
  import A = AcceptanceGates
  import D = DetectionAccuracy
  import H = Harness
  import S = Sampling
  import T = SlotTimeline

  /** Each node's routing table (`None` without OLSR) and neighbours, and the rest of the network. */
  datatype OlsrNet<!N> = OlsrNet(tables: nat -> Option<seq<Entry>>, neighbors: nat -> seq<Address>, rest: N)

  /** What stays fixed in a run: the number of nodes, their addresses, the attackers and the data flows. */
  datatype Site = Site(nodes: nat, addresses: nat -> Address, attackers: seq<nat>, flows: seq<(nat, nat)>)

  /** The simulation around the harness, as far as it stays open. */
  datatype World<!N, !P, !F> = World(
    net: (nat, T.View<OlsrNet<N>>) -> OlsrNet<N>,
    risky: (nat, nat, OlsrNet<N>, T.Defense) -> set<nat>,
    heard: (nat, T.View<OlsrNet<N>>) -> seq<F>,
    sent: (nat, T.View<OlsrNet<N>>) -> seq<F>,
    observe: T.View<OlsrNet<N>> -> P,
    noPath: P)

  function TablesOf<N>(site: Site, v: T.View<OlsrNet<N>>): A.Tables {
    seq(site.nodes, (i: nat) => v.net.tables(i))
  }

  function NodeToIp(site: Site): map<nat, Address> {
    map i: nat | i < site.nodes :: site.addresses(i)
  }

  /** Every node has a defense object, whose blacklist is empty while it is off. */
  function NodesOf<N>(site: Site, v: T.View<OlsrNet<N>>): seq<D.Node> {
    seq(site.nodes, (i: nat) => D.Node(NodeState(site, v, i)))
  }

  function NodeState<N>(site: Site, v: T.View<OlsrNet<N>>, i: nat): Option<D.Olsr> {
    if v.net.tables(i).None? then None
    else Some(D.Olsr(site.addresses(i), v.net.neighbors(i), if i < |v.defenses| then Some(Blacklist(v.defenses[i])) else None))
  }

  function Blacklist(d: T.Defense): set<nat> {
    if d.enabled then d.risky else {}
  }

  predicate AllKnowEnough(tables: A.Tables) {
    forall i :: 0 <= i < |tables| ==> A.KnowsEnough(tables, i)
  }

  predicate AllHaveRoutes(site: Site, tables: A.Tables) {
    |tables| < 2 || forall f :: 0 <= f < |site.flows| ==> A.HasRoute(tables, NodeToIp(site), site.flows[f])
  }

  function OlsrEnv<N, P, F>(w: World<N, P, F>, site: Site): T.Env<OlsrNet<N>, P, D.Accuracy, F> {
    T.Env(w.net, w.risky, w.heard, w.sent,
          v => AllKnowEnough(TablesOf(site, v)),
          v => AllHaveRoutes(site, TablesOf(site, v)),
          w.observe,
          v => D.Sampled(NodesOf(site, v), site.attackers),
          w.noPath, D.NOTHING)
  }

  /** The gate methods decide what the environment's gates say. */
  method Gates(tables: A.Tables, site: Site) returns (connected: bool, routed: bool)
    requires |tables| < 2 || forall f :: 0 <= f < |site.flows| ==> site.flows[f].0 < |tables|
    ensures connected == AllKnowEnough(tables) && routed == AllHaveRoutes(site, tables)
  {
    var v := A.AssertConnectivity(tables);
    connected := v.Passed?;
    v := A.AssertRouteExists(tables, NodeToIp(site), site.flows);
    routed := v.Passed?;
  }

  // ---------------------------------------------------------------------------
  // What the gates and the samples read
  // ---------------------------------------------------------------------------

  /** The gates read every node's own routing table, looked up by the nodes' addresses. */
  lemma GatesReadTables<N>(site: Site, v: T.View<OlsrNet<N>>)
    ensures AllKnowEnough(TablesOf(site, v))
            <==> forall i: nat :: i < site.nodes ==>
                   v.net.tables(i).Some? && |A.Destinations(v.net.tables(i).value)| + 1 >= site.nodes
    ensures AllHaveRoutes(site, TablesOf(site, v))
            <==> site.nodes < 2 || forall f :: 0 <= f < |site.flows| ==> Routed(site, v, site.flows[f].0, site.flows[f].1)
  {
    var tables := TablesOf(site, v);
    assert |tables| == site.nodes && forall i: nat :: i < site.nodes ==> tables[i] == v.net.tables(i);
    forall i: nat | i < site.nodes
      ensures A.KnowsEnough(tables, i)
              <==> v.net.tables(i).Some? && |A.Destinations(v.net.tables(i).value)| + 1 >= site.nodes
    {
    }
    forall f | 0 <= f < |site.flows|
      ensures A.HasRoute(tables, NodeToIp(site), site.flows[f]) <==> Routed(site, v, site.flows[f].0, site.flows[f].1)
    {
      RouteIsListed(site, v, site.flows[f].0, site.flows[f].1);
    }
  }

  /** The source's table holds an entry for the address of the destination, or for 0.0.0.0 when the destination
      is no node. */
  ghost predicate Routed<N>(site: Site, v: T.View<OlsrNet<N>>, source: nat, destination: nat) {
    && source < site.nodes && v.net.tables(source).Some?
    && exists e :: 0 <= e < |v.net.tables(source).value|
                   && v.net.tables(source).value[e].dest
                      == if destination < site.nodes then site.addresses(destination) else 0
  }

  lemma RouteIsListed<N>(site: Site, v: T.View<OlsrNet<N>>, source: nat, destination: nat)
    ensures A.HasRoute(TablesOf(site, v), NodeToIp(site), (source, destination)) <==> Routed(site, v, source, destination)
  {
    var address := if destination < site.nodes then site.addresses(destination) else A.NO_ADDRESS;
    assert A.AddressOf(NodeToIp(site), destination) == address;
    if source < site.nodes && v.net.tables(source).Some? {
      assert TablesOf(site, v)[source] == v.net.tables(source);
      assert address in A.Destinations(v.net.tables(source).value)
             <==> exists e :: 0 <= e < |v.net.tables(source).value| && v.net.tables(source).value[e].dest == address;
    }
  }

  /** Node `i` accuses `x`: it is no attacker, runs OLSR, and its defense is on and has flagged `x`. */
  ghost predicate Accuses<N>(site: Site, v: T.View<OlsrNet<N>>, i: nat, x: nat) {
    && i < site.nodes && i !in site.attackers && v.net.tables(i).Some?
    && i < |v.defenses| && v.defenses[i].enabled && x in v.defenses[i].risky
  }

  /** The detection sample counts exactly these accusations. */
  lemma SampleReadsDefenses<N>(site: Site, v: T.View<OlsrNet<N>>, i: nat, x: nat)
    ensures (i, x) in D.Accusations(NodesOf(site, v), site.attackers, site.nodes) <==> Accuses(site, v, i, x)
  {
    var nodes := NodesOf(site, v);
    assert |nodes| == site.nodes;
    if i < site.nodes {
      assert nodes[i] == D.Node(NodeState(site, v, i));
    }
  }

  /** With every defense off, no accusation is counted, however much was flagged before. */
  lemma DefenseOffDetectsNothing<N>(site: Site, v: T.View<OlsrNet<N>>)
    requires forall i :: 0 <= i < |v.defenses| ==> !v.defenses[i].enabled
    ensures var r := D.Sampled(NodesOf(site, v), site.attackers); r.trueDetections == 0 && r.falseDetections == 0
  {
    hide NodesOf, D.Accusations, D.AttackerAddresses, D.TrueDetections, D.FalseDetections, D.Defenders, D.InRangeDefenders,
      D.Total, D.Percent;
    var nodes := NodesOf(site, v);
    NodesAreCounted(site, v);
    var a := D.AttackerAddresses(nodes, site.attackers);
    var r := D.Sampled(nodes, site.attackers);
    var all := D.Accusations(nodes, site.attackers, |nodes|);
    forall p | p in all ensures false {
      SampleReadsDefenses(site, v, p.0, p.1);
    }
    assert all == {};
    if a != {} {
      D.CountersCount(nodes, site.attackers, a, r);
      assert D.Against(all, a) == {} && D.NotAgainst(all, a) == {};
    }
  }

  lemma NodesAreCounted<N>(site: Site, v: T.View<OlsrNet<N>>)
    ensures |NodesOf(site, v)| == site.nodes
  {
  }

  /** A whole run over OLSR nodes.  It is rejected exactly when, in the routing tables the gates see, some
      node knows too few destinations or some flow has no route; otherwise every slot's oracle row holds the
      detection accuracy of the blacklists at the close of its window, which is without any accusation where
      the scenario has the defense off, whatever was flagged in the slots before. */
  method EvaluateOlsr<N, P, F>(w: World<N, P, F>, site: Site, net: OlsrNet<N>, scenarios: seq<ScenarioSpec>, randomOrder: bool,
    words: nat -> S.word, spoofCount: nat)
    returns (c: Config, rejected: bool, promoted: T.Staging<P, D.Accuracy, F>)
    requires 0 < |scenarios| < S.RANGE && S.KeepsReturningLow(words)
    requires forall j, k :: 0 <= j < k < |scenarios| ==> scenarios[j].name != scenarios[k].name
    requires !scenarios[0].attack && !scenarios[0].defense
    ensures c.Valid() && c.scenarios == scenarios && c.randomOrder == randomOrder
    ensures H.IsSlotOrder(words, randomOrder, |scenarios|, c.order)
    ensures rejected
            <==> !(&& AllKnowEnough(TablesOf(site, T.SeenBy(OlsrEnv(w, site), c, net, AssertConnectivity).view))
                   && AllHaveRoutes(site, TablesOf(site, T.SeenBy(OlsrEnv(w, site), c, net, AssertRouteExists).view)))
    ensures rejected ==> promoted == T.Staging([], [], [])
    ensures !rejected ==> |promoted.oracle| == |scenarios|
    ensures !rejected ==> forall k :: 0 <= k < |promoted.oracle| ==>
              promoted.oracle[k].detection
              == D.Sampled(NodesOf(site, T.SeenBy(OlsrEnv(w, site), c, net, SampleDetection(k)).view), site.attackers)
    ensures !rejected ==> forall k :: 0 <= k < |promoted.oracle| && !c.Scenario(k).defense ==>
              promoted.oracle[k].detection.trueDetections == 0 && promoted.oracle[k].detection.falseDetections == 0
  {
    hide T.SeenBy, AllKnowEnough, AllHaveRoutes, TablesOf, NodesOf, D.Sampled, S.KeepsReturningLow, T.ExpectedFeatures,
      T.ExpectedLabels, T.NodesMatch, T.Final, H.IsSlotOrder;
    var env := OlsrEnv(w, site);
    c, rejected, promoted := H.Evaluate(env, net, scenarios, randomOrder, words, site.nodes, site.attackers, spoofCount);
    T.RejectedExactlyByGates(env, c, net);
    if !rejected {
      forall k | 0 <= k < |promoted.oracle| && !c.Scenario(k).defense
        ensures promoted.oracle[k].detection.trueDetections == 0 && promoted.oracle[k].detection.falseDetections == 0
      {
        T.SamplesAreOfTheirScenario(env, c, net, k);
        SlotWithoutDefense(site, c, T.SeenBy(env, c, net, SampleDetection(k)).view, c.Scenario(k).attack);
      }
    }
  }

  lemma SlotWithoutDefense<N>(site: Site, c: Config, v: T.View<OlsrNet<N>>, attack: bool)
    requires T.NodesMatch(c, v, attack, false)
    ensures var r := D.Sampled(NodesOf(site, v), site.attackers); r.trueDetections == 0 && r.falseDetections == 0
  {
    hide D.Sampled, NodesOf;
    DefenseOffDetectsNothing(site, v);
  }

  /** With tables that list other nodes only, and the same tables before both gates, the first gate alone
      decides. */
  lemma FirstGateDecides(site: Site, tables: A.Tables)
    requires |tables| == site.nodes && A.Addressed(tables, NodeToIp(site)) && AllKnowEnough(tables)
    requires forall f :: 0 <= f < |site.flows| ==>
               site.flows[f].0 < site.nodes && site.flows[f].1 < site.nodes && site.flows[f].0 != site.flows[f].1
    ensures AllHaveRoutes(site, tables)
  {
    hide A.Addressed, A.HasRoute, A.KnowsEnough;
    forall f | 0 <= f < |site.flows| ensures A.HasRoute(tables, NodeToIp(site), site.flows[f]) {
      A.ConnectivityImpliesRoutes(tables, NodeToIp(site), site.flows[f]);
    }
  }
}
