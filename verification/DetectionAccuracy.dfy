/** How accurately the nodes' blacklists name the attackers, sampled at the close of a window. */
module DetectionAccuracy {
  import opened Finite
  import F = FlowPairs

  type Address = nat

  /** A node's OLSR instance; `blacklist` is `None` when no defense is installed. */
  datatype Olsr = Olsr(mainAddress: Address, neighbors: seq<Address>, blacklist: Option<set<Address>>)

  /** `protocol` is `None` when a node runs no OLSR. */
  datatype Node = Node(protocol: Option<Olsr>)

  datatype Accuracy = Accuracy(
    trueDetections: nat,
    falseDetections: nat,
    defendersTotal: nat,
    defendersInRange: nat,
    detectionPercent: real,
    detectionPercentInRange: real,
    falseAlarmRate: real)

  // ---------------------------------------------------------------------------
  // What is counted
  // ---------------------------------------------------------------------------

  /** The addresses of the attackers that exist and run OLSR. */
  function AttackerAddresses(nodes: seq<Node>, attackers: seq<nat>): (r: set<Address>) {
    set id | id in attackers && id < |nodes| && nodes[id].protocol.Some? :: nodes[id].protocol.value.mainAddress
  }

  lemma AddressAdded(nodes: seq<Node>, attackers: seq<nat>, id: nat)
    requires id < |nodes|
    ensures AttackerAddresses(nodes, attackers + [id])
            == AttackerAddresses(nodes, attackers)
               + if nodes[id].protocol.Some? then {nodes[id].protocol.value.mainAddress} else {}
  {
    var more := attackers + [id];
    forall x | x in AttackerAddresses(nodes, attackers) ensures x in AttackerAddresses(nodes, more) {
      var i :| i in attackers && i < |nodes| && nodes[i].protocol.Some? && nodes[i].protocol.value.mainAddress == x;
      assert i in more;
    }
    assert id in more;
  }

  lemma NoAddresses(nodes: seq<Node>)
    ensures AttackerAddresses(nodes, []) == {}
  {
  }

  lemma AddressSkipped(nodes: seq<Node>, attackers: seq<nat>, id: nat)
    ensures id >= |nodes| ==> AttackerAddresses(nodes, attackers + [id]) == AttackerAddresses(nodes, attackers)
  {
    var more := attackers + [id];
    forall x | x in AttackerAddresses(nodes, attackers) ensures x in AttackerAddresses(nodes, more) {
      var i :| i in attackers && i < |nodes| && nodes[i].protocol.Some? && nodes[i].protocol.value.mainAddress == x;
      assert i in more;
    }
  }

  predicate IsDefender(nodes: seq<Node>, attackers: seq<nat>, i: nat)
    requires i < |nodes|
  {
    i !in attackers && nodes[i].protocol.Some? && nodes[i].protocol.value.blacklist.Some?
  }

  /** Whether the node has an attacker among its neighbours. */
  predicate InRange(node: Olsr, addresses: set<Address>) {
    exists i :: 0 <= i < |node.neighbors| && node.neighbors[i] in addresses
  }

  /** One defender's contribution, 0 for other nodes. */
  function Accused(nodes: seq<Node>, attackers: seq<nat>, a: set<Address>, i: nat): nat
    requires i < |nodes|
  {
    if IsDefender(nodes, attackers, i) then |nodes[i].protocol.value.blacklist.value * a| else 0
  }

  function Slandered(nodes: seq<Node>, attackers: seq<nat>, a: set<Address>, i: nat): nat
    requires i < |nodes|
  {
    if IsDefender(nodes, attackers, i) then |nodes[i].protocol.value.blacklist.value - a| else 0
  }

  predicate DefenderInRange(nodes: seq<Node>, attackers: seq<nat>, a: set<Address>, i: nat)
    requires i < |nodes|
  {
    IsDefender(nodes, attackers, i) && InRange(nodes[i].protocol.value, a)
  }

  /** The sum of `f` over the first `n` nodes. */
  function Total(f: nat -> nat, n: nat): nat {
    if n == 0 then 0 else Total(f, n - 1) + f(n - 1)
  }

  function Defenders(nodes: seq<Node>, attackers: seq<nat>): nat -> nat {
    (i: nat) => if i < |nodes| && IsDefender(nodes, attackers, i) then 1 else 0
  }

  function InRangeDefenders(nodes: seq<Node>, attackers: seq<nat>, a: set<Address>): nat -> nat {
    (i: nat) => if i < |nodes| && DefenderInRange(nodes, attackers, a, i) then 1 else 0
  }

  function TrueDetections(nodes: seq<Node>, attackers: seq<nat>, a: set<Address>): nat -> nat {
    (i: nat) => if i < |nodes| then Accused(nodes, attackers, a, i) else 0
  }

  function FalseDetections(nodes: seq<Node>, attackers: seq<nat>, a: set<Address>): nat -> nat {
    (i: nat) => if i < |nodes| then Slandered(nodes, attackers, a, i) else 0
  }

  /** The attackers a defender in range has missed, ... */
  ghost function MissedInRange(nodes: seq<Node>, attackers: seq<nat>, a: set<Address>): nat -> nat {
    (i: nat) => if i < |nodes| && DefenderInRange(nodes, attackers, a, i) then |a - nodes[i].protocol.value.blacklist.value| else 0
  }

  /** ... and those a defender out of range accuses all the same. */
  ghost function AccusedOutOfRange(nodes: seq<Node>, attackers: seq<nat>, a: set<Address>): nat -> nat {
    (i: nat) => if i < |nodes| && !DefenderInRange(nodes, attackers, a, i) then Accused(nodes, attackers, a, i) else 0
  }

  function Percent(part: nat, whole: nat): real {
    if whole == 0 then 0.0 else 100.0 * part as real / whole as real
  }

  // ---------------------------------------------------------------------------
  // The sample
  // ---------------------------------------------------------------------------

  const NOTHING: Accuracy := Accuracy(0, 0, 0, 0, 0.0, 0.0, 0.0)

  /** What the nodes' blacklists say about the attackers with addresses `a`. */
  function Counted(nodes: seq<Node>, attackers: seq<nat>, a: set<Address>): Accuracy {
    var trueDet, falseDet := Total(TrueDetections(nodes, attackers, a), |nodes|), Total(FalseDetections(nodes, attackers, a), |nodes|);
    var defTotal, defInRange := Total(Defenders(nodes, attackers), |nodes|), Total(InRangeDefenders(nodes, attackers, a), |nodes|);
    Accuracy(trueDet, falseDet, defTotal, defInRange,
             Percent(trueDet, defTotal * |a|), Percent(trueDet, defInRange * |a|), Percent(falseDet, trueDet + falseDet))
  }

  /** A sample: nothing without attackers. */
  function Sampled(nodes: seq<Node>, attackers: seq<nat>): Accuracy {
    var a := AttackerAddresses(nodes, attackers);
    if a == {} then NOTHING else Counted(nodes, attackers, a)
  }

  ghost predicate Describes(nodes: seq<Node>, attackers: seq<nat>, a: set<Address>, r: Accuracy) {
    && r.trueDetections == Total(TrueDetections(nodes, attackers, a), |nodes|)
    && r.falseDetections == Total(FalseDetections(nodes, attackers, a), |nodes|)
    && r.defendersTotal == Total(Defenders(nodes, attackers), |nodes|)
    && r.defendersInRange == Total(InRangeDefenders(nodes, attackers, a), |nodes|)
    && r.detectionPercent == Percent(r.trueDetections, r.defendersTotal * |a|)
    && r.detectionPercentInRange == Percent(r.trueDetections, r.defendersInRange * |a|)
    && r.falseAlarmRate == Percent(r.falseDetections, r.trueDetections + r.falseDetections)
  }

  method FindAttackers(nodes: seq<Node>, attackers: seq<nat>) returns (addresses: set<Address>)
    ensures addresses == AttackerAddresses(nodes, attackers)
  {
    hide AttackerAddresses;
    addresses := {};
    NoAddresses(nodes);
    for k := 0 to |attackers|
      invariant addresses == AttackerAddresses(nodes, attackers[..k])
    {
      var id := attackers[k];
      AddressSkipped(nodes, attackers[..k], id);
      assert attackers[..k + 1] == attackers[..k] + [id];
      if id >= |nodes| { continue; }
      AddressAdded(nodes, attackers[..k], id);
      if nodes[id].protocol.Some? {
        addresses := addresses + {nodes[id].protocol.value.mainAddress};
      }
    }
    assert attackers[..|attackers|] == attackers;
  }

  method HasAttackerNeighbor(node: Olsr, a: set<Address>) returns (b: bool)
    ensures b <==> InRange(node, a)
  {
    for i := 0 to |node.neighbors|
      invariant forall k :: 0 <= k < i ==> node.neighbors[k] !in a
    {
      if node.neighbors[i] in a { return true; }
    }
    return false;
  }

  /** One more accused node adds one to one of the two counts. */
  lemma OneMoreAccused(done: set<Address>, a: set<Address>, x: Address)
    requires x !in done
    ensures |(done + {x}) * a| == |done * a| + if x in a then 1 else 0
    ensures |(done + {x}) - a| == |done - a| + if x in a then 0 else 1
  {
    if x in a {
      assert (done + {x}) * a == done * a + {x} && (done + {x}) - a == done - a;
    } else {
      assert (done + {x}) * a == done * a && (done + {x}) - a == done - a + {x};
    }
  }

  lemma MoveAccused(all: set<Address>, rest: set<Address>, x: Address)
    requires rest <= all && x in rest
    ensures all - (rest - {x}) == (all - rest) + {x} && x !in all - rest && |rest - {x}| < |rest|
  {
  }

  lemma AllDone(all: set<Address>)
    ensures all - {} == all && all - all == {}
  {
  }

  /** Counts the accusations against attackers and against others. */
  method CountAccusations(blacklist: set<Address>, a: set<Address>) returns (trueDet: nat, falseDet: nat)
    ensures trueDet == |blacklist * a| && falseDet == |blacklist - a|
  {
    trueDet, falseDet := 0, 0;
    var rest := blacklist;
    AllDone(blacklist);
    while rest != {}
      invariant rest <= blacklist
      invariant trueDet == |(blacklist - rest) * a| && falseDet == |(blacklist - rest) - a|
      decreases |rest|
    {
      var accused :| accused in rest;
      MoveAccused(blacklist, rest, accused);
      OneMoreAccused(blacklist - rest, a, accused);
      if accused in a {
        trueDet := trueDet + 1;
      } else {
        falseDet := falseDet + 1;
      }
      rest := rest - {accused};
    }
  }

  /** What node `i` adds to the four counts. */
  lemma NodeAdds(nodes: seq<Node>, attackers: seq<nat>, a: set<Address>, i: nat)
    requires i < |nodes|
    ensures Total(Defenders(nodes, attackers), i + 1)
            == Total(Defenders(nodes, attackers), i) + if IsDefender(nodes, attackers, i) then 1 else 0
    ensures Total(InRangeDefenders(nodes, attackers, a), i + 1)
            == Total(InRangeDefenders(nodes, attackers, a), i) + if DefenderInRange(nodes, attackers, a, i) then 1 else 0
    ensures Total(TrueDetections(nodes, attackers, a), i + 1)
            == Total(TrueDetections(nodes, attackers, a), i) + Accused(nodes, attackers, a, i)
    ensures Total(FalseDetections(nodes, attackers, a), i + 1)
            == Total(FalseDetections(nodes, attackers, a), i) + Slandered(nodes, attackers, a, i)
  {
    hide IsDefender, DefenderInRange, Accused, Slandered;
  }

  lemma NothingAdded(f: nat -> nat)
    ensures Total(f, 0) == 0
  {
  }

  method CountDetections(nodes: seq<Node>, attackers: seq<nat>, a: set<Address>)
    returns (trueDet: nat, falseDet: nat, defTotal: nat, defInRange: nat)
    ensures trueDet == Total(TrueDetections(nodes, attackers, a), |nodes|)
    ensures falseDet == Total(FalseDetections(nodes, attackers, a), |nodes|)
    ensures defTotal == Total(Defenders(nodes, attackers), |nodes|)
    ensures defInRange == Total(InRangeDefenders(nodes, attackers, a), |nodes|)
  {
    hide Total, TrueDetections, FalseDetections, Defenders, InRangeDefenders, InRange;
    NothingAdded(TrueDetections(nodes, attackers, a));
    NothingAdded(FalseDetections(nodes, attackers, a));
    NothingAdded(Defenders(nodes, attackers));
    NothingAdded(InRangeDefenders(nodes, attackers, a));
    trueDet, falseDet, defTotal, defInRange := 0, 0, 0, 0;
    for i := 0 to |nodes|
      invariant trueDet == Total(TrueDetections(nodes, attackers, a), i)
      invariant falseDet == Total(FalseDetections(nodes, attackers, a), i)
      invariant defTotal == Total(Defenders(nodes, attackers), i)
      invariant defInRange == Total(InRangeDefenders(nodes, attackers, a), i)
    {
      NodeAdds(nodes, attackers, a, i);
      if !IsDefender(nodes, attackers, i) { continue; }
      var node := nodes[i].protocol.value;
      defTotal := defTotal + 1;
      var inRange := HasAttackerNeighbor(node, a);
      if inRange { defInRange := defInRange + 1; }
      var t, f := CountAccusations(node.blacklist.value, a);
      trueDet := trueDet + t;
      falseDet := falseDet + f;
    }
  }

  // ---------------------------------------------------------------------------
  // What is counted, without the sums
  // ---------------------------------------------------------------------------

  /** The nodes that defend: those outside the attacker list that run OLSR with a defense. */
  ghost function DefendingNodes(nodes: seq<Node>, attackers: seq<nat>): set<nat> {
    set i: nat | i < |nodes| && i !in attackers
                 && nodes[i].protocol.Some? && nodes[i].protocol.value.blacklist.Some?
  }

  ghost function BlacklistOf(nodes: seq<Node>, i: nat): set<Address> {
    if i < |nodes| && nodes[i].protocol.Some? && nodes[i].protocol.value.blacklist.Some?
    then nodes[i].protocol.value.blacklist.value else {}
  }

  ghost function NeighborsOf(nodes: seq<Node>, i: nat): seq<Address> {
    if i < |nodes| && nodes[i].protocol.Some? then nodes[i].protocol.value.neighbors else []
  }

  /** The accusations made by the first `n` nodes that defend: who accuses whom. */
  ghost function Accusations(nodes: seq<Node>, attackers: seq<nat>, n: nat): set<(nat, Address)> {
    set i: nat, x | i < n && i in DefendingNodes(nodes, attackers) && x in BlacklistOf(nodes, i) :: (i, x)
  }

  ghost function Against(accusations: set<(nat, Address)>, a: set<Address>): set<(nat, Address)> {
    set p | p in accusations && p.1 in a
  }

  ghost function NotAgainst(accusations: set<(nat, Address)>, a: set<Address>): set<(nat, Address)> {
    set p | p in accusations && p.1 !in a
  }

  ghost function From(i: nat, s: set<Address>): set<(nat, Address)> {
    set x | x in s :: (i, x)
  }

  lemma {:induction false} FromSize(i: nat, s: set<Address>)
    ensures |From(i, s)| == |s|
    decreases s
  {
    if s != {} {
      var x :| x in s;
      FromSize(i, s - {x});
      assert From(i, s) == From(i, s - {x}) + {(i, x)};
    }
  }

  ghost function MembersBelow(s: set<nat>, n: nat): set<nat> {
    set i | i in s && i < n
  }

  lemma MembersNext(s: set<nat>, n: nat)
    ensures MembersBelow(s, 0) == {}
    ensures MembersBelow(s, n + 1) == MembersBelow(s, n) + if n in s then {n} else {}
    ensures n !in MembersBelow(s, n)
  {
  }

  lemma {:induction false} CountMembers(f: nat -> nat, s: set<nat>, n: nat)
    requires forall i: nat :: i < n ==> f(i) == if i in s then 1 else 0
    ensures Total(f, n) == |MembersBelow(s, n)|
  {
    hide MembersBelow;
    if n == 0 {
      MembersNext(s, 0);
    } else {
      CountMembers(f, s, n - 1);
      MembersNext(s, n - 1);
    }
  }

  /** The blacklist of node `n`, if it defends. */
  ghost function AccusedBy(nodes: seq<Node>, attackers: seq<nat>, n: nat): set<Address> {
    if n in DefendingNodes(nodes, attackers) then BlacklistOf(nodes, n) else {}
  }

  lemma OneMoreAccuser(nodes: seq<Node>, attackers: seq<nat>, n: nat)
    ensures Accusations(nodes, attackers, n + 1) == Accusations(nodes, attackers, n) + From(n, AccusedBy(nodes, attackers, n))
    ensures forall p :: p in Accusations(nodes, attackers, n) ==> p.0 < n
  {
    hide DefendingNodes, BlacklistOf;
  }

  lemma AgainstMore(before: set<(nat, Address)>, n: nat, s: set<Address>, a: set<Address>)
    requires forall p :: p in before ==> p.0 < n
    ensures |Against(before + From(n, s), a)| == |Against(before, a)| + |s * a|
    ensures |NotAgainst(before + From(n, s), a)| == |NotAgainst(before, a)| + |s - a|
  {
    assert Against(before + From(n, s), a) == Against(before, a) + From(n, s * a);
    assert NotAgainst(before + From(n, s), a) == NotAgainst(before, a) + From(n, s - a);
    assert Against(before, a) !! From(n, s * a) && NotAgainst(before, a) !! From(n, s - a);
    FromSize(n, s * a);
    FromSize(n, s - a);
  }

  lemma AccusedAt(nodes: seq<Node>, attackers: seq<nat>, a: set<Address>, n: nat)
    requires n < |nodes|
    ensures TrueDetections(nodes, attackers, a)(n) == |AccusedBy(nodes, attackers, n) * a|
    ensures FalseDetections(nodes, attackers, a)(n) == |AccusedBy(nodes, attackers, n) - a|
  {
  }

  lemma {:induction false} CountAccusers(nodes: seq<Node>, attackers: seq<nat>, a: set<Address>, n: nat)
    requires n <= |nodes|
    ensures Total(TrueDetections(nodes, attackers, a), n) == |Against(Accusations(nodes, attackers, n), a)|
    ensures Total(FalseDetections(nodes, attackers, a), n) == |NotAgainst(Accusations(nodes, attackers, n), a)|
  {
    hide TrueDetections, FalseDetections, Accusations, Against, NotAgainst, From, AccusedBy, Total;
    if n == 0 {
      NothingAdded(TrueDetections(nodes, attackers, a));
      NothingAdded(FalseDetections(nodes, attackers, a));
      NoAccusations(nodes, attackers, a);
    } else {
      CountAccusers(nodes, attackers, a, n - 1);
      OneMoreAccuser(nodes, attackers, n - 1);
      TotalNext(TrueDetections(nodes, attackers, a), n - 1);
      TotalNext(FalseDetections(nodes, attackers, a), n - 1);
      AgainstMore(Accusations(nodes, attackers, n - 1), n - 1, AccusedBy(nodes, attackers, n - 1), a);
      AccusedAt(nodes, attackers, a, n - 1);
    }
  }

  lemma TotalNext(f: nat -> nat, n: nat)
    ensures Total(f, n + 1) == Total(f, n) + f(n)
  {
  }

  lemma NoAccusations(nodes: seq<Node>, attackers: seq<nat>, a: set<Address>)
    ensures Against(Accusations(nodes, attackers, 0), a) == {}
    ensures NotAgainst(Accusations(nodes, attackers, 0), a) == {}
  {
  }

  /** The defenders that have one of the addresses `a` among their neighbours. */
  ghost function DefendingInRange(nodes: seq<Node>, attackers: seq<nat>, a: set<Address>): set<nat> {
    set i | i in DefendingNodes(nodes, attackers) && exists x :: x in a && x in NeighborsOf(nodes, i)
  }

  lemma InRangeIsNeighbor(node: Olsr, a: set<Address>)
    ensures InRange(node, a) <==> exists x :: x in a && x in node.neighbors
  {
    if x :| x in a && x in node.neighbors {
      var i :| 0 <= i < |node.neighbors| && node.neighbors[i] == x;
    }
  }

  /** What the counters of a sample are: the number of defenders, of those with an attacker for a neighbour,
      and of the pairs of a defender and an address on its blacklist that is an attacker's or is not. */
  ghost predicate CountsAre(nodes: seq<Node>, attackers: seq<nat>, a: set<Address>, r: Accuracy) {
    && r.defendersTotal == |DefendingNodes(nodes, attackers)|
    && r.defendersInRange == |DefendingInRange(nodes, attackers, a)|
    && r.trueDetections == |Against(Accusations(nodes, attackers, |nodes|), a)|
    && r.falseDetections == |NotAgainst(Accusations(nodes, attackers, |nodes|), a)|
  }

  lemma CountersCount(nodes: seq<Node>, attackers: seq<nat>, a: set<Address>, r: Accuracy)
    requires Describes(nodes, attackers, a, r)
    ensures CountsAre(nodes, attackers, a, r)
  {
    hide Total, TrueDetections, FalseDetections, Accusations, Against, NotAgainst, Percent, InRange;
    var n := |nodes|;
    var all, near := DefendingNodes(nodes, attackers), DefendingInRange(nodes, attackers, a);
    forall i: nat | i < n ensures InRangeDefenders(nodes, attackers, a)(i) == if i in near then 1 else 0 {
      if i in all { InRangeIsNeighbor(nodes[i].protocol.value, a); }
    }
    CountMembers(Defenders(nodes, attackers), all, n);
    CountMembers(InRangeDefenders(nodes, attackers, a), near, n);
    assert MembersBelow(all, n) == all && MembersBelow(near, n) == near;
    CountAccusers(nodes, attackers, a, n);
  }

  method SampleDetectionAccuracy(nodes: seq<Node>, attackers: seq<nat>, runRejected: bool) returns (r: Accuracy)
    ensures var a := AttackerAddresses(nodes, attackers);
            if runRejected || a == {} then r == Accuracy(0, 0, 0, 0, 0.0, 0.0, 0.0) else Describes(nodes, attackers, a, r)
    ensures var a := AttackerAddresses(nodes, attackers);
            !runRejected && a != {} ==> CountsAre(nodes, attackers, a, r)
    ensures r == if runRejected then NOTHING else Sampled(nodes, attackers)
  {
    hide AttackerAddresses, Percent, TrueDetections, FalseDetections, Defenders, InRangeDefenders, CountsAre, Total;
    if runRejected { return NOTHING; }
    var addresses := FindAttackers(nodes, attackers);
    if addresses == {} { return NOTHING; }
    var trueDet, falseDet, defTotal, defInRange := CountDetections(nodes, attackers, addresses);
    r := Accuracy(trueDet, falseDet, defTotal, defInRange,
                  Percent(trueDet, defTotal * |addresses|), Percent(trueDet, defInRange * |addresses|),
                  Percent(falseDet, trueDet + falseDet));
    CountersCount(nodes, attackers, addresses, r);
  }

  // ---------------------------------------------------------------------------
  // What an attacker says counts for nothing
  // ---------------------------------------------------------------------------

  /** `other` is `nodes`, but for what the attackers' blacklists and neighbours are. */
  ghost predicate SameButAttackers(nodes: seq<Node>, other: seq<Node>, attackers: seq<nat>) {
    && |other| == |nodes|
    && (forall i :: 0 <= i < |nodes| && i !in attackers ==> other[i] == nodes[i])
    && (forall i :: 0 <= i < |nodes| && i in attackers ==> SameAddress(other[i], nodes[i]))
  }

  ghost predicate SameAddress(m: Node, n: Node) {
    && (m.protocol.Some? <==> n.protocol.Some?)
    && (m.protocol.Some? ==> m.protocol.value.mainAddress == n.protocol.value.mainAddress)
  }

  lemma {:induction false} SameTotals(f: nat -> nat, g: nat -> nat, n: nat)
    requires forall i: nat :: i < n ==> f(i) == g(i)
    ensures Total(f, n) == Total(g, n)
  {
    if n > 0 {
      SameTotals(f, g, n - 1);
    }
  }

  lemma SameAttackers(nodes: seq<Node>, other: seq<Node>, attackers: seq<nat>)
    requires SameButAttackers(nodes, other, attackers)
    ensures AttackerAddresses(other, attackers) == AttackerAddresses(nodes, attackers)
  {
    forall id: nat | id in attackers && id < |nodes| ensures SameAddress(other[id], nodes[id]) {
    }
  }

  lemma SameContribution(nodes: seq<Node>, other: seq<Node>, attackers: seq<nat>, a: set<Address>, i: nat)
    requires SameButAttackers(nodes, other, attackers) && i < |nodes|
    ensures Defenders(other, attackers)(i) == Defenders(nodes, attackers)(i)
    ensures InRangeDefenders(other, attackers, a)(i) == InRangeDefenders(nodes, attackers, a)(i)
    ensures TrueDetections(other, attackers, a)(i) == TrueDetections(nodes, attackers, a)(i)
    ensures FalseDetections(other, attackers, a)(i) == FalseDetections(nodes, attackers, a)(i)
  {
    hide InRange;
    if i !in attackers {
      assert other[i] == nodes[i];
    }
  }

  /** Whatever an attacker puts on its own blacklist, and whoever its neighbours are, the sample is the same. */
  lemma AttackersDoNotCount(nodes: seq<Node>, other: seq<Node>, attackers: seq<nat>)
    requires SameButAttackers(nodes, other, attackers)
    ensures Sampled(other, attackers) == Sampled(nodes, attackers)
  {
    hide AttackerAddresses, Total, TrueDetections, FalseDetections, Defenders, InRangeDefenders, Percent;
    SameAttackers(nodes, other, attackers);
    var a, n := AttackerAddresses(nodes, attackers), |nodes|;
    forall i: nat | i < n
      ensures Defenders(other, attackers)(i) == Defenders(nodes, attackers)(i)
      ensures InRangeDefenders(other, attackers, a)(i) == InRangeDefenders(nodes, attackers, a)(i)
      ensures TrueDetections(other, attackers, a)(i) == TrueDetections(nodes, attackers, a)(i)
      ensures FalseDetections(other, attackers, a)(i) == FalseDetections(nodes, attackers, a)(i)
    {
      SameContribution(nodes, other, attackers, a, i);
    }
    SameTotals(Defenders(other, attackers), Defenders(nodes, attackers), n);
    SameTotals(InRangeDefenders(other, attackers, a), InRangeDefenders(nodes, attackers, a), n);
    SameTotals(TrueDetections(other, attackers, a), TrueDetections(nodes, attackers, a), n);
    SameTotals(FalseDetections(other, attackers, a), FalseDetections(nodes, attackers, a), n);
  }

  // ---------------------------------------------------------------------------
  // What the percentages mean
  // ---------------------------------------------------------------------------

  lemma SplitSize(b: set<Address>, a: set<Address>)
    ensures |b * a| + |b - a| == |b| && |b * a| + |a - b| == |a| && (|b * a| == |a| <==> a <= b)
  {
    assert b == b * a + (b - a) && a == b * a + (a - b);
    assert |a - b| == 0 <==> a - b == {};
  }

  ghost function BlacklistSizes(nodes: seq<Node>, attackers: seq<nat>): nat -> nat {
    (i: nat) => if i < |nodes| && IsDefender(nodes, attackers, i) then |nodes[i].protocol.value.blacklist.value| else 0
  }

  lemma AccusationIsSplit(nodes: seq<Node>, attackers: seq<nat>, a: set<Address>, i: nat)
    requires i < |nodes|
    ensures TrueDetections(nodes, attackers, a)(i) + FalseDetections(nodes, attackers, a)(i)
            == BlacklistSizes(nodes, attackers)(i)
  {
    if IsDefender(nodes, attackers, i) {
      SplitSize(nodes[i].protocol.value.blacklist.value, a);
    }
  }

  /** Every accusation is counted once, as a true or as a false one. */
  lemma {:induction false} AccusationsAreSplit(nodes: seq<Node>, attackers: seq<nat>, a: set<Address>, n: nat)
    requires n <= |nodes|
    ensures Total(TrueDetections(nodes, attackers, a), n) + Total(FalseDetections(nodes, attackers, a), n)
            == Total(BlacklistSizes(nodes, attackers), n)
  {
    hide TrueDetections, FalseDetections, BlacklistSizes;
    if n > 0 {
      AccusationsAreSplit(nodes, attackers, a, n - 1);
      AccusationIsSplit(nodes, attackers, a, n - 1);
    }
  }

  ghost predicate AccusesAll(nodes: seq<Node>, attackers: seq<nat>, a: set<Address>, i: nat)
    requires i < |nodes|
  {
    IsDefender(nodes, attackers, i) ==> a <= nodes[i].protocol.value.blacklist.value
  }

  lemma DetectionBound(nodes: seq<Node>, attackers: seq<nat>, a: set<Address>, i: nat)
    requires i < |nodes|
    ensures var most := if Defenders(nodes, attackers)(i) > 0 then |a| else 0;
            && TrueDetections(nodes, attackers, a)(i) <= most
            && (TrueDetections(nodes, attackers, a)(i) == most <==> AccusesAll(nodes, attackers, a, i))
    ensures Defenders(nodes, attackers)(i) <= 1
  {
    if IsDefender(nodes, attackers, i) {
      SplitSize(nodes[i].protocol.value.blacklist.value, a);
    }
  }

  /** A defender accuses each attacker at most once. */
  lemma {:induction false} TrueDetectionsBound(nodes: seq<Node>, attackers: seq<nat>, a: set<Address>, n: nat)
    requires n <= |nodes|
    ensures Total(TrueDetections(nodes, attackers, a), n) <= Total(Defenders(nodes, attackers), n) * |a|
    ensures Total(TrueDetections(nodes, attackers, a), n) == Total(Defenders(nodes, attackers), n) * |a|
            <==> forall i :: 0 <= i < n ==> AccusesAll(nodes, attackers, a, i)
  {
    hide TrueDetections, Defenders, AccusesAll;
    if n > 0 {
      TrueDetectionsBound(nodes, attackers, a, n - 1);
      assert (forall i :: 0 <= i < n ==> AccusesAll(nodes, attackers, a, i))
             <==> (forall i :: 0 <= i < n - 1 ==> AccusesAll(nodes, attackers, a, i)) && AccusesAll(nodes, attackers, a, n - 1);
      DetectionBound(nodes, attackers, a, n - 1);
      Distribute(Total(Defenders(nodes, attackers), n - 1), |a|);
    }
  }

  lemma Distribute(x: nat, y: nat)
    ensures (x + 1) * y == x * y + y
  {
  }

  lemma PercentBounds(part: nat, whole: nat)
    ensures part <= whole ==> 0.0 <= Percent(part, whole) <= 100.0
    ensures whole == 0 ==> Percent(part, whole) == 0.0
    ensures whole > 0 ==> (Percent(part, whole) == 100.0 <==> part == whole)
    ensures whole > 0 ==> (Percent(part, whole) <= 100.0 <==> part <= whole)
  {
    if whole > 0 {
      var p, w := part as real, whole as real;
      assert Percent(part, whole) * w == 100.0 * p;
      ScaledOrder(Percent(part, whole), p, w);
    }
  }

  /** A percentage `x` of `w` compares with 100 as its part `p` with `w`. */
  lemma ScaledOrder(x: real, p: real, w: real)
    requires w > 0.0 && x * w == 100.0 * p
    ensures x <= 100.0 <==> p <= w
    ensures x == 100.0 <==> p == w
    ensures p >= 0.0 ==> x >= 0.0
  {
    assert (x - 100.0) * w == 100.0 * (p - w);
    if x > 100.0 {
      ProductSign(x - 100.0, w);
    } else if x < 100.0 {
      ProductSign(100.0 - x, w);
      assert (100.0 - x) * w == 100.0 * (w - p);
    }
    if x < 0.0 {
      ProductSign(-x, w);
      assert (-x) * w == -(x * w);
    }
  }

  lemma ProductSign(x: real, y: real)
    requires x > 0.0 && y > 0.0
    ensures x * y > 0.0
  {
  }

  /** The detection percentage and the false-alarm rate are percentages, and detection is complete exactly
      when every defender accuses every attacker. */
  lemma DetectionIsAPercentage(nodes: seq<Node>, attackers: seq<nat>, a: set<Address>, r: Accuracy)
    requires Describes(nodes, attackers, a, r) && a != {}
    ensures 0.0 <= r.detectionPercent <= 100.0 && 0.0 <= r.falseAlarmRate <= 100.0
    ensures r.defendersTotal == 0 ==> r.detectionPercent == 0.0
    ensures r.trueDetections + r.falseDetections == 0 ==> r.falseAlarmRate == 0.0
    ensures r.falseDetections > 0 ==> (r.falseAlarmRate == 100.0 <==> r.trueDetections == 0)
    ensures r.defendersTotal > 0 ==>
              (r.detectionPercent == 100.0
               <==> forall i :: 0 <= i < |nodes| ==> AccusesAll(nodes, attackers, a, i))
  {
    hide AccusesAll, Percent;
    TrueDetectionsBound(nodes, attackers, a, |nodes|);
    PercentBounds(r.trueDetections, r.defendersTotal * |a|);
    PercentBounds(r.falseDetections, r.trueDetections + r.falseDetections);
    PositiveProduct(r.defendersTotal, |a|);
  }

  lemma PositiveProduct(x: nat, y: nat)
    requires y > 0
    ensures x * y > 0 <==> x > 0
  {
  }

  lemma DetectionByRange(nodes: seq<Node>, attackers: seq<nat>, a: set<Address>, i: nat)
    requires i < |nodes|
    ensures TrueDetections(nodes, attackers, a)(i) + MissedInRange(nodes, attackers, a)(i)
            == (if InRangeDefenders(nodes, attackers, a)(i) > 0 then |a| else 0) + AccusedOutOfRange(nodes, attackers, a)(i)
    ensures InRangeDefenders(nodes, attackers, a)(i) <= 1
  {
    hide InRange;
    if DefenderInRange(nodes, attackers, a, i) {
      SplitSize(nodes[i].protocol.value.blacklist.value, a);
    }
  }

  /** True detections, split by range. */
  lemma {:induction false} DetectionsByRange(nodes: seq<Node>, attackers: seq<nat>, a: set<Address>, n: nat)
    requires n <= |nodes|
    ensures Total(TrueDetections(nodes, attackers, a), n) + Total(MissedInRange(nodes, attackers, a), n)
            == Total(InRangeDefenders(nodes, attackers, a), n) * |a| + Total(AccusedOutOfRange(nodes, attackers, a), n)
  {
    hide TrueDetections, MissedInRange, InRangeDefenders, AccusedOutOfRange;
    if n > 0 {
      DetectionsByRange(nodes, attackers, a, n - 1);
      DetectionByRange(nodes, attackers, a, n - 1);
      Distribute(Total(InRangeDefenders(nodes, attackers, a), n - 1), |a|);
    }
  }

  /** The in-range percentage stays within 100 exactly when the accusations made from out of range do not
      outnumber those missed in range: its numerator counts both kinds of defender. */
  lemma InRangePercentBound(nodes: seq<Node>, attackers: seq<nat>, a: set<Address>, r: Accuracy)
    requires Describes(nodes, attackers, a, r) && a != {} && r.defendersInRange > 0
    ensures r.detectionPercentInRange <= 100.0
            <==> Total(AccusedOutOfRange(nodes, attackers, a), |nodes|) <= Total(MissedInRange(nodes, attackers, a), |nodes|)
  {
    hide Percent;
    DetectionsByRange(nodes, attackers, a, |nodes|);
    PositiveProduct(r.defendersInRange, |a|);
    PercentBounds(r.trueDetections, r.defendersInRange * |a|);
  }

  lemma TotalOfThree(f: nat -> nat)
    ensures Total(f, 3) == f(0) + f(1) + f(2)
  {
    assert Total(f, 3) == Total(f, 2) + f(2) && Total(f, 2) == Total(f, 1) + f(1);
  }

  /** What a node's flagged senders become by a HELLO from `sender`: flagged when it breaks a rule, cleared
      when it does not.  Nothing else changes them: a sender that is heard no more stays flagged. */
  function AfterHello(risky: set<Address>, sender: Address, breaksRule: bool): set<Address> {
    if breaksRule then risky + {sender} else risky - {sender}
  }

  /** The senders flagged after a series of HELLOs, each from a sender and breaking a rule or not. */
  function AfterHellos(risky: set<Address>, hellos: seq<(Address, bool)>): set<Address> {
    if hellos == [] then risky else
      var m := |hellos| - 1;
      AfterHello(AfterHellos(risky, hellos[..m]), hellos[m].0, hellos[m].1)
  }

  /** The HELLO at `i` is the last one from its sender. */
  ghost predicate IsLast(hellos: seq<(Address, bool)>, i: nat) {
    i < |hellos| && forall j :: i < j < |hellos| ==> hellos[j].0 != hellos[i].0
  }

  /** A sender is flagged exactly when its last HELLO broke a rule, or when it has sent none and was flagged
      before: what others send changes nothing. */
  lemma {:induction false} LastHelloDecides(risky: set<Address>, hellos: seq<(Address, bool)>, sender: Address)
    ensures sender in AfterHellos(risky, hellos)
            <==> || (exists i: nat :: IsLast(hellos, i) && hellos[i] == (sender, true))
                 || (sender in risky && forall i :: 0 <= i < |hellos| ==> hellos[i].0 != sender)
    decreases |hellos|
  {
    if hellos != [] {
      var m := |hellos| - 1;
      var before := hellos[..m];
      LastHelloDecides(risky, before, sender);
      assert IsLast(hellos, m);
      if hellos[m].0 != sender {
        forall i: nat | i < m && hellos[i].0 == sender ensures IsLast(hellos, i) <==> IsLast(before, i) {
        }
      }
    }
  }

  /** Three nodes that all run the defense.  Node 2 attacks.  Nodes 0 and 1 have both heard a HELLO from it
      that breaks a rule; node 1 has since moved out of its range. */
  function AfterOneMoved(): seq<Node> {
    var flagged := AfterHellos({}, [(12, true)]);
    [Node(Some(Olsr(10, [12], Some(flagged)))),
     Node(Some(Olsr(11, [], Some(flagged)))),
     Node(Some(Olsr(12, [10], Some({}))))]
  }

  lemma AttackerOfThree(attackers: seq<nat>)
    requires forall id: nat :: id in attackers <==> id == 2
    ensures AttackerAddresses(AfterOneMoved(), attackers) == {12}
  {
    var nodes := AfterOneMoved();
    assert 2 in attackers && nodes[2].protocol.Some?;
  }

  lemma OnlyTwoIsListed(segments: seq<F.Segment>)
    requires segments == [F.Number(2)]
    ensures forall id: nat :: F.Listed(segments, 3, id) <==> id == 2
  {
  }

  lemma CountsOfThree(attackers: seq<nat>, a: set<Address>)
    requires a == {12} && forall id: nat :: id in attackers <==> id == 2
    ensures Total(TrueDetections(AfterOneMoved(), attackers, a), 3) == 2
    ensures Total(InRangeDefenders(AfterOneMoved(), attackers, a), 3) == 1
  {
    var nodes := AfterOneMoved();
    TotalOfThree(TrueDetections(nodes, attackers, a));
    TotalOfThree(InRangeDefenders(nodes, attackers, a));
    assert nodes[0].protocol.value.neighbors[0] in a && InRange(nodes[0].protocol.value, a);
    assert !InRange(nodes[1].protocol.value, a);
    assert nodes[0].protocol.value.blacklist.value == a == nodes[1].protocol.value.blacklist.value;
    assert a * a == a;
  }

  /** It can exceed 100, with the attackers read from the list `2` and a defense on every node: one defender
      in range and one that has moved away both accuse the attacker. */
  method InRangePercentExceeds() returns (nodes: seq<Node>, attackers: seq<nat>, r: Accuracy)
    ensures forall id: nat :: id in attackers <==> F.Listed([F.Number(2)], |nodes|, id)
    ensures |nodes| == 3 && forall i :: 0 <= i < 3 ==> nodes[i].protocol.Some? && nodes[i].protocol.value.blacklist.Some?
    ensures Describes(nodes, attackers, AttackerAddresses(nodes, attackers), r)
    ensures r.defendersInRange == 1 && r.detectionPercentInRange == 200.0
  {
    hide Total, TrueDetections, InRangeDefenders, FalseDetections, Defenders, AttackerAddresses, F.Listed;
    nodes := AfterOneMoved();
    attackers := F.ParseAttackers([F.Number(2)], |nodes|);
    OnlyTwoIsListed([F.Number(2)]);
    AttackerOfThree(attackers);
    CountsOfThree(attackers, {12});
    r := SampleDetectionAccuracy(nodes, attackers, false);
  }
}
