/** The evaluation harness itself: global flags, per-node defense objects and staging buffers, updated in
    place by the handlers that the event loop calls. Every handler is the transition of SlotTimeline. */
module Harness {
  import opened EventOrder
  import opened Finite
  import S = Sampling
  import T = SlotTimeline

  /** A node's defense object. */
  class OlsrDefenseGcop {
    var enabled: bool
    var riskyNodes: set<nat>

    constructor ()
      ensures !enabled && riskyNodes == {}
    {
      enabled, riskyNodes := false, {};
    }

    function Value(): T.Defense
      reads this
    {
      T.Defense(enabled, riskyNodes)
    }

    /** A value-preserving call does nothing; a real change wipes the detection state. */
    method SetEnabled(value: bool)
      modifies this
      ensures Value() == T.SetEnabled(old(Value()), value)
      ensures enabled == value && riskyNodes == if old(enabled) == value then old(riskyNodes) else {}
    {
      if enabled == value { return; }
      riskyNodes := {};
      enabled := value;
    }
  }

  /** The labels written for a scenario name. */
  method LabelsForScenario(scenarios: seq<ScenarioSpec>, name: string) returns (attack: bool, defense: bool)
    ensures (attack, defense) == T.LabelsOf(scenarios, name)
    ensures (forall j :: 0 <= j < |scenarios| ==> scenarios[j].name != name) ==> !attack && !defense
    ensures forall j :: 0 <= j < |scenarios| && scenarios[j].name == name
                        && (forall i :: 0 <= i < j ==> scenarios[i].name != name) ==>
              attack == scenarios[j].attack && defense == scenarios[j].defense
  {
    for i := 0 to |scenarios|
      invariant T.LabelsOf(scenarios, name) == T.LabelsOf(scenarios[i..], name)
      invariant forall j :: 0 <= j < i ==> scenarios[j].name != name
    {
      if scenarios[i].name == name { return scenarios[i].attack, scenarios[i].defense; }
    }
    return false, false;
  }

  class Harness<N, P, D, F> {
    const env: T.Env<N, P, D, F>
    const c: Config
    const defenses: seq<OlsrDefenseGcop>

    var net: N
    var malicious: seq<bool>
    var spoofed: seq<nat>
    var runRejected: bool
    var stopped: bool
    var attackCurrentlyOn: bool
    var defenseCurrentlyOn: bool
    var featuresActive: bool
    var frames: seq<F>
    var sent: seq<F>
    var path: P
    var detection: D
    var featureRows: seq<T.FeatureRow<F>>
    var labelRows: seq<T.LabelRow<P>>
    var oracleRows: seq<T.OracleRow<P, D, F>>

    ghost predicate Valid()
      reads this
    {
      && c.Valid() && |malicious| == |spoofed| == |defenses| == c.nodes
      && forall i, j :: 0 <= i < j < |defenses| ==> defenses[i] != defenses[j]
    }

    function Defenses(): (r: seq<T.Defense>)
      reads defenses
    {
      seq(|defenses|, i requires 0 <= i < |defenses| reads defenses => defenses[i].Value())
    }

    function View(): T.View<N>
      reads this, defenses
    {
      T.View(net, malicious, spoofed, Defenses())
    }

    ghost function Abs(): T.State<N, P, D, F>
      reads this, defenses
    {
      T.State(View(), runRejected, stopped, attackCurrentlyOn, defenseCurrentlyOn, featuresActive, frames, sent,
              path, detection, T.Staging(featureRows, labelRows, oracleRows))
    }

    constructor (env: T.Env<N, P, D, F>, c: Config, net: N, defenses: seq<OlsrDefenseGcop>)
      requires c.Valid() && |defenses| == c.nodes
      requires forall i, j :: 0 <= i < j < |defenses| ==> defenses[i] != defenses[j]
      requires forall i :: 0 <= i < |defenses| ==> defenses[i].Value() == T.Defense(false, {})
      ensures Valid() && Abs() == T.Initial(env, c, net) && this.env == env && this.c == c && this.defenses == defenses
    {
      this.env, this.c, this.net, this.defenses := env, c, net, defenses;
      malicious, spoofed := seq(c.nodes, _ => false), seq(c.nodes, _ => 0);
      runRejected, stopped, attackCurrentlyOn, defenseCurrentlyOn, featuresActive := false, false, false, false, false;
      frames, sent, path, detection := [], [], env.noPath, env.noDetection;
      featureRows, labelRows, oracleRows := [], [], [];
      new;
      assert Defenses() == seq(c.nodes, _ => T.Defense(false, {}));
    }

    method SetAttackState(active: bool)
      requires Valid()
      modifies this`malicious, this`spoofed
      ensures Valid()
      ensures Abs() == if runRejected then old(Abs()) else old(Abs()).(view := T.SetAttackState(c, old(View()), active))
    {
      if runRejected { return; }
      for k := 0 to |c.attackers|
        invariant |malicious| == |spoofed| == c.nodes
        invariant forall n :: 0 <= n < c.nodes ==>
                    malicious[n] == if n in c.attackers[..k] then active else old(malicious)[n]
        invariant forall n :: 0 <= n < c.nodes ==>
                    spoofed[n] == if n in c.attackers[..k] then if active then c.spoofCount else 0 else old(spoofed)[n]
      {
        var id := c.attackers[k];
        assert c.attackers[..k + 1] == c.attackers[..k] + [id];
        if id >= c.nodes { continue; }
        malicious := malicious[id := active];
        spoofed := spoofed[id := if active then c.spoofCount else 0];
      }
      assert c.attackers[..|c.attackers|] == c.attackers;
      assert View() == T.SetAttackState(c, old(View()), active);
    }

    method SetDefenseState(active: bool)
      requires Valid()
      modifies defenses
      ensures Abs() == if runRejected then old(Abs()) else old(Abs()).(view := T.SetDefenseState(old(View()), active))
    {
      if runRejected { return; }
      for i := 0 to |defenses|
        invariant forall n :: 0 <= n < i ==> defenses[n].Value() == T.SetEnabled(old(defenses[n].Value()), active)
        invariant forall n :: i <= n < |defenses| ==> defenses[n].Value() == old(defenses[n].Value())
      {
        defenses[i].SetEnabled(active);
      }
      assert View() == T.SetDefenseState(old(View()), active);
    }

    method ForceDefenseColdStart()
      requires Valid()
      modifies defenses
      ensures Abs() == if runRejected then old(Abs()) else old(Abs()).(view := T.ForceDefenseColdStart(old(View())))
    {
      if runRejected { return; }
      for i := 0 to |defenses|
        invariant forall n :: 0 <= n < i ==> defenses[n].Value() == T.ColdStart(old(defenses[n].Value()))
        invariant forall n :: i <= n < |defenses| ==> defenses[n].Value() == old(defenses[n].Value())
      {
        var cur := defenses[i].enabled;
        defenses[i].SetEnabled(!cur);
        defenses[i].SetEnabled(cur);
      }
      assert View() == T.ForceDefenseColdStart(old(View()));
    }

    method SwitchAttack(active: bool)
      requires Valid() && !runRejected
      modifies this`malicious, this`spoofed, this`attackCurrentlyOn
      ensures Valid() && Abs() == T.SwitchAttack(c, old(Abs()), active)
    {
      hide T.SetAttackState, Config.Valid, Defenses;
      if active != attackCurrentlyOn {
        SetAttackState(active);
        attackCurrentlyOn := active;
      }
    }

    method SwitchDefense(active: bool)
      requires Valid() && !runRejected
      modifies this`defenseCurrentlyOn, defenses
      ensures Valid() && Abs() == T.SwitchDefense(old(Abs()), active)
    {
      hide T.SetDefenseState, Config.Valid, Defenses;
      if active != defenseCurrentlyOn {
        SetDefenseState(active);
        defenseCurrentlyOn := active;
      }
    }

    method ApplyScenarioState(slot: nat)
      requires Valid() && slot < c.Slots()
      modifies this`malicious, this`spoofed, this`attackCurrentlyOn, this`defenseCurrentlyOn, defenses
      ensures Valid() && Abs() == T.ApplyScenario(c, old(Abs()), slot)
    {
      hide T.SwitchAttack, T.SwitchDefense, T.ForceDefenseColdStart, Config.Valid, Config.Scenario, Defenses;
      if runRejected { return; }
      var sc := c.Scenario(slot);
      SwitchAttack(sc.attack);
      SwitchDefense(sc.defense);
      ForceDefenseColdStart();
    }

    method Gate(passed: bool)
      requires Valid()
      modifies this`runRejected, this`stopped
      ensures Valid() && Abs() == T.Gate(old(Abs()), passed)
    {
      if runRejected { return; }
      if !passed {
        runRejected := true;
        stopped := true;
      }
    }

    method StartMeasurementWindow()
      requires Valid()
      modifies this`featuresActive, this`frames, this`sent
      ensures Valid() && Abs() == T.StartWindow(old(Abs()))
    {
      if runRejected { return; }
      sent := [];
      frames := [];
      featuresActive := true;
    }

    method EndMeasurementWindow(w: T.Window)
      requires Valid()
      modifies this`featuresActive, this`featureRows, this`labelRows, this`oracleRows
      ensures Valid() && Abs() == T.EndWindow(c, old(Abs()), w)
    {
      hide T.LabelsOf, Defenses, Config.Valid;
      if runRejected { return; }
      featuresActive := false;
      oracleRows := oracleRows + [T.OracleRow(w, sent, path, detection)];
      var attack, defense := LabelsForScenario(c.scenarios, w.scenario);
      labelRows := labelRows + [T.LabelRow(w, defense, attack, path)];
      featureRows := featureRows + [T.FeatureRow(w, frames)];
    }

    lemma ViewIs()
      ensures Abs().view == View() && Abs().rejected == runRejected
    {
      hide View;
    }

    method ObservePath()
      requires Valid()
      modifies this`path
      ensures Valid() && Abs() == old(Abs()).(path := env.observe(old(Abs()).view))
    {
      hide Defenses, Config.Valid;
      path := env.observe(View());
    }

    method SampleDetection()
      requires Valid()
      modifies this`detection
      ensures Valid()
      ensures Abs() == old(Abs()).(detection := if runRejected then env.noDetection else env.detect(old(Abs()).view))
    {
      hide Defenses, Config.Valid;
      detection := if runRejected then env.noDetection else env.detect(View());
    }

    method StopRun()
      requires Valid()
      modifies this`stopped
      ensures Valid() && Abs() == old(Abs()).(stopped := true)
    {
      hide Defenses, Config.Valid;
      stopped := true;
    }

    /** The handler of an event. */
    method Fire(e: Event)
      requires Valid() && IsEvent(c, e)
      modifies this, defenses
      ensures Valid() && Abs() == T.Handle(env, c, old(Abs()), e)
    {
      hide T.ApplyScenario, T.Gate, T.StartWindow, T.EndWindow, Config.Valid, T.WindowOf, Defenses, View, Abs;
      ViewIs();
      match e {
        case ObservePath(_) => ObservePath();
        case SampleDetection(_) => SampleDetection();
        case AssertConnectivity => Gate(env.connected(View()));
        case AssertRouteExists => Gate(env.routed(View()));
        case Transition(k) => ApplyScenarioState(k);
        case StartSlot(_) => StartMeasurementWindow();
        case EndSlot(k) => EndMeasurementWindow(T.WindowOf(c, k));
        case Stop => StopRun();
        case _ =>
      }
    }

    /** Lets every defense object flag and clear senders. */
    method GrowDefenses(i: nat)
      requires Valid()
      modifies defenses`riskyNodes
      ensures Defenses() == T.Grown(env, i, old(View()))
    {
      hide T.Grow;
      GrowIsUpdate();
      for n := 0 to |defenses|
        invariant forall m :: 0 <= m < n ==> defenses[m].Value() == T.Grow(env, i, m, net, old(defenses[m].Value()))
        invariant forall m :: n <= m < |defenses| ==> defenses[m].Value() == old(defenses[m].Value())
      {
        defenses[n].riskyNodes := env.risky(i, n, net, defenses[n].Value());
      }
    }

    lemma GrowIsUpdate()
      ensures forall i, n, v, d :: T.Grow(env, i, n, v, d) == T.Defense(d.enabled, env.risky(i, n, v, d))
    {
    }

    lemma GrownAbs(was: T.State<N, P, D, F>, v: T.View<N>)
      requires was == Abs().(view := v) && v == View().(defenses := v.defenses)
      ensures Abs() == was.(view := v.(defenses := Defenses()))
    {
      hide Defenses;
    }

    /** Frames are heard and sent, and the network moves on from what it was at `v`. */
    method MoveOn(i: nat, v: T.View<N>)
      requires Valid()
      modifies this`net, this`frames, this`sent
      ensures Valid()
      ensures Abs() == old(Abs()).(
                view := old(Abs()).view.(net := env.net(i, v)),
                frames := if featuresActive then old(frames) + env.heard(i, v) else old(frames),
                sent := old(sent) + env.sent(i, v))
    {
      hide Defenses, Config.Valid;
      if featuresActive { frames := frames + env.heard(i, v); }
      sent := sent + env.sent(i, v);
      net := env.net(i, v);
    }

    /** The simulation between two events. */
    method Simulate(i: nat)
      requires Valid()
      modifies this`net, this`frames, this`sent, defenses`riskyNodes
      ensures Valid() && Abs() == T.Evolve(env, old(Abs()), i)
    {
      hide T.Grown, Defenses, Config.Valid;
      var v := View();
      ghost var was := Abs();
      GrowDefenses(i);
      GrownAbs(was, v);
      MoveOn(i, v);
    }

    /** The event loop: until stopped, take the next pending event. It runs through the firing order. */
    method Run(schedule: seq<Scheduled>, initial: N)
      requires Valid() && IsSchedule(c, schedule) && Abs() == T.Initial(env, c, initial)
      modifies this, defenses
      ensures Valid() && Abs() == T.Final(env, c, initial)
    {
      hide T.Handle, T.Evolve, T.Initial, IsSchedule, PendingFrom, Position, FiringAt, IsEvent, Abs, Config.Valid;
      var total := |schedule|;
      var pending: seq<nat> := seq(total, i => i);
      var step := 0;
      SlotsExist(c);
      AllPending(c, schedule);
      ScheduleLength(c, schedule);
      while pending != [] && !stopped
        invariant Valid() && step + |pending| == total
        invariant PendingFrom(c, schedule, pending, step)
        invariant Abs() == T.StateAt(env, c, initial, step)
      {
        PendingAreScheduled(c, schedule, pending, step);
        var next, rest := RemoveNext(schedule, pending);
        NextFires(c, schedule, pending, step, next);
        ghost var m :| 0 <= m < |pending| && pending[m] == next && rest == pending[..m] + pending[m + 1..];
        PendingShrinks(c, schedule, pending, step, m);
        StoppedIs();
        FiringIsEvent(c, step);
        Simulate(step);
        Fire(schedule[next].event);
        pending := rest;
        step := step + 1;
      }
      StoppedIs();
      if stopped {
        T.StoppedStays(env, c, initial, step, total);
      }
    }

    lemma StoppedIs()
      ensures Abs().stopped == stopped
    {
    }
  }

  lemma SlotsExist(c: Config)
    requires c.Valid()
    ensures c.Slots() > 0
  {
  }

  lemma ScheduleLength(c: Config, schedule: seq<Scheduled>)
    requires IsSchedule(c, schedule)
    ensures |schedule| == 5 * c.Slots() + 6
  {
  }

  lemma PendingAreScheduled(c: Config, schedule: seq<Scheduled>, pending: seq<nat>, i: nat)
    requires PendingFrom(c, schedule, pending, i)
    ensures forall m :: 0 <= m < |pending| ==> pending[m] < |schedule|
  {
  }

  // ---------------------------------------------------------------------------
  // One evaluation run
  // ---------------------------------------------------------------------------

  lemma {:induction false} IdentityCounts(s: seq<int>, x: int)
    requires forall i :: 0 <= i < |s| ==> s[i] == i
    ensures multiset(s)[x] == if 0 <= x < |s| then 1 else 0
    decreases |s|
  {
    if s != [] {
      var t := s[..|s| - 1];
      assert s == t + [s[|s| - 1]];
      IdentityCounts(t, x);
    }
  }

  lemma TwiceCounts(s: seq<int>, i: nat, j: nat)
    requires i < j < |s| && s[i] == s[j]
    ensures multiset(s)[s[i]] >= 2
  {
    var a, b := s[..j], s[j..];
    assert s == a + b && a[i] == s[i] && b[0] == s[j];
    assert s[i] in a && s[j] in b;
  }

  lemma PermutationOfIdentity(s: seq<int>, t: seq<int>)
    requires forall i :: 0 <= i < |s| ==> s[i] == i
    requires multiset(t) == multiset(s)
    ensures forall i :: 0 <= i < |t| ==> 0 <= t[i] < |s|
    ensures forall i, j :: 0 <= i < j < |t| ==> t[i] != t[j]
  {
    forall i | 0 <= i < |t| ensures 0 <= t[i] < |s| {
      assert t[i] in multiset(t);
      IdentityCounts(s, t[i]);
    }
    forall i, j | 0 <= i < j < |t| ensures t[i] != t[j] {
      if t[i] == t[j] {
        TwiceCounts(t, i, j);
        IdentityCounts(s, t[i]);
      }
    }
  }

  function Identity(n: nat): (r: seq<int>)
    ensures |r| == n && forall k :: 0 <= k < n ==> r[k] == k
  {
    seq(n, k => k)
  }

  /** `order` is the canonical order or, randomised, what the generator makes of it. */
  ghost predicate IsSlotOrder(words: nat -> S.word, randomOrder: bool, n: nat, order: seq<int>) {
    if randomOrder then exists to: nat :: S.ShuffledBy(words, 0, to, Identity(n), order) else order == Identity(n)
  }

  /** The scenario of each slot. */
  method SlotOrder(n: nat, randomOrder: bool, words: nat -> S.word) returns (order: seq<nat>)
    requires 0 < n < S.RANGE && S.KeepsReturningLow(words)
    ensures |order| == n
    ensures forall k :: 0 <= k < n ==> order[k] < n
    ensures forall j, k :: 0 <= j < k < n ==> order[j] != order[k]
    ensures IsSlotOrder(words, randomOrder, n, order)
  {
    hide S.ShuffledBy, S.KeepsReturningLow;
    var a := new int[n](k => k);
    ghost var identity := a[..];
    assert identity == Identity(n);
    if randomOrder {
      var rng := new S.WordStream(words);
      S.DeterministicShuffle(a, rng);
      S.ShuffledByIsPermutation(words, 0, rng.next, identity, a[..]);
    }
    PermutationOfIdentity(identity, a[..]);
    order := seq(n, k requires 0 <= k < n reads a => a[k]);
    assert order == a[..];
  }

  lemma CanonicalOrder(words: nat -> S.word, n: nat, order: seq<int>)
    requires IsSlotOrder(words, false, n, order)
    ensures |order| == n && forall k :: 0 <= k < n ==> order[k] == k
  {
  }

  lemma AllCounts(order: seq<int>, x: int)
    requires forall k :: 0 <= k < |order| ==> 0 <= order[k] < |order|
    requires Distinct(order)
    ensures multiset(order)[x] == if 0 <= x < |order| then 1 else 0
  {
    DistinctCounts(order, x);
    if 0 <= x < |order| {
      DistinctIsOnto(order, |order|, x);
    }
  }

  lemma {:induction false} DistinctCounts(s: seq<int>, x: int)
    requires Distinct(s)
    ensures multiset(s)[x] == if x in s then 1 else 0
    decreases |s|
  {
    if s != [] {
      var t := s[..|s| - 1];
      assert s == t + [s[|s| - 1]];
      DistinctCounts(t, x);
    }
  }

  /** Every order of the slots is drawn by equally many of the word vectors that the generator may accept:
      the randomised order prefers none. */
  lemma SlotOrderIsUniform(n: nat, order: seq<int>) returns (ways: set<seq<nat>>)
    requires 0 < n < S.RANGE && |order| == n && Distinct(order)
    requires forall k :: 0 <= k < n ==> 0 <= order[k] < n
    ensures forall w :: w in ways <==> |w| == n - 1 && S.AcceptedVector(w) && S.Shuffled(Identity(n), S.Choices(w)) == order
    ensures |ways| == S.WaysPerOutcome(n - 1)
    ensures forall words, to: nat ::
              S.ShuffledBy(words, 0, to, Identity(n), order) <==> exists w :: w in ways && S.Drawn(words, 0, to, w)
  {
    hide S.Shuffled, S.Choices, S.AcceptedVector, S.Drawn;
    forall x: int ensures multiset(order)[x] == multiset(Identity(n))[x] {
      AllCounts(order, x);
      IdentityCounts(Identity(n), x);
    }
    ways := S.ShuffleIsUniform(Identity(n), order);
    forall words, to: nat
      ensures S.ShuffledBy(words, 0, to, Identity(n), order) <==> exists w :: w in ways && S.Drawn(words, 0, to, w)
    {
      if S.ShuffledBy(words, 0, to, Identity(n), order) {
        var w :| S.ShuffledWith(words, 0, to, Identity(n), order, w);
        assert w in ways && S.Drawn(words, 0, to, w);
      }
      if w :| w in ways && S.Drawn(words, 0, to, w) {
        assert S.ShuffledWith(words, 0, to, Identity(n), order, w);
      }
    }
  }

  /** The order depends on the generator only, and it is shuffled: zeros move slot 0 behind all others. */
  lemma SlotOrderIsReproducible(words: nat -> S.word, randomOrder: bool, n: nat, order: seq<int>, again: seq<int>)
    requires n > 0 && IsSlotOrder(words, randomOrder, n, order) && IsSlotOrder(words, randomOrder, n, again)
    ensures order == again
    ensures randomOrder && (forall k: nat :: words(k) == 0) ==> order == Identity(n)[1..] + [0]
  {
    hide S.ShuffledBy;
    if randomOrder {
      var to: nat :| S.ShuffledBy(words, 0, to, Identity(n), order);
      var upTo: nat :| S.ShuffledBy(words, 0, upTo, Identity(n), again);
      S.ShuffleIsReproducible(words, 0, Identity(n), to, order, upTo, again);
      if forall k: nat :: words(k) == 0 {
        S.ZerosRotate(words, 0, to, Identity(n), order);
      }
    }
  }

  /** A whole run, from the slot order to the promoted rows. */
  method Evaluate<N, P, D, F>(env: T.Env<N, P, D, F>, net: N, scenarios: seq<ScenarioSpec>, randomOrder: bool,
    words: nat -> S.word, nodes: nat, attackers: seq<nat>, spoofCount: nat)
    returns (c: Config, rejected: bool, promoted: T.Staging<P, D, F>)
    requires 0 < |scenarios| < S.RANGE && S.KeepsReturningLow(words)
    requires forall j, k :: 0 <= j < k < |scenarios| ==> scenarios[j].name != scenarios[k].name
    requires !scenarios[0].attack && !scenarios[0].defense
    ensures c.Valid() && c.scenarios == scenarios && c.randomOrder == randomOrder
    ensures IsSlotOrder(words, randomOrder, |scenarios|, c.order)
    ensures rejected
            <==> !(&& env.connected(T.SeenBy(env, c, net, AssertConnectivity).view)
                   && env.routed(T.SeenBy(env, c, net, AssertRouteExists).view))
    ensures rejected ==> promoted == T.Staging([], [], [])
    ensures !rejected ==> T.Staged(env, c, net, promoted, c.Slots())
  {
    hide T.Staged, T.Final, T.SeenBy, T.Initial, IsSchedule, IsEvent, IsSlotOrder, S.KeepsReturningLow;
    var order := SlotOrder(|scenarios|, randomOrder, words);
    if !randomOrder { CanonicalOrder(words, |scenarios|, order); }
    c := Config(scenarios, order, randomOrder, nodes, attackers, spoofCount);
    var defenses: seq<OlsrDefenseGcop> := [];
    for i := 0 to nodes
      invariant |defenses| == i && fresh(defenses)
      invariant forall j :: 0 <= j < i ==> defenses[j].Value() == T.Defense(false, {})
      invariant forall j, k :: 0 <= j < k < i ==> defenses[j] != defenses[k]
    {
      var d := new OlsrDefenseGcop();
      defenses := defenses + [d];
    }
    var h := new Harness(env, c, net, defenses);
    var schedule := ScheduleRun(c);
    h.Run(schedule, net);
    rejected := h.runRejected;
    promoted := if rejected then T.Staging([], [], []) else T.Staging(h.featureRows, h.labelRows, h.oracleRows);
    T.RejectedExactlyByGates(env, c, net);
    if !rejected {
      T.AcceptedRunStagesEverySlot(env, c, net);
    }
  }
}
