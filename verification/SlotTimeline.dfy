/** The slot state machine of an evaluation run: what each event does, and what the staged rows hold. */
module SlotTimeline {
  import opened EventOrder
  import opened Finite

  // ---------------------------------------------------------------------------
  // State
  // ---------------------------------------------------------------------------

  /** A node's defense: whether it is on, and the senders it has flagged. */
  datatype Defense = Defense(enabled: bool, risky: set<nat>)

  /** What the handlers can see of the simulated nodes: the network, and each node's attack and defense. */
  datatype View<!N> = View(net: N, malicious: seq<bool>, spoofed: seq<nat>, defenses: seq<Defense>)

  /** The simulation around the handlers, step `i` of it running before the `i`-th event: how the network
      and each node's flagged senders move on, which frames the listener hears and the nodes send, the
      two acceptance gates, and what the two sampling handlers read off the nodes. */
  datatype Env<!N, !P, !D, !F> = Env(
    net: (nat, View<N>) -> N,
    risky: (nat, nat, N, Defense) -> set<nat>,
    heard: (nat, View<N>) -> seq<F>,
    sent: (nat, View<N>) -> seq<F>,
    connected: View<N> -> bool,
    routed: View<N> -> bool,
    observe: View<N> -> P,
    detect: View<N> -> D,
    noPath: P,
    noDetection: D)

  datatype Window = Window(scenario: string, start: nat, end: nat)

  datatype FeatureRow<F> = FeatureRow(window: Window, frames: seq<F>)
  datatype LabelRow<P> = LabelRow(window: Window, defense: bool, attack: bool, path: P)
  datatype OracleRow<P, D, F> = OracleRow(window: Window, sent: seq<F>, path: P, detection: D)

  datatype Staging<P, D, F> = Staging(
    features: seq<FeatureRow<F>>,
    labels: seq<LabelRow<P>>,
    oracle: seq<OracleRow<P, D, F>>)

  datatype State<!N, !P, !D, !F> = State(
    view: View<N>,
    rejected: bool,
    stopped: bool,
    attackOn: bool,
    defenseOn: bool,
    featuresActive: bool,
    frames: seq<F>,
    sent: seq<F>,
    path: P,
    detection: D,
    staging: Staging<P, D, F>)

  function Initial<N, P, D, F>(env: Env<N, P, D, F>, c: Config, net: N): State<N, P, D, F> {
    State(View(net, seq(c.nodes, _ => false), seq(c.nodes, _ => 0), seq(c.nodes, _ => Defense(false, {}))),
          false, false, false, false, false, [], [], env.noPath, env.noDetection, Staging([], [], []))
  }

  // ---------------------------------------------------------------------------
  // Handlers
  // ---------------------------------------------------------------------------

  /** Only a real change wipes the detection state. */
  function SetEnabled(d: Defense, enabled: bool): Defense {
    if d.enabled == enabled then d else Defense(enabled, {})
  }

  /** Two opposite toggles. */
  function ColdStart(d: Defense): Defense {
    SetEnabled(SetEnabled(d, !d.enabled), d.enabled)
  }

  function SetAttackState<N>(c: Config, v: View<N>, active: bool): View<N> {
    v.(malicious := seq(|v.malicious|, i requires 0 <= i < |v.malicious| => if i in c.attackers then active else v.malicious[i]),
       spoofed := seq(|v.spoofed|, i requires 0 <= i < |v.spoofed| =>
         if i in c.attackers then if active then c.spoofCount else 0 else v.spoofed[i]))
  }

  function SetDefenseState<N>(v: View<N>, active: bool): View<N> {
    v.(defenses := seq(|v.defenses|, i requires 0 <= i < |v.defenses| => SetEnabled(v.defenses[i], active)))
  }

  function ForceDefenseColdStart<N>(v: View<N>): View<N> {
    v.(defenses := seq(|v.defenses|, i requires 0 <= i < |v.defenses| => ColdStart(v.defenses[i])))
  }

  /** Toggles the attack, or the defense, if it is not as wanted. */
  function SwitchAttack<N, P, D, F>(c: Config, s: State<N, P, D, F>, active: bool): State<N, P, D, F> {
    if active != s.attackOn then s.(view := SetAttackState(c, s.view, active), attackOn := active) else s
  }

  function SwitchDefense<N, P, D, F>(s: State<N, P, D, F>, active: bool): State<N, P, D, F> {
    if active != s.defenseOn then s.(view := SetDefenseState(s.view, active), defenseOn := active) else s
  }

  /** Toggles what the scenario changes, then cold-starts every defense. */
  function ApplyScenario<N, P, D, F>(c: Config, s: State<N, P, D, F>, k: nat): State<N, P, D, F>
    requires c.Valid() && k < c.Slots()
  {
    if s.rejected then s else
      var switched := SwitchDefense(SwitchAttack(c, s, c.Scenario(k).attack), c.Scenario(k).defense);
      switched.(view := ForceDefenseColdStart(switched.view))
  }

  function Gate<N, P, D, F>(s: State<N, P, D, F>, passed: bool): State<N, P, D, F> {
    if s.rejected || passed then s else s.(rejected := true, stopped := true)
  }

  function StartWindow<N, P, D, F>(s: State<N, P, D, F>): State<N, P, D, F> {
    if s.rejected then s else s.(featuresActive := true, frames := [], sent := [])
  }

  /** The labels of a scenario, looked up by name. */
  function LabelsOf(scenarios: seq<ScenarioSpec>, name: string): (bool, bool) {
    if scenarios == [] then (false, false)
    else if scenarios[0].name == name then (scenarios[0].attack, scenarios[0].defense)
    else LabelsOf(scenarios[1..], name)
  }

  function EndWindow<N, P, D, F>(c: Config, s: State<N, P, D, F>, w: Window): State<N, P, D, F> {
    if s.rejected then s else
      var (attack, defense) := LabelsOf(c.scenarios, w.scenario);
      s.(featuresActive := false,
         staging := Staging(s.staging.features + [FeatureRow(w, s.frames)],
                            s.staging.labels + [LabelRow(w, defense, attack, s.path)],
                            s.staging.oracle + [OracleRow(w, s.sent, s.path, s.detection)]))
  }

  function WindowOf(c: Config, k: nat): Window
    requires c.Valid() && k < c.Slots()
  {
    Window(c.Scenario(k).name, c.WindowStart(k), c.WindowEnd(k))
  }

  function Handle<N, P, D, F>(env: Env<N, P, D, F>, c: Config, s: State<N, P, D, F>, e: Event): State<N, P, D, F>
    requires c.Valid() && IsEvent(c, e)
  {
    match e
    case ObservePath(_) => s.(path := env.observe(s.view))
    case SampleDetection(_) => s.(detection := if s.rejected then env.noDetection else env.detect(s.view))
    case AssertConnectivity => Gate(s, env.connected(s.view))
    case AssertRouteExists => Gate(s, env.routed(s.view))
    case Transition(k) => ApplyScenario(c, s, k)
    case StartSlot(_) => StartWindow(s)
    case EndSlot(k) => EndWindow(c, s, WindowOf(c, k))
    case Stop => s.(stopped := true)
    case _ => s
  }

  /** One step of the simulation: the flagged senders change, whether a defense is on does not. */
  function Evolve<N, P, D, F>(env: Env<N, P, D, F>, s: State<N, P, D, F>, i: nat): State<N, P, D, F> {
    s.(view := s.view.(net := env.net(i, s.view), defenses := Grown(env, i, s.view)),
       frames := if s.featuresActive then s.frames + env.heard(i, s.view) else s.frames,
       sent := s.sent + env.sent(i, s.view))
  }

  function Grown<N, P, D, F>(env: Env<N, P, D, F>, i: nat, v: View<N>): (r: seq<Defense>)
    ensures |r| == |v.defenses|
    ensures forall n :: 0 <= n < |r| ==> r[n] == Grow(env, i, n, v.net, v.defenses[n])
  {
    seq(|v.defenses|, n requires 0 <= n < |v.defenses| => Grow(env, i, n, v.net, v.defenses[n]))
  }

  function Grow<N, P, D, F>(env: Env<N, P, D, F>, i: nat, n: nat, net: N, d: Defense): Defense {
    d.(risky := env.risky(i, n, net, d))
  }

  // ---------------------------------------------------------------------------
  // Runs
  // ---------------------------------------------------------------------------

  /** The state after `i` events. */
  function StateAt<N, P, D, F>(env: Env<N, P, D, F>, c: Config, net: N, i: nat): State<N, P, D, F>
    requires c.Valid() && i <= 5 * c.Slots() + 6
  {
    if i == 0 then Initial(env, c, net) else
      var s := StateAt(env, c, net, i - 1);
      FiringIsEvent(c, i - 1);
      if s.stopped then s else Handle(env, c, Evolve(env, s, i - 1), FiringAt(c, i - 1))
  }

  /** The state in which event `e` is handled. */
  function SeenBy<N, P, D, F>(env: Env<N, P, D, F>, c: Config, net: N, e: Event): State<N, P, D, F>
    requires c.Valid() && IsEvent(c, e)
  {
    Evolve(env, StateAt(env, c, net, Position(c, e)), Position(c, e))
  }

  function Final<N, P, D, F>(env: Env<N, P, D, F>, c: Config, net: N): State<N, P, D, F>
    requires c.Valid()
  {
    StateAt(env, c, net, 5 * c.Slots() + 6)
  }

  lemma StepOf<N, P, D, F>(env: Env<N, P, D, F>, c: Config, net: N, e: Event)
    requires c.Valid() && IsEvent(c, e)
    ensures var s := StateAt(env, c, net, Position(c, e));
            StateAt(env, c, net, Position(c, e) + 1)
            == if s.stopped then s else Handle(env, c, SeenBy(env, c, net, e), e)
  {
    hide Handle, Evolve, Position, FiringAt, IsEvent;
    FiresAtPosition(c, e);
  }

  /** A state that is not stopped comes from the handled event. */
  lemma StepAt<N, P, D, F>(env: Env<N, P, D, F>, c: Config, net: N, i: nat) returns (e: Event)
    requires c.Valid() && i < 5 * c.Slots() + 6
    ensures IsEvent(c, e) && Position(c, e) == i && e == FiringAt(c, i)
    ensures var s := StateAt(env, c, net, i);
            StateAt(env, c, net, i + 1) == if s.stopped then s else Handle(env, c, Evolve(env, s, i), e)
  {
    hide Handle, Evolve, Position, FiringAt, IsEvent;
    e := FiringAt(c, i);
    FiringIsEvent(c, i);
  }

  // ---------------------------------------------------------------------------
  // Invariants of every run
  // ---------------------------------------------------------------------------

  ghost predicate Sized<N>(c: Config, v: View<N>) {
    |v.malicious| == c.nodes && |v.spoofed| == c.nodes && |v.defenses| == c.nodes
  }

  /** The two switches say what the nodes are in. */
  ghost predicate NodesMatch<N>(c: Config, v: View<N>, attackOn: bool, defenseOn: bool) {
    && Sized(c, v)
    && (forall n :: 0 <= n < c.nodes ==> v.defenses[n].enabled == defenseOn)
    && (forall n :: 0 <= n < c.nodes ==>
          v.malicious[n] == (attackOn && n in c.attackers)
          && v.spoofed[n] == if attackOn && n in c.attackers then c.spoofCount else 0)
  }

  ghost predicate Inv<N, P, D, F>(c: Config, s: State<N, P, D, F>) {
    && NodesMatch(c, s.view, s.attackOn, s.defenseOn)
    && (s.rejected ==> s.stopped)
  }

  lemma ColdStartIsFresh(d: Defense)
    ensures ColdStart(d) == Defense(d.enabled, {})
  {
  }

  lemma AttackSwitched<N, P, D, F>(c: Config, s: State<N, P, D, F>, active: bool)
    requires NodesMatch(c, s.view, s.attackOn, s.defenseOn)
    ensures var r := SwitchAttack(c, s, active);
            && r.attackOn == active && NodesMatch(c, r.view, active, s.defenseOn)
            && r == s.(view := r.view, attackOn := active) && r.view.net == s.view.net
  {
  }

  lemma DefenseSwitched<N, P, D, F>(c: Config, s: State<N, P, D, F>, active: bool)
    requires NodesMatch(c, s.view, s.attackOn, s.defenseOn)
    ensures var r := SwitchDefense(s, active);
            && r.defenseOn == active && NodesMatch(c, r.view, s.attackOn, active)
            && r == s.(view := r.view, defenseOn := active) && r.view.net == s.view.net
  {
  }

  lemma ColdStarted<N>(c: Config, v: View<N>, attackOn: bool, defenseOn: bool)
    requires NodesMatch(c, v, attackOn, defenseOn)
    ensures var r := ForceDefenseColdStart(v);
            && NodesMatch(c, r, attackOn, defenseOn) && r.net == v.net
            && forall n :: 0 <= n < c.nodes ==> r.defenses[n] == Defense(defenseOn, {})
  {
    hide ColdStart;
    forall d: Defense ensures ColdStart(d) == Defense(d.enabled, {}) { ColdStartIsFresh(d); }
  }

  lemma MatchIsSized<N>(c: Config, v: View<N>, attackOn: bool, defenseOn: bool)
    requires NodesMatch(c, v, attackOn, defenseOn)
    ensures |v.defenses| == c.nodes
  {
  }

  /** A transition leaves every node in its scenario's state, with nothing flagged, whatever it was in. */
  lemma TransitionIsFresh<N, P, D, F>(c: Config, s: State<N, P, D, F>, k: nat)
    requires c.Valid() && k < c.Slots() && NodesMatch(c, s.view, s.attackOn, s.defenseOn) && !s.rejected
    ensures var r := ApplyScenario(c, s, k);
            && r.attackOn == c.Scenario(k).attack && r.defenseOn == c.Scenario(k).defense
            && NodesMatch(c, r.view, c.Scenario(k).attack, c.Scenario(k).defense)
            && (forall n :: 0 <= n < c.nodes ==> r.view.defenses[n] == Defense(c.Scenario(k).defense, {}))
            && r == s.(view := r.view, attackOn := r.attackOn, defenseOn := r.defenseOn)
            && r.view.net == s.view.net
  {
    hide Config.Scenario, Config.Valid, SwitchAttack, SwitchDefense, ForceDefenseColdStart, NodesMatch;
    var attacked := SwitchAttack(c, s, c.Scenario(k).attack);
    AttackSwitched(c, s, c.Scenario(k).attack);
    DefenseSwitched(c, attacked, c.Scenario(k).defense);
    var switched := SwitchDefense(attacked, c.Scenario(k).defense);
    ColdStarted(c, switched.view, c.Scenario(k).attack, c.Scenario(k).defense);
    MatchIsSized(c, ForceDefenseColdStart(switched.view), c.Scenario(k).attack, c.Scenario(k).defense);
  }

  lemma EvolveKeeps<N, P, D, F>(env: Env<N, P, D, F>, c: Config, s: State<N, P, D, F>, i: nat)
    requires Inv(c, s)
    ensures var r := Evolve(env, s, i);
            Inv(c, r) && r == s.(view := r.view, frames := r.frames, sent := r.sent)
            && r.view == s.view.(net := r.view.net, defenses := r.view.defenses)
  {
  }

  lemma HandleKeepsInv<N, P, D, F>(env: Env<N, P, D, F>, c: Config, s: State<N, P, D, F>, e: Event)
    requires c.Valid() && IsEvent(c, e) && Inv(c, s)
    ensures Inv(c, Handle(env, c, s, e))
  {
    hide NodesMatch, ApplyScenario, Config.Scenario, Config.Valid, EndWindow, WindowOf;
    match e {
      case Transition(k) => if s.rejected { RejectedIgnores(c, s, k); } else { TransitionIsFresh(c, s, k); }
      case EndSlot(k) => EndWindowKeeps(c, s, WindowOf(c, k));
      case _ =>
    }
  }

  lemma RejectedIgnores<N, P, D, F>(c: Config, s: State<N, P, D, F>, k: nat)
    requires c.Valid() && k < c.Slots() && s.rejected
    ensures ApplyScenario(c, s, k) == s
  {
    hide Config.Scenario, Config.Valid;
  }

  lemma EndWindowKeeps<N, P, D, F>(c: Config, s: State<N, P, D, F>, w: Window)
    ensures var r := EndWindow(c, s, w); r == s.(featuresActive := r.featuresActive, staging := r.staging)
  {
    hide LabelsOf;
  }

  lemma {:induction false} InvAt<N, P, D, F>(env: Env<N, P, D, F>, c: Config, net: N, i: nat)
    requires c.Valid() && i <= 5 * c.Slots() + 6
    ensures Inv(c, StateAt(env, c, net, i))
    decreases i
  {
    hide NodesMatch, Handle, Evolve, FiringAt, IsEvent, Config.Valid;
    if i == 0 {
      InitialMatches(env, c, net);
    } else {
      InvAt(env, c, net, i - 1);
      var e := StepAt(env, c, net, i - 1);
      var s := StateAt(env, c, net, i - 1);
      EvolveKeeps(env, c, s, i - 1);
      HandleKeepsInv(env, c, Evolve(env, s, i - 1), e);
    }
  }

  lemma InitialMatches<N, P, D, F>(env: Env<N, P, D, F>, c: Config, net: N)
    ensures Inv(c, Initial(env, c, net))
  {
  }

  /** A run that is not rejected was never rejected before, and only the last event stops it. */
  lemma {:induction false} NotRejectedBefore<N, P, D, F>(env: Env<N, P, D, F>, c: Config, net: N, i: nat, j: nat)
    requires c.Valid() && j <= i <= 5 * c.Slots() + 6 && !StateAt(env, c, net, i).rejected
    ensures !StateAt(env, c, net, j).rejected
    ensures j < 5 * c.Slots() + 6 ==> !StateAt(env, c, net, j).stopped
    decreases i - j, 1
  {
    hide Handle, Evolve, FiringAt, IsEvent, Config.Valid, Position, ApplyScenario, EndWindow;
    if j < i {
      NotRejectedBefore(env, c, net, i, j + 1);
      var e := StepAt(env, c, net, j);
      var s := StateAt(env, c, net, j);
      if s.stopped { StopsOnlyRejected(env, c, net, j); } else {
        RejectionStays(env, c, Evolve(env, s, j), e);
        EvolveKeepsFlags(env, s, j);
      }
    } else if j < 5 * c.Slots() + 6 {
      StopsOnlyRejected(env, c, net, j);
    }
  }

  lemma EvolveKeepsFlags<N, P, D, F>(env: Env<N, P, D, F>, s: State<N, P, D, F>, i: nat)
    ensures var r := Evolve(env, s, i);
            r == s.(view := r.view, frames := r.frames, sent := r.sent)
            && r.view == s.view.(net := r.view.net, defenses := r.view.defenses)
  {
  }

  lemma RejectionStays<N, P, D, F>(env: Env<N, P, D, F>, c: Config, s: State<N, P, D, F>, e: Event)
    requires c.Valid() && IsEvent(c, e)
    ensures s.rejected ==> Handle(env, c, s, e).rejected
    ensures e != Stop && !s.stopped && !Handle(env, c, s, e).rejected ==> !Handle(env, c, s, e).stopped
  {
    hide Config.Scenario, Config.Valid, EndWindow, WindowOf, SetAttackState, SetDefenseState, ForceDefenseColdStart;
    match e {
      case EndSlot(k) => EndWindowKeeps(c, s, WindowOf(c, k));
      case _ =>
    }
  }

  lemma {:induction false} StopsOnlyRejected<N, P, D, F>(env: Env<N, P, D, F>, c: Config, net: N, i: nat)
    requires c.Valid() && i < 5 * c.Slots() + 6
    ensures StateAt(env, c, net, i).stopped ==> StateAt(env, c, net, i).rejected
    decreases i, 0
  {
    hide Handle, Evolve, FiringAt, IsEvent, Config.Valid;
    if i > 0 {
      StopsOnlyRejected(env, c, net, i - 1);
      var e := StepAt(env, c, net, i - 1);
      var s := StateAt(env, c, net, i - 1);
      EvolveKeepsFlags(env, s, i - 1);
      RejectionStays(env, c, Evolve(env, s, i - 1), e);
    }
  }

  // ---------------------------------------------------------------------------
  // The state of a slot
  // ---------------------------------------------------------------------------

  /** The states from slot `k`'s transition to the next one's. */
  ghost predicate InSlot(c: Config, k: nat, i: nat) {
    && k < c.Slots() && i <= 5 * c.Slots() + 6
    && Position(c, Transition(k)) < i && (k + 1 < c.Slots() ==> i <= Position(c, Transition(k + 1)))
  }

  lemma NoOtherTransition(c: Config, k: nat, j: nat, i: nat)
    requires c.Valid() && InSlot(c, k, i) && InSlot(c, k, i + 1) && j < c.Slots()
    ensures Position(c, Transition(j)) != i
  {
  }

  /** Everything but a transition leaves the nodes and the switches as they are. */
  lemma HandleKeepsNodes<N, P, D, F>(env: Env<N, P, D, F>, c: Config, s: State<N, P, D, F>, e: Event)
    requires c.Valid() && IsEvent(c, e) && !e.Transition?
    ensures var r := Handle(env, c, s, e);
            r.view == s.view && r.attackOn == s.attackOn && r.defenseOn == s.defenseOn
  {
    hide Config.Valid, EndWindow, WindowOf;
    match e {
      case EndSlot(k) => EndWindowKeeps(c, s, WindowOf(c, k));
      case _ =>
    }
  }

  /** What node `n`'s defense has become from `d` by the steps `lo` up to `hi` alone. */
  ghost function GrownFrom<N, P, D, F>(env: Env<N, P, D, F>, c: Config, net: N, lo: nat, hi: nat, n: nat, d: Defense): Defense
    requires c.Valid() && lo <= hi <= 5 * c.Slots() + 6
    decreases hi
  {
    if lo == hi then d
    else Grow(env, hi - 1, n, StateAt(env, c, net, hi - 1).view.net, GrownFrom(env, c, net, lo, hi - 1, n, d))
  }

  /** No carry-over: throughout a slot the attack and defense are its scenario's, and every node's defense
      state is what the steps since the slot's own transition made of a fresh one. */
  lemma {:induction false} NoCarryOver<N, P, D, F>(env: Env<N, P, D, F>, c: Config, net: N, k: nat, i: nat)
    requires c.Valid() && InSlot(c, k, i) && !StateAt(env, c, net, i).rejected
    ensures var s := StateAt(env, c, net, i);
            && s.attackOn == c.Scenario(k).attack && s.defenseOn == c.Scenario(k).defense
            && NodesMatch(c, s.view, c.Scenario(k).attack, c.Scenario(k).defense)
            && forall n :: 0 <= n < c.nodes ==>
                 s.view.defenses[n]
                 == GrownFrom(env, c, net, Position(c, Transition(k)) + 1, i, n, Defense(c.Scenario(k).defense, {}))
    decreases i
  {
    hide NodesMatch, Handle, Evolve, FiringAt, Config.Valid, Position, Config.Scenario, Grow;
    var t := Position(c, Transition(k));
    NotRejectedBefore(env, c, net, i, i - 1);
    InvAt(env, c, net, i - 1);
    InvAt(env, c, net, i);
    var s := StateAt(env, c, net, i - 1);
    EvolveKeeps(env, c, s, i - 1);
    var seen := Evolve(env, s, i - 1);
    if i == t + 1 {
      StepOf(env, c, net, Transition(k));
      TransitionHandled(env, c, seen, k);
      TransitionIsFresh(c, seen, k);
    } else {
      var e := StepAt(env, c, net, i - 1);
      NoCarryOver(env, c, net, k, i - 1);
      if e.Transition? { NoOtherTransition(c, k, e.slot, i - 1); }
      HandleKeepsNodes(env, c, seen, e);
      EvolvedDefenses(env, c, s, i - 1);
    }
  }

  lemma TransitionHandled<N, P, D, F>(env: Env<N, P, D, F>, c: Config, s: State<N, P, D, F>, k: nat)
    requires c.Valid() && k < c.Slots()
    ensures Handle(env, c, s, Transition(k)) == ApplyScenario(c, s, k)
  {
  }

  lemma EvolvedDefenses<N, P, D, F>(env: Env<N, P, D, F>, c: Config, s: State<N, P, D, F>, i: nat)
    requires Inv(c, s)
    ensures var r := Evolve(env, s, i);
            |r.view.defenses| == c.nodes
            && forall n :: 0 <= n < c.nodes ==>
                 r.view.defenses[n] == Grow(env, i, n, s.view.net, s.view.defenses[n])
  {
    hide Grow;
  }

  /** The same step of two runs changes node `n`'s defense alike. */
  ghost predicate SameStep<N, M, P, D, F>(env: Env<N, P, D, F>, c: Config, net: N, env': Env<M, P, D, F>, c': Config, net': M, j: nat, n: nat)
    requires c.Valid() && c'.Valid() && j <= 5 * c.Slots() + 6 && j <= 5 * c'.Slots() + 6
  {
    forall d :: Grow(env, j, n, StateAt(env, c, net, j).view.net, d) == Grow(env', j, n, StateAt(env', c', net', j).view.net, d)
  }

  lemma {:induction false} SameGrowth<N, M, P, D, F>(env: Env<N, P, D, F>, c: Config, net: N, env': Env<M, P, D, F>, c': Config, net': M,
    lo: nat, hi: nat, n: nat, d: Defense)
    requires c.Valid() && c'.Valid() && lo <= hi <= 5 * c.Slots() + 6 && hi <= 5 * c'.Slots() + 6
    requires forall j :: lo <= j < hi ==> SameStep(env, c, net, env', c', net', j, n)
    ensures GrownFrom(env, c, net, lo, hi, n, d) == GrownFrom(env', c', net', lo, hi, n, d)
    decreases hi
  {
    hide StateAt, Grow, Config.Valid;
    if lo < hi {
      SameGrowth(env, c, net, env', c', net', lo, hi - 1, n, d);
      assert SameStep(env, c, net, env', c', net', hi - 1, n);
    }
  }

  /** Two runs whatever came before in either, in any scenario orders: if slot `k` runs scenarios with the
      same defense switch and the steps since its transition act alike, the defense states agree. */
  lemma HistoryIsForgotten<N, M, P, D, F>(env: Env<N, P, D, F>, c: Config, net: N, env': Env<M, P, D, F>, c': Config, net': M, k: nat, i: nat)
    requires c.Valid() && c'.Valid() && InSlot(c, k, i) && InSlot(c', k, i)
    requires Position(c, Transition(k)) == Position(c', Transition(k)) && c.nodes == c'.nodes
    requires c.Scenario(k).defense == c'.Scenario(k).defense
    requires !StateAt(env, c, net, i).rejected && !StateAt(env', c', net', i).rejected
    requires forall j, n :: Position(c, Transition(k)) < j < i && 0 <= n < c.nodes ==> SameStep(env, c, net, env', c', net', j, n)
    ensures StateAt(env, c, net, i).view.defenses == StateAt(env', c', net', i).view.defenses
  {
    hide StateAt, Grow, Config.Valid, Config.Scenario, Position, GrownFrom, SameStep;
    NoCarryOver(env, c, net, k, i);
    NoCarryOver(env', c', net', k, i);
    var t := Position(c, Transition(k));
    forall n | 0 <= n < c.nodes
      ensures StateAt(env, c, net, i).view.defenses[n] == StateAt(env', c', net', i).view.defenses[n]
    {
      SameGrowth(env, c, net, env', c', net', t + 1, i, n, Defense(c.Scenario(k).defense, {}));
    }
  }

  // ---------------------------------------------------------------------------
  // The acceptance gates
  // ---------------------------------------------------------------------------

  predicate IsGate(e: Event) {
    e == AssertConnectivity || e == AssertRouteExists
  }

  lemma BeforeFirstTransition(c: Config, e: Event)
    requires c.Valid() && IsEvent(c, e) && Position(c, e) < Position(c, Transition(0))
    ensures !e.Transition?
  {
  }

  lemma {:induction false} NeutralPrologue<N, P, D, F>(env: Env<N, P, D, F>, c: Config, net: N, i: nat)
    requires c.Valid() && i <= Position(c, Transition(0))
    ensures var s := StateAt(env, c, net, i); !s.attackOn && !s.defenseOn
    decreases i
  {
    hide Handle, Evolve, FiringAt, Config.Valid;
    if i > 0 {
      NeutralPrologue(env, c, net, i - 1);
      var e := StepAt(env, c, net, i - 1);
      var s := StateAt(env, c, net, i - 1);
      BeforeFirstTransition(c, e);
      EvolveKeepsFlags(env, s, i - 1);
      HandleKeepsNodes(env, c, Evolve(env, s, i - 1), e);
    }
  }

  lemma GatesInNeutralSlot(c: Config, e: Event)
    requires c.Valid() && IsGate(e)
    ensures if c.randomOrder then Position(c, e) <= Position(c, Transition(0))
            else InSlot(c, 0, Position(c, e)) && !c.Scenario(0).attack && !c.Scenario(0).defense
  {
  }

  /** Whatever the window order, the gates run with every attacker and every defense off. */
  lemma GatesRunNeutral<N, P, D, F>(env: Env<N, P, D, F>, c: Config, net: N, gate: Event)
    requires c.Valid() && IsGate(gate) && !StateAt(env, c, net, Position(c, gate)).rejected
    ensures TimeOf(c, gate) == 60000
    ensures NodesMatch(c, SeenBy(env, c, net, gate).view, false, false)
  {
    hide StateAt, Evolve, Config.Scenario, Position, NodesMatch;
    var i := Position(c, gate);
    GatesInNeutralSlot(c, gate);
    InvAt(env, c, net, i);
    if c.randomOrder {
      NeutralPrologue(env, c, net, i);
    } else {
      NoCarryOver(env, c, net, 0, i);
    }
    EvolveKeeps(env, c, StateAt(env, c, net, i), i);
  }

  lemma OnlyGatesReject<N, P, D, F>(env: Env<N, P, D, F>, c: Config, s: State<N, P, D, F>, e: Event)
    requires c.Valid() && IsEvent(c, e) && !IsGate(e)
    ensures Handle(env, c, s, e).rejected == s.rejected
  {
    hide Config.Valid, EndWindow, WindowOf, SetAttackState, SetDefenseState, ForceDefenseColdStart, Config.Scenario;
    match e {
      case EndSlot(k) => EndWindowKeeps(c, s, WindowOf(c, k));
      case _ =>
    }
  }

  /** Rejection is not changed by the events from `i` to `j` when no gate is among them. */
  lemma {:induction false} RejectionFixed<N, P, D, F>(env: Env<N, P, D, F>, c: Config, net: N, i: nat, j: nat)
    requires c.Valid() && i <= j <= 5 * c.Slots() + 6
    requires forall e :: IsGate(e) ==> Position(c, e) < i || j <= Position(c, e)
    ensures StateAt(env, c, net, i).rejected == StateAt(env, c, net, j).rejected
    decreases j
  {
    hide Handle, Evolve, FiringAt, IsEvent, Config.Valid, Position;
    if i < j {
      RejectionFixed(env, c, net, i, j - 1);
      var e := StepAt(env, c, net, j - 1);
      var s := StateAt(env, c, net, j - 1);
      EvolveKeepsFlags(env, s, j - 1);
      OnlyGatesReject(env, c, Evolve(env, s, j - 1), e);
    }
  }

  lemma GatePositions(c: Config)
    requires c.Valid()
    ensures Position(c, AssertConnectivity) + 1 == Position(c, AssertRouteExists) < 4
  {
  }

  /** A run is rejected exactly when one of the two gates fails on what it sees. */
  lemma RejectedExactlyByGates<N, P, D, F>(env: Env<N, P, D, F>, c: Config, net: N)
    requires c.Valid()
    ensures Final(env, c, net).rejected
            <==> !(&& env.connected(SeenBy(env, c, net, AssertConnectivity).view)
                   && env.routed(SeenBy(env, c, net, AssertRouteExists).view))
    ensures Final(env, c, net).rejected == StateAt(env, c, net, 5).rejected
  {
    hide StateAt, Evolve, Position;
    var i := Position(c, AssertConnectivity);
    GatePositions(c);
    RejectionFixed(env, c, net, 0, i);
    InitialState(env, c, net);
    RejectionFixed(env, c, net, i + 2, 5);
    RejectionFixed(env, c, net, 5, 5 * c.Slots() + 6);
    GateStep(env, c, net, AssertConnectivity);
    GateStep(env, c, net, AssertRouteExists);
  }

  lemma InitialState<N, P, D, F>(env: Env<N, P, D, F>, c: Config, net: N)
    requires c.Valid()
    ensures !StateAt(env, c, net, 0).rejected && StateAt(env, c, net, 0).staging == Staging([], [], [])
  {
  }

  lemma GateStep<N, P, D, F>(env: Env<N, P, D, F>, c: Config, net: N, gate: Event)
    requires c.Valid() && IsGate(gate)
    ensures var i := Position(c, gate); var seen := SeenBy(env, c, net, gate);
            StateAt(env, c, net, i + 1).rejected
            <==> StateAt(env, c, net, i).rejected
                 || !(if gate == AssertConnectivity then env.connected(seen.view) else env.routed(seen.view))
  {
    hide StateAt, Evolve, Position;
    var i := Position(c, gate);
    GatePositions(c);
    StepOf(env, c, net, gate);
    StopsOnlyRejected(env, c, net, i);
    EvolveKeepsFlags(env, StateAt(env, c, net, i), i);
  }

  lemma {:induction false} StoppedStays<N, P, D, F>(env: Env<N, P, D, F>, c: Config, net: N, i: nat, j: nat)
    requires c.Valid() && i <= j <= 5 * c.Slots() + 6 && StateAt(env, c, net, i).stopped
    ensures StateAt(env, c, net, j) == StateAt(env, c, net, i)
    decreases j
  {
    hide Handle, Evolve, FiringAt, IsEvent, Config.Valid;
    if i < j {
      StoppedStays(env, c, net, i, j - 1);
    }
  }

  lemma ScenarioKeepsRest<N, P, D, F>(c: Config, s: State<N, P, D, F>, k: nat)
    requires c.Valid() && k < c.Slots()
    ensures var r := ApplyScenario(c, s, k);
            && r == s.(view := r.view, attackOn := r.attackOn, defenseOn := r.defenseOn)
            && (s.rejected ==> r == s)
  {
    hide Config.Valid, SwitchAttack, SwitchDefense, ForceDefenseColdStart, Config.Scenario;
    if !s.rejected {
      var sc := c.Scenario(k);
      AttackKeepsRest(c, s, sc.attack);
      DefenseKeepsRest(SwitchAttack(c, s, sc.attack), sc.defense);
    }
  }

  lemma AttackKeepsRest<N, P, D, F>(c: Config, s: State<N, P, D, F>, active: bool)
    ensures SwitchAttack(c, s, active) == s.(view := SwitchAttack(c, s, active).view, attackOn := active)
  {
    hide SetAttackState;
  }

  lemma DefenseKeepsRest<N, P, D, F>(s: State<N, P, D, F>, active: bool)
    ensures SwitchDefense(s, active) == s.(view := SwitchDefense(s, active).view, defenseOn := active)
  {
    hide SetDefenseState;
  }

  /** What a handler leaves alone. */
  lemma HandleKeepsRest<N, P, D, F>(env: Env<N, P, D, F>, c: Config, s: State<N, P, D, F>, e: Event)
    requires c.Valid() && IsEvent(c, e)
    ensures var r := Handle(env, c, s, e);
            && (!e.ObservePath? ==> r.path == s.path)
            && (!e.SampleDetection? ==> r.detection == s.detection)
            && (!e.StartSlot? && !e.EndSlot? ==>
                  r.featuresActive == s.featuresActive && r.frames == s.frames && r.sent == s.sent)
            && (!e.EndSlot? ==> r.staging == s.staging)
            && (s.rejected ==> r.staging == s.staging && r.view == s.view)
            && (s.rejected ==> r.featuresActive == s.featuresActive && r.frames == s.frames && r.sent == s.sent)
            && (s.rejected && e.SampleDetection? ==> r.detection == env.noDetection)
  {
    hide Config.Valid, LabelsOf, WindowOf, ApplyScenario;
    match e {
      case Transition(k) => ScenarioKeepsRest(c, s, k);
      case _ =>
    }
  }

  lemma {:induction false} NothingStagedBefore<N, P, D, F>(env: Env<N, P, D, F>, c: Config, net: N, i: nat)
    requires c.Valid() && i <= 5
    ensures StateAt(env, c, net, i).staging == Staging([], [], [])
    decreases i
  {
    hide Handle, Evolve, FiringAt, Config.Valid;
    if i == 0 {
      InitialState(env, c, net);
    } else {
      NothingStagedBefore(env, c, net, i - 1);
      var e := StepAt(env, c, net, i - 1);
      var s := StateAt(env, c, net, i - 1);
      EvolveKeepsFlags(env, s, i - 1);
      HandleKeepsRest(env, c, Evolve(env, s, i - 1), e);
    }
  }

  /** What a finished run appends to its tables. */
  function Promoted<N, P, D, F>(s: State<N, P, D, F>): Staging<P, D, F> {
    if s.rejected then Staging([], [], []) else s.staging
  }

  /** A rejected run stages nothing, and so promotes nothing. */
  lemma RejectedRunStagesNothing<N, P, D, F>(env: Env<N, P, D, F>, c: Config, net: N)
    requires c.Valid() && Final(env, c, net).rejected
    ensures Final(env, c, net).staging == Staging([], [], []) == Promoted(Final(env, c, net))
  {
    hide StateAt, Config.Valid;
    RejectedExactlyByGates(env, c, net);
    NothingStagedBefore(env, c, net, 5);
    InvAt(env, c, net, 5);
    StoppedStays(env, c, net, 5, 5 * c.Slots() + 6);
  }

  // ---------------------------------------------------------------------------
  // The rows of a slot
  // ---------------------------------------------------------------------------

  /** When a slot's events fire: its samples between its transition and the next, whose instant is also
      that of the slot's end, which fires after it. */
  lemma SamplesFireInsideTheSlot(c: Config, k: nat)
    requires c.Valid() && k < c.Slots()
    ensures Position(c, Transition(k)) < Position(c, StartSlot(k)) < Position(c, ObservePath(k))
    ensures Position(c, ObservePath(k)) < Position(c, SampleDetection(k)) < Position(c, EndSlot(k))
    ensures k + 1 < c.Slots() ==>
              && Position(c, SampleDetection(k)) < Position(c, Transition(k + 1)) < Position(c, EndSlot(k))
              && TimeOf(c, Transition(k + 1)) == TimeOf(c, EndSlot(k))
              && TimeOf(c, SampleDetection(k)) < TimeOf(c, EndSlot(k))
  {
  }

  lemma OneWindowAtATime(c: Config, k: nat, i: nat, e: Event)
    requires c.Valid() && k < c.Slots() && IsEvent(c, e) && Position(c, e) == i
    requires Position(c, StartSlot(k)) <= i < Position(c, EndSlot(k))
    ensures !e.EndSlot?
    ensures Position(c, StartSlot(k)) < i ==> !e.StartSlot?
    ensures Position(c, ObservePath(k)) < i ==> !e.ObservePath?
    ensures Position(c, SampleDetection(k)) < i ==> !e.SampleDetection?
  {
  }

  /** The frames heard, and the frames sent, in the steps `lo` up to `hi`. */
  ghost function Heard<N, P, D, F>(env: Env<N, P, D, F>, c: Config, net: N, lo: nat, hi: nat): seq<F>
    requires c.Valid() && lo <= hi <= 5 * c.Slots() + 6
    decreases hi
  {
    if lo == hi then [] else
      Heard(env, c, net, lo, hi - 1) + env.heard(hi - 1, StateAt(env, c, net, hi - 1).view)
  }

  ghost function Sent<N, P, D, F>(env: Env<N, P, D, F>, c: Config, net: N, lo: nat, hi: nat): seq<F>
    requires c.Valid() && lo <= hi <= 5 * c.Slots() + 6
    decreases hi
  {
    if lo == hi then [] else
      Sent(env, c, net, lo, hi - 1) + env.sent(hi - 1, StateAt(env, c, net, hi - 1).view)
  }

  /** The state inside slot `k`'s window after `i` events. */
  ghost predicate InWindow<N, P, D, F>(env: Env<N, P, D, F>, c: Config, net: N, k: nat, i: nat)
    requires c.Valid() && k < c.Slots() && i <= 5 * c.Slots() + 6
    requires Position(c, StartSlot(k)) < i
  {
    var s := StateAt(env, c, net, i);
    var lo := Position(c, StartSlot(k)) + 1;
    && s.featuresActive && s.frames == Heard(env, c, net, lo, i) && s.sent == Sent(env, c, net, lo, i)
    && (Position(c, ObservePath(k)) < i ==> s.path == env.observe(SeenBy(env, c, net, ObservePath(k)).view))
    && (Position(c, SampleDetection(k)) < i ==>
          s.detection == env.detect(SeenBy(env, c, net, SampleDetection(k)).view))
    && s.staging == StateAt(env, c, net, Position(c, StartSlot(k))).staging
  }

  lemma WindowOpens<N, P, D, F>(env: Env<N, P, D, F>, c: Config, net: N, k: nat)
    requires c.Valid() && k < c.Slots()
    requires !StateAt(env, c, net, Position(c, StartSlot(k))).rejected
    ensures Position(c, StartSlot(k)) + 1 <= 5 * c.Slots() + 6
    ensures InWindow(env, c, net, k, Position(c, StartSlot(k)) + 1)
  {
    hide Handle, Evolve, FiringAt, Config.Valid, Position, SeenBy, StateAt;
    SamplesFireInsideTheSlot(c, k);
    var i := Position(c, StartSlot(k));
    StopsOnlyRejected(env, c, net, i);
    StepOf(env, c, net, StartSlot(k));
    SeenIs(env, c, net, StartSlot(k));
    var seen := SeenBy(env, c, net, StartSlot(k));
    EvolveCounts(env, StateAt(env, c, net, i), i);
    HandleKeepsRest(env, c, seen, StartSlot(k));
    WindowStarted(env, c, seen, k);
  }

  lemma WindowGoesOn<N, P, D, F>(env: Env<N, P, D, F>, c: Config, net: N, k: nat, i: nat)
    requires c.Valid() && k < c.Slots() && i < 5 * c.Slots() + 6 && !StateAt(env, c, net, i).rejected
    requires Position(c, StartSlot(k)) < i < Position(c, EndSlot(k)) && InWindow(env, c, net, k, i)
    ensures InWindow(env, c, net, k, i + 1)
  {
    hide Handle, Evolve, FiringAt, Config.Valid, Position, SeenBy, StateAt;
    var s := StateAt(env, c, net, i);
    StopsOnlyRejected(env, c, net, i);
    var e := StepAt(env, c, net, i);
    OneWindowAtATime(c, k, i, e);
    EvolveCounts(env, s, i);
    HandleKeepsRest(env, c, Evolve(env, s, i), e);
    SeenIs(env, c, net, ObservePath(k));
    SeenIs(env, c, net, SampleDetection(k));
    if i == Position(c, ObservePath(k)) {
      StepOf(env, c, net, ObservePath(k));
      Sampled(env, c, SeenBy(env, c, net, ObservePath(k)), k);
    }
    if i == Position(c, SampleDetection(k)) {
      StepOf(env, c, net, SampleDetection(k));
      Sampled(env, c, SeenBy(env, c, net, SampleDetection(k)), k);
    }
  }

  /** Inside a window the collector holds the frames since its start, and the samples are the slot's. */
  lemma {:induction false} InsideWindow<N, P, D, F>(env: Env<N, P, D, F>, c: Config, net: N, k: nat, i: nat)
    requires c.Valid() && k < c.Slots() && i <= 5 * c.Slots() + 6 && !StateAt(env, c, net, i).rejected
    requires Position(c, StartSlot(k)) < i <= Position(c, EndSlot(k))
    ensures InWindow(env, c, net, k, i)
    decreases i
  {
    hide Handle, Evolve, FiringAt, Config.Valid, Position, SeenBy, InWindow, StateAt;
    NotRejectedBefore(env, c, net, i, i - 1);
    if i - 1 == Position(c, StartSlot(k)) {
      WindowOpens(env, c, net, k);
    } else {
      InsideWindow(env, c, net, k, i - 1);
      WindowGoesOn(env, c, net, k, i - 1);
    }
  }

  lemma SeenIs<N, P, D, F>(env: Env<N, P, D, F>, c: Config, net: N, e: Event)
    requires c.Valid() && IsEvent(c, e)
    ensures SeenBy(env, c, net, e) == Evolve(env, StateAt(env, c, net, Position(c, e)), Position(c, e))
  {
  }

  lemma WindowStarted<N, P, D, F>(env: Env<N, P, D, F>, c: Config, s: State<N, P, D, F>, k: nat)
    requires c.Valid() && k < c.Slots() && !s.rejected
    ensures var r := Handle(env, c, s, StartSlot(k)); r.featuresActive && r.frames == [] && r.sent == []
  {
  }

  lemma Sampled<N, P, D, F>(env: Env<N, P, D, F>, c: Config, s: State<N, P, D, F>, k: nat)
    requires c.Valid() && k < c.Slots()
    ensures Handle(env, c, s, ObservePath(k)).path == env.observe(s.view)
    ensures !s.rejected ==> Handle(env, c, s, SampleDetection(k)).detection == env.detect(s.view)
  {
  }

  lemma EvolveCounts<N, P, D, F>(env: Env<N, P, D, F>, s: State<N, P, D, F>, i: nat)
    ensures var r := Evolve(env, s, i);
            && r == s.(view := r.view, frames := r.frames, sent := r.sent)
            && r.frames == (if s.featuresActive then s.frames + env.heard(i, s.view) else s.frames)
            && r.sent == s.sent + env.sent(i, s.view)
  {
  }

  /** After `i` events a window is open: its start has fired and its end has not. */
  ghost predicate WindowOpen(c: Config, i: nat)
    requires c.Valid()
  {
    exists k: nat :: k < c.Slots() && Position(c, StartSlot(k)) < i <= Position(c, EndSlot(k))
  }

  lemma EdgeIsUnique(c: Config, e: Event, k: nat)
    requires c.Valid() && IsEvent(c, e) && k < c.Slots()
    ensures Position(c, e) == Position(c, StartSlot(k)) <==> e == StartSlot(k)
    ensures Position(c, e) == Position(c, EndSlot(k)) <==> e == EndSlot(k)
  {
  }

  lemma WindowEdges(c: Config, e: Event)
    requires c.Valid() && IsEvent(c, e)
    ensures var i := Position(c, e);
            WindowOpen(c, i + 1) <==> if e.StartSlot? then true else if e.EndSlot? then false else WindowOpen(c, i)
  {
    hide Position;
    var i := Position(c, e);
    forall k: nat | k < c.Slots()
      ensures Position(c, StartSlot(k)) == 5 * k + 5 && Position(c, EndSlot(k)) == 5 * k + 9
      ensures i == 5 * k + 5 <==> e == StartSlot(k)
      ensures i == 5 * k + 9 <==> e == EndSlot(k)
    {
      SlotPositions(c, k);
      EdgeIsUnique(c, e, k);
    }
    if k: nat :| k < c.Slots() && Position(c, StartSlot(k)) < i + 1 <= Position(c, EndSlot(k)) {
      assert !e.StartSlot? ==> Position(c, StartSlot(k)) < i <= Position(c, EndSlot(k));
    }
    if k: nat :| k < c.Slots() && Position(c, StartSlot(k)) < i <= Position(c, EndSlot(k)) {
      assert !e.EndSlot? ==> Position(c, StartSlot(k)) < i + 1 <= Position(c, EndSlot(k));
    }
    if e.StartSlot? {
      assert Position(c, StartSlot(e.slot)) < i + 1 <= Position(c, EndSlot(e.slot));
    }
  }

  /** The collector takes frames exactly while a window is open. */
  lemma {:induction false} ActiveExactlyInWindows<N, P, D, F>(env: Env<N, P, D, F>, c: Config, net: N, i: nat)
    requires c.Valid() && i <= 5 * c.Slots() + 6 && !StateAt(env, c, net, i).rejected
    ensures StateAt(env, c, net, i).featuresActive <==> WindowOpen(c, i)
    decreases i
  {
    hide Handle, Evolve, FiringAt, Config.Valid, Position, StateAt, WindowOpen;
    if i == 0 {
      InitialIsIdle(env, c, net);
      NoWindowYet(c);
    } else {
      NotRejectedBefore(env, c, net, i, i - 1);
      ActiveExactlyInWindows(env, c, net, i - 1);
      var e := StepAt(env, c, net, i - 1);
      var s := StateAt(env, c, net, i - 1);
      WindowEdges(c, e);
      EvolveKeepsFlags(env, s, i - 1);
      HandleKeepsRest(env, c, Evolve(env, s, i - 1), e);
      StartsAndEnds(env, c, Evolve(env, s, i - 1), e);
    }
  }

  lemma InitialIsIdle<N, P, D, F>(env: Env<N, P, D, F>, c: Config, net: N)
    requires c.Valid()
    ensures !StateAt(env, c, net, 0).featuresActive
  {
  }

  lemma NoWindowYet(c: Config)
    requires c.Valid()
    ensures !WindowOpen(c, 0)
  {
  }

  lemma StartsAndEnds<N, P, D, F>(env: Env<N, P, D, F>, c: Config, s: State<N, P, D, F>, e: Event)
    requires c.Valid() && IsEvent(c, e) && !s.rejected
    ensures e.StartSlot? ==> Handle(env, c, s, e).featuresActive
    ensures e.EndSlot? ==> !Handle(env, c, s, e).featuresActive
  {
    hide Config.Valid, LabelsOf, WindowOf, ApplyScenario;
  }

  /** The handlers leave the network alone: between two events it is moved on by the simulation only. */
  lemma NetworkMovesOn<N, P, D, F>(env: Env<N, P, D, F>, c: Config, net: N, i: nat)
    requires c.Valid() && i < 5 * c.Slots() + 6 && !StateAt(env, c, net, i).stopped
    ensures StateAt(env, c, net, i + 1).view.net == env.net(i, StateAt(env, c, net, i).view)
  {
    hide Handle, FiringAt, Config.Valid, Config.Scenario, Position, StateAt, NodesMatch;
    var e := StepAt(env, c, net, i);
    var s := StateAt(env, c, net, i);
    var seen := Evolve(env, s, i);
    if e.Transition? {
      InvAt(env, c, net, i);
      EvolveKeeps(env, c, s, i);
      TransitionHandled(env, c, seen, e.slot);
      TransitionIsFresh(c, seen, e.slot);
    } else {
      HandleKeepsNodes(env, c, seen, e);
    }
  }

  /** What the rows of slot `k` must hold. */
  ghost function ExpectedFeatures<N, P, D, F>(env: Env<N, P, D, F>, c: Config, net: N, k: nat): FeatureRow<F>
    requires c.Valid() && k < c.Slots()
  {
    SamplesFireInsideTheSlot(c, k);
    FeatureRow(WindowOf(c, k), Heard(env, c, net, Position(c, StartSlot(k)) + 1, Position(c, EndSlot(k)) + 1))
  }

  ghost function ExpectedLabels<N, P, D, F>(env: Env<N, P, D, F>, c: Config, net: N, k: nat): LabelRow<P>
    requires c.Valid() && k < c.Slots()
  {
    LabelRow(WindowOf(c, k), c.Scenario(k).defense, c.Scenario(k).attack,
             env.observe(SeenBy(env, c, net, ObservePath(k)).view))
  }

  ghost function ExpectedOracle<N, P, D, F>(env: Env<N, P, D, F>, c: Config, net: N, k: nat): OracleRow<P, D, F>
    requires c.Valid() && k < c.Slots()
  {
    SamplesFireInsideTheSlot(c, k);
    OracleRow(WindowOf(c, k), Sent(env, c, net, Position(c, StartSlot(k)) + 1, Position(c, EndSlot(k)) + 1),
              env.observe(SeenBy(env, c, net, ObservePath(k)).view),
              env.detect(SeenBy(env, c, net, SampleDetection(k)).view))
  }

  ghost predicate Staged<N, P, D, F>(env: Env<N, P, D, F>, c: Config, net: N, g: Staging<P, D, F>, k: nat)
    requires c.Valid() && k <= c.Slots()
  {
    && |g.features| == k && |g.labels| == k && |g.oracle| == k
    && (forall j :: 0 <= j < k ==> g.features[j] == ExpectedFeatures(env, c, net, j))
    && (forall j :: 0 <= j < k ==> g.labels[j] == ExpectedLabels(env, c, net, j))
    && (forall j :: 0 <= j < k ==> g.oracle[j] == ExpectedOracle(env, c, net, j))
  }

  /** Looking a scenario's name up gives that scenario's switches. */
  lemma {:induction false} LabelsAreTheScenarios(scenarios: seq<ScenarioSpec>, j: nat)
    requires j < |scenarios|
    requires forall a, b :: 0 <= a < b < |scenarios| ==> scenarios[a].name != scenarios[b].name
    ensures LabelsOf(scenarios, scenarios[j].name) == (scenarios[j].attack, scenarios[j].defense)
  {
    if j > 0 {
      assert scenarios[1..][j - 1] == scenarios[j];
      LabelsAreTheScenarios(scenarios[1..], j - 1);
    }
  }

  lemma ScenarioLabels(c: Config, k: nat)
    requires c.Valid() && k < c.Slots()
    ensures LabelsOf(c.scenarios, WindowOf(c, k).scenario) == (c.Scenario(k).attack, c.Scenario(k).defense)
  {
    LabelsAreTheScenarios(c.scenarios, c.order[k]);
  }

  lemma WindowEnded<N, P, D, F>(env: Env<N, P, D, F>, c: Config, s: State<N, P, D, F>, k: nat)
    requires c.Valid() && k < c.Slots() && !s.rejected
    ensures var w := WindowOf(c, k); var sc := c.Scenario(k);
            Handle(env, c, s, EndSlot(k)).staging
            == Staging(s.staging.features + [FeatureRow(w, s.frames)],
                       s.staging.labels + [LabelRow(w, sc.defense, sc.attack, s.path)],
                       s.staging.oracle + [OracleRow(w, s.sent, s.path, s.detection)])
  {
    hide LabelsOf, WindowOf, Config.Valid, Config.Scenario;
    ScenarioLabels(c, k);
  }

  /** One slot adds its three rows. */
  lemma SlotStagesItsRows<N, P, D, F>(env: Env<N, P, D, F>, c: Config, net: N, k: nat)
    requires c.Valid() && k < c.Slots()
    requires var i := Position(c, EndSlot(k)); i + 1 <= 5 * c.Slots() + 6 && !StateAt(env, c, net, i + 1).rejected
    ensures var g := StateAt(env, c, net, Position(c, StartSlot(k))).staging;
            StateAt(env, c, net, Position(c, EndSlot(k)) + 1).staging
            == Staging(g.features + [ExpectedFeatures(env, c, net, k)],
                       g.labels + [ExpectedLabels(env, c, net, k)],
                       g.oracle + [ExpectedOracle(env, c, net, k)])
  {
    hide Handle, Evolve, StateAt, FiringAt, Config.Valid, Position, SeenBy, WindowOf, Config.Scenario;
    var i := Position(c, EndSlot(k));
    SamplesFireInsideTheSlot(c, k);
    NotRejectedBefore(env, c, net, i + 1, i);
    InsideWindow(env, c, net, k, i);
    StepOf(env, c, net, EndSlot(k));
    SeenIs(env, c, net, EndSlot(k));
    EvolveCounts(env, StateAt(env, c, net, i), i);
    WindowEnded(env, c, SeenBy(env, c, net, EndSlot(k)), k);
  }

  lemma SlotPositions(c: Config, k: nat)
    requires c.Valid() && k < c.Slots()
    ensures Position(c, StartSlot(k)) == 5 * k + 5 && Position(c, EndSlot(k)) == 5 * k + 9
  {
  }

  lemma {:induction false} StagedAfter<N, P, D, F>(env: Env<N, P, D, F>, c: Config, net: N, k: nat)
    requires c.Valid() && k <= c.Slots() && !StateAt(env, c, net, 5 * k + 5).rejected
    ensures Staged(env, c, net, StateAt(env, c, net, 5 * k + 5).staging, k)
    decreases k
  {
    hide StateAt, Config.Valid, Position, ExpectedFeatures, ExpectedLabels, ExpectedOracle;
    if k == 0 {
      NothingStagedBefore(env, c, net, 5);
    } else {
      SlotPositions(c, k - 1);
      NotRejectedBefore(env, c, net, 5 * k + 5, 5 * (k - 1) + 5);
      StagedAfter(env, c, net, k - 1);
      SlotStagesItsRows(env, c, net, k - 1);
    }
  }

  /** An accepted run promotes, in each windowed table, exactly one row per slot, and every value in slot
      `k`'s rows was sampled by slot `k`'s own handlers and collected in its own window. */
  lemma AcceptedRunStagesEverySlot<N, P, D, F>(env: Env<N, P, D, F>, c: Config, net: N)
    requires c.Valid() && !Final(env, c, net).rejected
    ensures Staged(env, c, net, Promoted(Final(env, c, net)), c.Slots())
  {
    hide StateAt, Config.Valid, Handle, Evolve, Position, Staged, FiringAt;
    var n := c.Slots();
    NotRejectedBefore(env, c, net, 5 * n + 6, 5 * n + 5);
    StagedAfter(env, c, net, n);
    var e := StepAt(env, c, net, 5 * n + 5);
    var s := StateAt(env, c, net, 5 * n + 5);
    EvolveKeepsFlags(env, s, 5 * n + 5);
    HandleKeepsRest(env, c, Evolve(env, s, 5 * n + 5), e);
    LastIsStop(c, e);
  }

  lemma LastIsStop(c: Config, e: Event)
    requires c.Valid() && IsEvent(c, e) && Position(c, e) == 5 * c.Slots() + 5
    ensures e == Stop
  {
  }

  /** The samples in slot `k`'s rows were taken with the nodes in scenario `k`'s state, although the next
      slot's transition precedes the end of this one. */
  lemma SamplesAreOfTheirScenario<N, P, D, F>(env: Env<N, P, D, F>, c: Config, net: N, k: nat)
    requires c.Valid() && k < c.Slots() && !Final(env, c, net).rejected
    ensures NodesMatch(c, SeenBy(env, c, net, ObservePath(k)).view, c.Scenario(k).attack, c.Scenario(k).defense)
    ensures NodesMatch(c, SeenBy(env, c, net, SampleDetection(k)).view, c.Scenario(k).attack, c.Scenario(k).defense)
  {
    SamplesFireInsideTheSlot(c, k);
    SampleOfItsScenario(env, c, net, k, ObservePath(k));
    SampleOfItsScenario(env, c, net, k, SampleDetection(k));
  }

  lemma SampleOfItsScenario<N, P, D, F>(env: Env<N, P, D, F>, c: Config, net: N, k: nat, e: Event)
    requires c.Valid() && IsEvent(c, e) && InSlot(c, k, Position(c, e)) && !Final(env, c, net).rejected
    ensures NodesMatch(c, SeenBy(env, c, net, e).view, c.Scenario(k).attack, c.Scenario(k).defense)
  {
    hide StateAt, Config.Valid, Config.Scenario, Evolve, Position, NodesMatch;
    var i := Position(c, e);
    NotRejectedBefore(env, c, net, 5 * c.Slots() + 6, i);
    NoCarryOver(env, c, net, k, i);
    InvAt(env, c, net, i);
    EvolveKeeps(env, c, StateAt(env, c, net, i), i);
    SeenIs(env, c, net, e);
  }

  /** Every scenario has exactly one slot. */
  lemma EveryScenarioHasOneSlot(c: Config, j: nat)
    requires c.Valid() && j < c.Slots()
    ensures exists k :: 0 <= k < c.Slots() && c.order[k] == j
                        && forall k' :: 0 <= k' < c.Slots() && c.order[k'] == j ==> k' == k
  {
    DistinctIsOnto(c.order, c.Slots(), j);
    var k: int :| 0 <= k < |c.order| && c.order[k] == j;
  }

  /** In an accepted run the rows of each windowed table name every scenario exactly once. */
  lemma OneRowPerScenario<N, P, D, F>(env: Env<N, P, D, F>, c: Config, net: N, j: nat) returns (k: nat)
    requires c.Valid() && j < c.Slots() && !Final(env, c, net).rejected
    ensures var g := Promoted(Final(env, c, net)); var name := c.scenarios[j].name;
            && |g.features| == |g.labels| == |g.oracle| == c.Slots() && k < c.Slots()
            && forall l :: 0 <= l < c.Slots() ==>
                 && (g.labels[l].window.scenario == name <==> l == k)
                 && (g.features[l].window.scenario == name <==> l == k)
                 && (g.oracle[l].window.scenario == name <==> l == k)
  {
    hide StateAt, Position, SeenBy;
    AcceptedRunStagesEverySlot(env, c, net);
    EveryScenarioHasOneSlot(c, j);
    k :| 0 <= k < c.Slots() && c.order[k] == j && forall k' :: 0 <= k' < c.Slots() && c.order[k'] == j ==> k' == k;
    var g := Promoted(Final(env, c, net));
    forall l | 0 <= l < c.Slots()
      ensures g.labels[l].window == g.features[l].window == g.oracle[l].window == WindowOf(c, l)
      ensures WindowOf(c, l).scenario == c.scenarios[j].name <==> l == k
    {
      NamesDiffer(c, c.order[l], j);
      assert g.labels[l] == ExpectedLabels(env, c, net, l);
      assert g.features[l] == ExpectedFeatures(env, c, net, l);
      assert g.oracle[l] == ExpectedOracle(env, c, net, l);
    }
  }

  lemma NamesDiffer(c: Config, a: nat, b: nat)
    requires c.Valid() && a < c.Slots() && b < c.Slots()
    ensures c.scenarios[a].name == c.scenarios[b].name <==> a == b
  {
  }
}
