/** The event schedule of an evaluation run, and the order in which its events fire: by time, and among
    events of the same instant by insertion. */
module EventOrder {

  datatype ScenarioSpec = ScenarioSpec(name: string, attack: bool, defense: bool)

  /** `order[k]` is the scenario of slot `k`. */
  datatype Config = Config(
    scenarios: seq<ScenarioSpec>,
    order: seq<nat>,
    randomOrder: bool,
    nodes: nat,
    attackers: seq<nat>,
    spoofCount: nat) {

    /** Every scenario has one slot, scenario 0 is the neutral baseline, and slots are only permuted when
        the order is randomised. */
    ghost predicate Valid() {
      && scenarios != [] && |order| == |scenarios|
      && (forall k :: 0 <= k < |order| ==> order[k] < |scenarios|)
      && (forall j, k :: 0 <= j < k < |order| ==> order[j] != order[k])
      && (forall j, k :: 0 <= j < k < |scenarios| ==> scenarios[j].name != scenarios[k].name)
      && !scenarios[0].attack && !scenarios[0].defense
      && (!randomOrder ==> forall k :: 0 <= k < |order| ==> order[k] == k)
    }

    function Slots(): nat {
      |scenarios|
    }

    function Scenario(k: nat): ScenarioSpec
      requires Valid() && k < Slots()
    {
      scenarios[order[k]]
    }

    // Times in milliseconds.

    function InitialStabilization(): nat {
      if randomOrder then 60000 else 0
    }

    function TransitionTime(k: nat): nat {
      InitialStabilization() + 100000 * k
    }

    function WindowStart(k: nat): nat {
      InitialStabilization() + 100000 * k + 60000
    }

    function WindowEnd(k: nat): nat {
      WindowStart(k) + 40000
    }

    function SimulationEnd(): nat {
      InitialStabilization() + 100000 * Slots()
    }
  }

  const ACCEPTANCE_GATE_TIME: nat := 60000
  const UDP_START_OFFSET_IN_WINDOW: nat := 4000

  datatype Event =
    | ObservePath(slot: nat)
    | SampleDetection(slot: nat)
    | ReportReceived
    | TopologyProbe
    | AssertConnectivity
    | AssertRouteExists
    | ReportConnectivity
    | Transition(slot: nat)
    | StartSlot(slot: nat)
    | EndSlot(slot: nat)
    | Stop

  datatype Scheduled = Scheduled(time: nat, event: Event)

  /** The events of a run. */
  predicate IsEvent(c: Config, e: Event) {
    match e
    case ObservePath(k) => k < c.Slots()
    case SampleDetection(k) => k < c.Slots()
    case Transition(k) => k < c.Slots()
    case StartSlot(k) => k < c.Slots()
    case EndSlot(k) => k < c.Slots()
    case _ => true
  }

  function TimeOf(c: Config, e: Event): nat
    requires IsEvent(c, e)
  {
    match e
    case ObservePath(k) => c.WindowStart(k) + UDP_START_OFFSET_IN_WINDOW - 2000
    case SampleDetection(k) => c.WindowEnd(k) - 1
    case ReportReceived => if c.SimulationEnd() >= 1000 then c.SimulationEnd() - 1000 else 0
    case TopologyProbe => ACCEPTANCE_GATE_TIME - 1000
    case AssertConnectivity => ACCEPTANCE_GATE_TIME
    case AssertRouteExists => ACCEPTANCE_GATE_TIME
    case ReportConnectivity => ACCEPTANCE_GATE_TIME
    case Transition(k) => c.TransitionTime(k)
    case StartSlot(k) => c.WindowStart(k)
    case EndSlot(k) => c.WindowEnd(k)
    case Stop => c.SimulationEnd() + 2000
  }

  /** When an event is inserted, counted from 0. */
  function Inserted(c: Config, e: Event): nat
    requires IsEvent(c, e)
  {
    var n := c.Slots();
    match e
    case ObservePath(k) => 2 * k
    case SampleDetection(k) => 2 * k + 1
    case ReportReceived => 2 * n
    case TopologyProbe => 2 * n + 1
    case AssertConnectivity => 2 * n + 2
    case AssertRouteExists => 2 * n + 3
    case ReportConnectivity => 2 * n + 4
    case Transition(k) => 2 * n + 5 + k
    case StartSlot(k) => 3 * n + 5 + 2 * k
    case EndSlot(k) => 3 * n + 6 + 2 * k
    case Stop => 5 * n + 5
  }

  predicate PlacedAt(c: Config, x: Scheduled, i: nat) {
    IsEvent(c, x.event) && Inserted(c, x.event) == i && x.time == TimeOf(c, x.event)
  }

  ghost predicate Placed(c: Config, s: seq<Scheduled>) {
    forall i :: 0 <= i < |s| ==> PlacedAt(c, s[i], i)
  }

  /** The schedule holds every event of the run once, at its time and in its place. */
  ghost predicate IsSchedule(c: Config, s: seq<Scheduled>) {
    && |s| == 5 * c.Slots() + 6
    && (forall e :: IsEvent(c, e) ==> Inserted(c, e) < |s| && s[Inserted(c, e)] == Scheduled(TimeOf(c, e), e))
    && (forall i :: 0 <= i < |s| ==> IsEvent(c, s[i].event) && Inserted(c, s[i].event) == i)
  }

  /** Schedules a run's events in the order of the main program. */
  method ScheduleRun(c: Config) returns (s: seq<Scheduled>)
    requires c.Slots() > 0
    ensures IsSchedule(c, s)
  {
    hide PlacedAt, IsSchedule;
    var n := c.Slots();
    s := [];
    for slot := 0 to n
      invariant |s| == 2 * slot && Placed(c, s)
    {
      var startTime := c.WindowStart(slot) + UDP_START_OFFSET_IN_WINDOW;
      s := Schedule(c, s, startTime - 2000, ObservePath(slot));
      s := Schedule(c, s, c.WindowEnd(slot) - 1, SampleDetection(slot));
    }
    s := Schedule(c, s, c.SimulationEnd() - 1000, ReportReceived);
    s := Schedule(c, s, ACCEPTANCE_GATE_TIME - 1000, TopologyProbe);
    s := Schedule(c, s, ACCEPTANCE_GATE_TIME, AssertConnectivity);
    s := Schedule(c, s, ACCEPTANCE_GATE_TIME, AssertRouteExists);
    s := Schedule(c, s, ACCEPTANCE_GATE_TIME, ReportConnectivity);
    for slot := 0 to n
      invariant |s| == 2 * n + 5 + slot && Placed(c, s)
    {
      s := Schedule(c, s, c.TransitionTime(slot), Transition(slot));
    }
    for slot := 0 to n
      invariant |s| == 3 * n + 5 + 2 * slot && Placed(c, s)
    {
      s := Schedule(c, s, c.WindowStart(slot), StartSlot(slot));
      s := Schedule(c, s, c.WindowEnd(slot), EndSlot(slot));
    }
    s := Schedule(c, s, c.SimulationEnd() + 2000, Stop);
    PlacedIsComplete(c, s);
  }

  /** Appends one event: insertion order is list order. */
  function Schedule(c: Config, s: seq<Scheduled>, time: nat, e: Event): (r: seq<Scheduled>)
    requires Placed(c, s) && IsEvent(c, e) && Inserted(c, e) == |s| && time == TimeOf(c, e)
    ensures |r| == |s| + 1 && Placed(c, r)
  {
    s + [Scheduled(time, e)]
  }

  lemma InsertedOnce(c: Config, a: Event, b: Event)
    requires IsEvent(c, a) && IsEvent(c, b) && Inserted(c, a) == Inserted(c, b)
    ensures a == b
  {
  }

  lemma InsertedBelow(c: Config, e: Event)
    requires IsEvent(c, e)
    ensures Inserted(c, e) < 5 * c.Slots() + 6
  {
  }

  lemma PlacedIsComplete(c: Config, s: seq<Scheduled>)
    requires Placed(c, s) && |s| == 5 * c.Slots() + 6
    ensures IsSchedule(c, s)
  {
    hide TimeOf, Inserted, IsEvent, Config.Slots;
    forall e | IsEvent(c, e)
      ensures Inserted(c, e) < |s| && s[Inserted(c, e)] == Scheduled(TimeOf(c, e), e)
    {
      InsertedBelow(c, e);
      var i := Inserted(c, e);
      assert PlacedAt(c, s[i], i);
      InsertedOnce(c, s[i].event, e);
    }
    forall i | 0 <= i < |s| ensures IsEvent(c, s[i].event) && Inserted(c, s[i].event) == i {
      assert PlacedAt(c, s[i], i);
    }
  }

  // ---------------------------------------------------------------------------
  // The firing order
  // ---------------------------------------------------------------------------

  /** `a` fires before `b`: earlier, or at the same instant and inserted earlier. */
  predicate Before(c: Config, a: Event, b: Event)
    requires IsEvent(c, a) && IsEvent(c, b)
  {
    TimeOf(c, a) < TimeOf(c, b) || (TimeOf(c, a) == TimeOf(c, b) && Inserted(c, a) < Inserted(c, b))
  }

  /** The events as they fire: slot 0's transition before the gates in canonical order and after them in
      randomised order; slot `k + 1`'s transition before the end of slot `k`, at the same instant. */
  function FiringAt(c: Config, i: nat): Event
    requires c.Slots() > 0 && i < 5 * c.Slots() + 6
  {
    if i < 5 then
      if c.randomOrder
      then [TopologyProbe, AssertConnectivity, AssertRouteExists, ReportConnectivity, Transition(0)][i]
      else [Transition(0), TopologyProbe, AssertConnectivity, AssertRouteExists, ReportConnectivity][i]
    else if i == 5 * c.Slots() + 5 then Stop
    else SlotEvent(c, (i - 5) / 5, (i - 5) % 5)
  }

  function SlotEvent(c: Config, k: nat, r: nat): Event {
    if r == 0 then StartSlot(k)
    else if r == 1 then ObservePath(k)
    else if r == 2 then if k + 1 == c.Slots() then ReportReceived else SampleDetection(k)
    else if r == 3 then if k + 1 == c.Slots() then SampleDetection(k) else Transition(k + 1)
    else EndSlot(k)
  }

  /** The promised timeline, in milliseconds.  A slot lasts 100 s: after its transition the network settles for
      60 s, then the window is measured for 40 s, up to the next transition.  The flow path is sampled two
      seconds into the window, two seconds before its traffic starts, and detection in its last millisecond.  The gates fire at
      60 s: in a canonical run inside slot 0, whose transition is at 0, in a randomised one at the end of a
      neutral prologue, together with the first transition.  Four scenarios take 400 s, or 460 s randomised. */
  lemma TimelineIsAsPromised(c: Config, k: nat)
    requires c.Valid() && k < c.Slots()
    ensures TimeOf(c, StartSlot(k)) == TimeOf(c, Transition(k)) + 60000
    ensures TimeOf(c, EndSlot(k)) == TimeOf(c, StartSlot(k)) + 40000
    ensures k + 1 < c.Slots() ==> TimeOf(c, Transition(k + 1)) == TimeOf(c, EndSlot(k))
    ensures k + 1 == c.Slots() ==> TimeOf(c, EndSlot(k)) + 2000 == TimeOf(c, Stop)
    ensures TimeOf(c, ObservePath(k)) == TimeOf(c, StartSlot(k)) + 2000
    ensures TimeOf(c, SampleDetection(k)) + 1 == TimeOf(c, EndSlot(k))
    ensures TimeOf(c, AssertConnectivity) == TimeOf(c, AssertRouteExists) == TimeOf(c, ReportConnectivity) == 60000
    ensures TimeOf(c, TopologyProbe) == 59000
    ensures TimeOf(c, Transition(0)) == if c.randomOrder then TimeOf(c, AssertConnectivity) else 0
    ensures TimeOf(c, Stop) == TimeOf(c, ReportReceived) + 3000
    ensures c.Slots() == 4 ==> c.SimulationEnd() == if c.randomOrder then 460000 else 400000
  {
  }

  /** Where an event fires. */
  function Position(c: Config, e: Event): (i: nat)
    requires c.Slots() > 0 && IsEvent(c, e)
    ensures i < 5 * c.Slots() + 6
  {
    match e
    case TopologyProbe => if c.randomOrder then 0 else 1
    case AssertConnectivity => if c.randomOrder then 1 else 2
    case AssertRouteExists => if c.randomOrder then 2 else 3
    case ReportConnectivity => if c.randomOrder then 3 else 4
    case Transition(k) => if k > 0 then 5 * k + 3 else if c.randomOrder then 4 else 0
    case StartSlot(k) => 5 * k + 5
    case ObservePath(k) => 5 * k + 6
    case SampleDetection(k) => if k + 1 == c.Slots() then 5 * k + 8 else 5 * k + 7
    case ReportReceived => 5 * c.Slots() + 2
    case EndSlot(k) => 5 * k + 9
    case Stop => 5 * c.Slots() + 5
  }

  lemma SlotPosition(k: nat, r: nat)
    requires r < 5
    ensures (5 * k + 5 + r - 5) / 5 == k && (5 * k + 5 + r - 5) % 5 == r
  {
  }

  /** Positions and firing events are inverse to one another: every event fires exactly once. */
  lemma FiresAtPosition(c: Config, e: Event)
    requires c.Slots() > 0 && IsEvent(c, e)
    ensures FiringAt(c, Position(c, e)) == e
  {
    hide Config.InitialStabilization;
    match e {
      case Transition(k) => if k > 0 { SlotPosition(k - 1, 3); }
      case StartSlot(k) => SlotPosition(k, 0);
      case ObservePath(k) => SlotPosition(k, 1);
      case SampleDetection(k) => SlotPosition(k, if k + 1 == c.Slots() then 3 else 2);
      case ReportReceived => SlotPosition(c.Slots() - 1, 2);
      case EndSlot(k) => SlotPosition(k, 4);
      case _ =>
    }
  }

  lemma FiringIsEvent(c: Config, i: nat)
    requires c.Slots() > 0 && i < 5 * c.Slots() + 6
    ensures IsEvent(c, FiringAt(c, i)) && Position(c, FiringAt(c, i)) == i
  {
    if 5 <= i < 5 * c.Slots() + 5 {
      var k, r := (i - 5) / 5, (i - 5) % 5;
      assert i == 5 * k + 5 + r && k < c.Slots();
    }
  }

  lemma PrologueStep(c: Config, i: nat)
    requires c.Slots() > 0 && i < 4
    ensures Before(c, FiringAt(c, i), FiringAt(c, i + 1))
  {
  }

  lemma FirstSlotStep(c: Config)
    requires c.Slots() > 0
    ensures Before(c, FiringAt(c, 4), StartSlot(0))
  {
  }

  lemma SlotStep(c: Config, k: nat, r: nat)
    requires k < c.Slots() && r < 4
    ensures IsEvent(c, SlotEvent(c, k, r)) && IsEvent(c, SlotEvent(c, k, r + 1))
    ensures Before(c, SlotEvent(c, k, r), SlotEvent(c, k, r + 1))
  {
  }

  lemma NextSlotStep(c: Config, k: nat)
    requires k < c.Slots()
    ensures k + 1 < c.Slots() ==> Before(c, EndSlot(k), StartSlot(k + 1))
    ensures Before(c, EndSlot(k), Stop)
  {
  }

  lemma FiringStep(c: Config, i: nat)
    requires c.Slots() > 0 && i + 1 < 5 * c.Slots() + 6
    requires IsEvent(c, FiringAt(c, i)) && IsEvent(c, FiringAt(c, i + 1))
    ensures Before(c, FiringAt(c, i), FiringAt(c, i + 1))
  {
    hide TimeOf, Inserted, IsEvent, Before;
    if i < 4 {
      PrologueStep(c, i);
    } else if i == 4 {
      SlotPosition(0, 0);
      FirstSlotStep(c);
    } else {
      var k, r := (i - 5) / 5, (i - 5) % 5;
      assert i == 5 * k + 5 + r;
      if r == 4 {
        NextSlotStep(c, k);
        SlotPosition(k + 1, 0);
      } else {
        SlotPosition(k, r + 1);
        SlotStep(c, k, r);
      }
    }
  }

  /** The firing order is the order of times, ties broken by insertion. */
  lemma {:induction false} FiringIsOrdered(c: Config, i: nat, j: nat)
    requires c.Slots() > 0 && i < j < 5 * c.Slots() + 6
    requires IsEvent(c, FiringAt(c, i)) && IsEvent(c, FiringAt(c, j))
    ensures Before(c, FiringAt(c, i), FiringAt(c, j))
    decreases j
  {
    hide FiringAt, TimeOf, Inserted, IsEvent;
    if i + 1 == j {
      FiringStep(c, i);
    } else {
      FiringIsEvent(c, j - 1);
      FiringIsOrdered(c, i, j - 1);
      FiringStep(c, j - 1);
    }
  }

  /** So one event fires before another exactly when its position is smaller. */
  lemma BeforeIsPosition(c: Config, a: Event, b: Event)
    requires c.Slots() > 0 && IsEvent(c, a) && IsEvent(c, b)
    ensures Before(c, a, b) <==> Position(c, a) < Position(c, b)
  {
    hide FiringAt, TimeOf, Inserted, Position;
    FiresAtPosition(c, a);
    FiresAtPosition(c, b);
    if Position(c, a) < Position(c, b) {
      FiringIsOrdered(c, Position(c, a), Position(c, b));
    } else if Position(c, b) < Position(c, a) {
      FiringIsOrdered(c, Position(c, b), Position(c, a));
    }
  }

  // ---------------------------------------------------------------------------
  // The event loop takes events in the firing order
  // ---------------------------------------------------------------------------

  ghost predicate IsPending(c: Config, e: Event, i: nat) {
    c.Slots() > 0 && IsEvent(c, e) && i <= Position(c, e)
  }

  ghost predicate Listed(c: Config, e: Event, pending: seq<nat>) {
    IsEvent(c, e) && Inserted(c, e) in pending
  }

  /** The pending events are those that fire from position `i` on. */
  ghost predicate PendingFrom(c: Config, s: seq<Scheduled>, pending: seq<nat>, i: nat) {
    && i + |pending| == |s|
    && (forall m :: 0 <= m < |pending| ==> pending[m] < |s| && IsPending(c, s[pending[m]].event, i))
    && (forall m, l :: 0 <= m < l < |pending| ==> pending[m] != pending[l])
    && (forall e :: IsPending(c, e, i) ==> Listed(c, e, pending))
  }

  ghost predicate IsNext(s: seq<Scheduled>, pending: seq<nat>, next: nat)
    requires next < |s| && forall i :: 0 <= i < |pending| ==> pending[i] < |s|
  {
    forall i :: 0 <= i < |pending| ==> NotAfter(s, next, pending[i])
  }

  predicate NotAfter(s: seq<Scheduled>, a: nat, b: nat)
    requires a < |s| && b < |s|
  {
    s[a].time < s[b].time || (s[a].time == s[b].time && a <= b)
  }

  /** The next of the pending events: the earliest, and of several at that instant the first inserted. */
  method RemoveNext(s: seq<Scheduled>, pending: seq<nat>) returns (next: nat, rest: seq<nat>)
    requires pending != [] && forall i :: 0 <= i < |pending| ==> pending[i] < |s|
    ensures next in pending && IsNext(s, pending, next)
    ensures exists m :: 0 <= m < |pending| && pending[m] == next && rest == pending[..m] + pending[m + 1..]
  {
    var best := 0;
    for k := 1 to |pending|
      invariant best < |pending|
      invariant forall i :: 0 <= i < k ==> NotAfter(s, pending[best], pending[i])
    {
      var p, b := pending[k], pending[best];
      if s[p].time < s[b].time || (s[p].time == s[b].time && p < b) {
        best := k;
      }
    }
    next := pending[best];
    rest := pending[..best] + pending[best + 1..];
  }

  lemma AllPending(c: Config, s: seq<Scheduled>)
    requires c.Slots() > 0 && IsSchedule(c, s)
    ensures PendingFrom(c, s, seq(|s|, i => i), 0)
  {
    hide TimeOf, Inserted, Position, IsEvent;
    var pending: seq<nat> := seq(|s|, i => i);
    forall e | IsPending(c, e, 0) ensures Listed(c, e, pending) {
      assert pending[Inserted(c, e)] == Inserted(c, e);
    }
  }

  lemma NextFires(c: Config, s: seq<Scheduled>, pending: seq<nat>, i: nat, next: nat)
    requires IsSchedule(c, s) && i < |s| && c.Slots() > 0
    requires PendingFrom(c, s, pending, i) && next in pending && IsNext(s, pending, next)
    ensures s[next].event == FiringAt(c, i)
  {
    hide TimeOf, Inserted, Position, FiringAt, IsEvent;
    var e, f := s[next].event, FiringAt(c, i);
    FiringIsEvent(c, i);
    assert IsPending(c, f, i) && Listed(c, f, pending);
    var m :| 0 <= m < |pending| && pending[m] == Inserted(c, f);
    assert NotAfter(s, next, pending[m]);
    BeforeIsPosition(c, e, f);
    FiresAtPosition(c, e);
  }

  lemma OtherStaysPending(c: Config, s: seq<Scheduled>, pending: seq<nat>, i: nat, m: nat, k: nat)
    requires IsSchedule(c, s) && i < |s| && c.Slots() > 0
    requires PendingFrom(c, s, pending, i) && m < |pending| && k < |pending| && k != m
    requires s[pending[m]].event == FiringAt(c, i)
    ensures pending[k] < |s| && IsPending(c, s[pending[k]].event, i + 1)
  {
    hide TimeOf, Inserted, Position, FiringAt, IsEvent;
    FiringIsEvent(c, i);
    assert IsPending(c, s[pending[k]].event, i);
    FiresAtPosition(c, s[pending[k]].event);
    assert pending[k] != pending[m];
  }

  lemma OtherStaysListed(c: Config, s: seq<Scheduled>, pending: seq<nat>, i: nat, m: nat, e: Event)
    requires IsSchedule(c, s) && i < |s| && c.Slots() > 0
    requires PendingFrom(c, s, pending, i) && m < |pending| && s[pending[m]].event == FiringAt(c, i)
    requires IsPending(c, e, i + 1)
    ensures Listed(c, e, pending[..m] + pending[m + 1..])
  {
    hide TimeOf, Inserted, Position, FiringAt, IsEvent;
    var rest := pending[..m] + pending[m + 1..];
    FiringIsEvent(c, i);
    assert IsPending(c, e, i) && Listed(c, e, pending);
    var k :| 0 <= k < |pending| && pending[k] == Inserted(c, e);
    assert k != m;
    assert rest[if k < m then k else k - 1] == pending[k];
  }

  lemma WithoutOne(pending: seq<nat>, m: nat)
    requires m < |pending| && forall k, l :: 0 <= k < l < |pending| ==> pending[k] != pending[l]
    ensures var rest := pending[..m] + pending[m + 1..];
            && |rest| == |pending| - 1
            && (forall k, l :: 0 <= k < l < |rest| ==> rest[k] != rest[l])
            && forall l :: 0 <= l < |rest| ==> rest[l] == pending[if l < m then l else l + 1]
  {
  }

  lemma PendingShrinks(c: Config, s: seq<Scheduled>, pending: seq<nat>, i: nat, m: nat)
    requires IsSchedule(c, s) && i < |s| && c.Slots() > 0
    requires PendingFrom(c, s, pending, i) && m < |pending| && s[pending[m]].event == FiringAt(c, i)
    ensures PendingFrom(c, s, pending[..m] + pending[m + 1..], i + 1)
  {
    hide IsSchedule, IsPending, Listed, TimeOf, Inserted, Position, FiringAt, IsEvent;
    var rest := pending[..m] + pending[m + 1..];
    WithoutOne(pending, m);
    forall l | 0 <= l < |rest| ensures rest[l] < |s| && IsPending(c, s[rest[l]].event, i + 1) {
      OtherStaysPending(c, s, pending, i, m, if l < m then l else l + 1);
    }
    forall e | IsPending(c, e, i + 1) ensures Listed(c, e, rest) {
      OtherStaysListed(c, s, pending, i, m, e);
    }
  }
}
