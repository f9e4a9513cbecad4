/** The test runner's worker pool: a main thread that dispatches jobs and one sentinel per worker,
    collects one result per job and joins the workers, all interleaved with the workers' own steps
    and with a keyboard interrupt. */
module WorkerPool {

  /** A job is known by its dispatch index; `skip` says whether it is to be skipped. */
  datatype Item = Real(id: nat) | Sentinel

  datatype Outcome = Broken | Skipped | Ran(returncode: int)

  datatype Result = Result(id: nat, outcome: Outcome)

  /** Where a worker is: blocked on the input queue, holding a job it has just taken, running it, or gone. */
  datatype Worker = Waiting | Holding(id: nat) | Running(id: nat) | Exited

  datatype Main = Dispatching(next: nat) | Stopping(sent: nat) | Collecting(got: nat) | Joining(joined: nat)

  /** `skip[j]` tells whether job `j` is marked to be skipped. */
  datatype State = State(
    skip: seq<bool>,
    inq: seq<Item>,
    outq: seq<Result>,
    collected: seq<Result>,
    workers: seq<Worker>,
    main: Main,
    threadExit: bool)

  function Initial(skip: seq<bool>, processors: nat): State {
    State(skip, [], [], [], seq(processors, _ => Waiting), Dispatching(0), false)
  }

  /** All threads have been joined. */
  predicate Finished(s: State) {
    s.main.Joining? && s.main.joined == |s.workers|
  }

  // ---------------------------------------------------------------------------
  // Steps
  // ---------------------------------------------------------------------------

  predicate MainEnabled(s: State) {
    match s.main
    case Dispatching(_) => true
    case Stopping(_) => true
    case Collecting(got) => got < |s.skip| ==> s.outq != []
    case Joining(joined) => joined < |s.workers| && s.workers[joined].Exited?
  }

  /** One step of the main thread: put a job, put a sentinel, get a result, or join a worker. */
  function MainStep(s: State): State
    requires MainEnabled(s)
  {
    match s.main
    case Dispatching(next) =>
      if next < |s.skip| then s.(inq := s.inq + [Real(next)], main := Dispatching(next + 1))
      else s.(main := Stopping(0))
    case Stopping(sent) =>
      if sent < |s.workers| then s.(inq := s.inq + [Sentinel], main := Stopping(sent + 1))
      else s.(main := Collecting(0))
    case Collecting(got) =>
      if got < |s.skip| then
        s.(outq := s.outq[1..], collected := s.collected + [s.outq[0]], main := Collecting(got + 1))
      else s.(main := Joining(0))
    case Joining(joined) => s.(main := Joining(joined + 1))
  }

  predicate WorkerEnabled(s: State, w: nat) {
    w < |s.workers| &&
    match s.workers[w]
    case Waiting => s.inq != []
    case Holding(_) => true
    case Running(_) => true
    case Exited => false
  }

  /** One step of worker `w`; `returncode` is what a run command returns.  The interrupt flag and the
      skip mark are looked at after the job has been taken, the flag first. */
  function WorkerStep(s: State, w: nat, returncode: int): State
    requires WorkerEnabled(s, w)
  {
    match s.workers[w]
    case Waiting =>
      (match s.inq[0]
       case Sentinel => s.(inq := s.inq[1..], workers := s.workers[w := Exited])
       case Real(id) => s.(inq := s.inq[1..], workers := s.workers[w := Holding(id)]))
    case Holding(id) =>
      if s.threadExit then Deliver(s, w, Result(id, Broken))
      else if id < |s.skip| && s.skip[id] then Deliver(s, w, Result(id, Skipped))
      else s.(workers := s.workers[w := Running(id)])
    case Running(id) => Deliver(s, w, Result(id, Ran(returncode)))
  }

  function Deliver(s: State, w: nat, r: Result): State
    requires w < |s.workers|
  {
    s.(outq := s.outq + [r], workers := s.workers[w := Waiting])
  }

  datatype Step = MainMoves | WorkerMoves(w: nat, returncode: int) | Interrupt

  predicate Enabled(s: State, step: Step) {
    match step
    case MainMoves => MainEnabled(s)
    case WorkerMoves(w, _) => WorkerEnabled(s, w)
    case Interrupt => !s.threadExit
  }

  function Next(s: State, step: Step): State
    requires Enabled(s, step)
  {
    match step
    case MainMoves => MainStep(s)
    case WorkerMoves(w, rc) => WorkerStep(s, w, rc)
    case Interrupt => s.(threadExit := true)
  }

  /** `t` is reached from `s` by the steps `run`, in any interleaving. */
  ghost predicate Runs(s: State, run: seq<Step>, t: State)
    decreases |run|
  {
    if run == [] then s == t else
      var prefix, last := run[..|run| - 1], run[|run| - 1];
      exists mid :: Runs(s, prefix, mid) && StepTo(mid, last, t)
  }

  ghost predicate StepTo(s: State, step: Step, t: State) {
    Enabled(s, step) && Next(s, step) == t
  }

  // ---------------------------------------------------------------------------
  // Where the jobs are
  // ---------------------------------------------------------------------------

  /** What is being counted: one particular job, or all of them. */
  datatype Which = Only(id: nat) | Any

  ghost function Hit(k: Which, id: nat): nat {
    if k == Any || k == Only(id) then 1 else 0
  }

  ghost function InItem(x: Item, k: Which): nat {
    match x case Real(id) => Hit(k, id) case Sentinel => 0
  }

  ghost function InQueue(q: seq<Item>, k: Which): nat {
    if q == [] then 0 else InQueue(q[..|q| - 1], k) + InItem(q[|q| - 1], k)
  }

  ghost function InHand(w: Worker, k: Which): nat {
    match w
    case Waiting => 0
    case Holding(id) => Hit(k, id)
    case Running(id) => Hit(k, id)
    case Exited => 0
  }

  ghost function InHands(ws: seq<Worker>, k: Which): nat {
    if ws == [] then 0 else InHands(ws[..|ws| - 1], k) + InHand(ws[|ws| - 1], k)
  }

  ghost function InResults(rs: seq<Result>, k: Which): nat {
    if rs == [] then 0 else InResults(rs[..|rs| - 1], k) + Hit(k, rs[|rs| - 1].id)
  }

  /** How often job `k` (or any job) is found: queued, in a worker's hands, on the output queue, collected. */
  ghost function Places(s: State, k: Which): nat {
    InQueue(s.inq, k) + InHands(s.workers, k) + InResults(s.outq, k) + InResults(s.collected, k)
  }

  /** How often it should be: each dispatched job once. */
  ghost function Expected(k: Which, dispatched: nat): nat {
    match k
    case Any => dispatched
    case Only(id) => if id < dispatched then 1 else 0
  }

  function Dispatched(s: State): nat {
    if s.main.Dispatching? then s.main.next else |s.skip|
  }

  function SentinelsPut(s: State): nat {
    match s.main
    case Dispatching(_) => 0
    case Stopping(sent) => sent
    case _ => |s.workers|
  }

  ghost function SentinelsQueued(q: seq<Item>): nat {
    if q == [] then 0 else SentinelsQueued(q[..|q| - 1]) + (if q[|q| - 1].Sentinel? then 1 else 0)
  }

  ghost function ExitedCount(ws: seq<Worker>): nat {
    if ws == [] then 0 else ExitedCount(ws[..|ws| - 1]) + (if ws[|ws| - 1].Exited? then 1 else 0)
  }

  /** In the queue every real job is ahead of every sentinel. */
  ghost predicate JobsFirst(q: seq<Item>) {
    forall i, j :: 0 <= i < j < |q| && q[j].Real? ==> q[i].Real?
  }

  ghost predicate NoJobQueued(q: seq<Item>) {
    forall i :: 0 <= i < |q| ==> q[i].Sentinel?
  }

  /** A recorded outcome fits the job: skipped only if marked, run only if not, broken only after an interrupt. */
  ghost predicate OutcomeFits(s: State, r: Result) {
    r.id < |s.skip| &&
    match r.outcome
    case Broken => s.threadExit
    case Skipped => s.skip[r.id]
    case Ran(_) => !s.skip[r.id]
  }

  ghost predicate WorkerFits(s: State, w: Worker) {
    match w
    case Holding(id) => id < |s.skip|
    case Running(id) => id < |s.skip| && !s.skip[id]
    case _ => true
  }

  ghost predicate CountersValid(s: State) {
    match s.main
    case Dispatching(next) => next <= |s.skip| && s.collected == []
    case Stopping(sent) => sent <= |s.workers| && s.collected == []
    case Collecting(got) => got <= |s.skip| && |s.collected| == got
    case Joining(joined) => joined <= |s.workers| && |s.collected| == |s.skip|
  }

  /** Every dispatched job is in exactly one place. */
  ghost predicate Conserved(s: State) {
    forall k: Which :: Places(s, k) == Expected(k, Dispatched(s))
  }

  /** The queue discipline: jobs ahead of sentinels, no job queued once a worker has gone, and no
      sentinel lost. */
  ghost predicate Disciplined(s: State) {
    && JobsFirst(s.inq)
    && (s.main.Dispatching? ==> forall i :: 0 <= i < |s.inq| ==> s.inq[i].Real?)
    && (ExitedCount(s.workers) > 0 ==> NoJobQueued(s.inq))
    && SentinelsQueued(s.inq) + ExitedCount(s.workers) == SentinelsPut(s)
  }

  ghost predicate Sound(s: State) {
    && (forall i :: 0 <= i < |s.inq| && s.inq[i].Real? ==> s.inq[i].id < |s.skip|)
    && (forall w :: 0 <= w < |s.workers| ==> WorkerFits(s, s.workers[w]))
    && (forall i :: 0 <= i < |s.outq| ==> OutcomeFits(s, s.outq[i]))
    && (forall i :: 0 <= i < |s.collected| ==> OutcomeFits(s, s.collected[i]))
  }

  /** The main thread's counters agree with what it has done. */
  ghost predicate Counted(s: State) {
    && CountersValid(s)
    && (s.main.Joining? ==> forall w :: 0 <= w < s.main.joined ==> s.workers[w].Exited?)
  }

  /** What every step of every run keeps. */
  ghost predicate Inv(s: State) {
    Conserved(s) && Disciplined(s) && Sound(s) && Counted(s)
  }

  // ---------------------------------------------------------------------------
  // Queue and worker bookkeeping
  // ---------------------------------------------------------------------------

  lemma PutItem(q: seq<Item>, x: Item, k: Which)
    ensures InQueue(q + [x], k) == InQueue(q, k) + InItem(x, k)
    ensures SentinelsQueued(q + [x]) == SentinelsQueued(q) + (if x.Sentinel? then 1 else 0)
  {
    hide InItem;
    assert (q + [x])[..|q|] == q;
  }

  lemma {:induction false} TakeItem(q: seq<Item>, k: Which)
    requires q != []
    ensures InQueue(q, k) == InItem(q[0], k) + InQueue(q[1..], k)
    ensures SentinelsQueued(q) == (if q[0].Sentinel? then 1 else 0) + SentinelsQueued(q[1..])
    decreases |q|
  {
    hide InItem;
    var m := |q| - 1;
    if m > 0 {
      TakeItem(q[..m], k);
      assert q[..m][1..] == q[1..][..m - 1];
      assert q[1..][m - 1] == q[m];
    }
  }

  lemma PutResult(rs: seq<Result>, r: Result, k: Which)
    ensures InResults(rs + [r], k) == InResults(rs, k) + Hit(k, r.id)
  {
    assert (rs + [r])[..|rs|] == rs;
  }

  lemma {:induction false} TakeResult(rs: seq<Result>, k: Which)
    requires rs != []
    ensures InResults(rs, k) == Hit(k, rs[0].id) + InResults(rs[1..], k)
    decreases |rs|
  {
    hide Hit;
    var m := |rs| - 1;
    if m > 0 {
      TakeResult(rs[..m], k);
      assert rs[..m][1..] == rs[1..][..m - 1];
      assert rs[1..][m - 1] == rs[m];
    }
  }

  lemma {:induction false} SetWorker(ws: seq<Worker>, w: nat, x: Worker, k: Which)
    requires w < |ws|
    ensures InHands(ws[w := x], k) + InHand(ws[w], k) == InHands(ws, k) + InHand(x, k)
    ensures ExitedCount(ws[w := x]) + (if ws[w].Exited? then 1 else 0) ==
            ExitedCount(ws) + (if x.Exited? then 1 else 0)
    decreases |ws|
  {
    hide InHand;
    var m := |ws| - 1;
    var us := ws[w := x];
    if w == m {
      assert us[..m] == ws[..m];
    } else {
      SetWorker(ws[..m], w, x, k);
      assert us[..m] == ws[..m][w := x];
    }
  }

  // ---------------------------------------------------------------------------
  // The invariant
  // ---------------------------------------------------------------------------

  lemma InitialInv(skip: seq<bool>, processors: nat)
    ensures Inv(Initial(skip, processors))
  {
    var s := Initial(skip, processors);
    forall k: Which ensures Places(s, k) == Expected(k, Dispatched(s)) { IdleWorkers(s.workers, k); }
    IdleWorkers(s.workers, Any);
  }

  lemma {:induction false} IdleWorkers(ws: seq<Worker>, k: Which)
    requires forall w :: 0 <= w < |ws| ==> ws[w] == Waiting
    ensures InHands(ws, k) == 0 && ExitedCount(ws) == 0
    decreases |ws|
  {
    if ws != [] {
      IdleWorkers(ws[..|ws| - 1], k);
    }
  }

  lemma MainConserves(s: State)
    requires Conserved(s) && Counted(s) && MainEnabled(s)
    ensures Conserved(MainStep(s))
  {
    hide InQueue, InHands, InResults, Expected, InItem, Hit;
    var t := MainStep(s);
    forall k: Which ensures Places(t, k) == Expected(k, Dispatched(t)) {
      assert Places(s, k) == Expected(k, Dispatched(s));
      match s.main
      case Dispatching(next) => PutItem(s.inq, Real(next), k); OneMoreExpected(k, next);
      case Stopping(sent) => PutItem(s.inq, Sentinel, k); SentinelIsNoJob(k);
      case Collecting(got) =>
        if got < |s.skip| {
          TakeResult(s.outq, k);
          PutResult(s.collected, s.outq[0], k);
        }
      case Joining(_) =>
    }
  }

  lemma OneMoreExpected(k: Which, dispatched: nat)
    ensures Expected(k, dispatched + 1) == Expected(k, dispatched) + InItem(Real(dispatched), k)
  {
  }

  lemma SentinelIsNoJob(k: Which)
    ensures InItem(Sentinel, k) == 0
  {
  }

  lemma WorkerConserves(s: State, w: nat, rc: int, k: Which)
    requires WorkerEnabled(s, w)
    ensures Places(WorkerStep(s, w, rc), k) == Places(s, k)
  {
    hide InQueue, InHands, InResults;
    var t := WorkerStep(s, w, rc);
    SetWorker(s.workers, w, t.workers[w], k);
    match s.workers[w]
    case Waiting => TakeItem(s.inq, k);
    case Holding(id) =>
      PutResult(s.outq, Result(id, Broken), k);
      PutResult(s.outq, Result(id, Skipped), k);
    case Running(id) => PutResult(s.outq, Result(id, Ran(rc)), k);
    case Exited =>
  }

  lemma PutJob(q: seq<Item>, id: nat)
    requires forall i :: 0 <= i < |q| ==> q[i].Real?
    ensures JobsFirst(q + [Real(id)])
  {
  }

  lemma PutSentinel(q: seq<Item>)
    requires JobsFirst(q)
    ensures JobsFirst(q + [Sentinel]) && (NoJobQueued(q) ==> NoJobQueued(q + [Sentinel]))
  {
  }

  lemma MainDisciplined(s: State)
    requires Disciplined(s) && Counted(s) && MainEnabled(s)
    ensures Disciplined(MainStep(s))
  {
    hide SentinelsQueued, ExitedCount, JobsFirst, NoJobQueued;
    match s.main
    case Dispatching(next) => PutItem(s.inq, Real(next), Any); AllJobs(s.inq); PutJob(s.inq, next);
    case Stopping(sent) => PutItem(s.inq, Sentinel, Any); PutSentinel(s.inq);
    case _ =>
  }

  lemma {:induction false} AllJobs(q: seq<Item>)
    requires forall i :: 0 <= i < |q| ==> q[i].Real?
    ensures SentinelsQueued(q) == 0
    decreases |q|
  {
    if q != [] {
      AllJobs(q[..|q| - 1]);
    }
  }

  lemma WorkerDisciplined(s: State, w: nat, rc: int)
    requires Disciplined(s) && WorkerEnabled(s, w)
    ensures Disciplined(WorkerStep(s, w, rc))
  {
    hide SentinelsQueued, ExitedCount, InHands, InQueue, InHand, JobsFirst, NoJobQueued;
    var t := WorkerStep(s, w, rc);
    SetWorker(s.workers, w, t.workers[w], Any);
    if s.workers[w].Waiting? {
      TakeItem(s.inq, Any);
      DropFirst(s.inq);
    }
  }

  /** A worker that meets a sentinel leaves no job behind. */
  lemma DropFirst(q: seq<Item>)
    requires JobsFirst(q) && q != []
    ensures JobsFirst(q[1..])
    ensures NoJobQueued(q) ==> NoJobQueued(q[1..])
    ensures q[0].Sentinel? ==> NoJobQueued(q)
  {
  }

  /** What fits a job depends only on the skip marks and on the interrupt flag. */
  lemma FitsKept(s: State, t: State)
    requires t.skip == s.skip && t.threadExit == s.threadExit
    ensures forall r :: OutcomeFits(t, r) == OutcomeFits(s, r)
    ensures forall w :: WorkerFits(t, w) == WorkerFits(s, w)
  {
  }

  lemma MainSound(s: State)
    requires Sound(s) && Counted(s) && MainEnabled(s)
    ensures Sound(MainStep(s))
  {
    hide OutcomeFits, WorkerFits;
    FitsKept(s, MainStep(s));
    match s.main
    case Collecting(got) =>
      if got < |s.skip| {
        assert OutcomeFits(s, s.outq[0]);
      }
    case _ =>
  }

  lemma WorkerSound(s: State, w: nat, rc: int)
    requires Sound(s) && WorkerEnabled(s, w)
    ensures Sound(WorkerStep(s, w, rc))
  {
    assert WorkerFits(s, s.workers[w]);
  }

  lemma InterruptSound(s: State)
    requires Sound(s)
    ensures Sound(s.(threadExit := true))
  {
  }

  lemma StepCounted(s: State, step: Step)
    requires Counted(s) && Enabled(s, step)
    ensures Counted(Next(s, step))
  {
  }

  lemma StepConserves(s: State, step: Step)
    requires Conserved(s) && Counted(s) && Enabled(s, step)
    ensures Conserved(Next(s, step))
  {
    hide Places, Expected, Counted, MainEnabled, WorkerEnabled, MainStep, WorkerStep, Dispatched;
    if step == MainMoves {
      MainConserves(s);
    } else {
      var t := Next(s, step);
      forall k: Which ensures Places(t, k) == Expected(k, Dispatched(t)) {
        match step
        case WorkerMoves(w, rc) => WorkerConserves(s, w, rc, k); WorkerDispatches(s, w, rc);
        case Interrupt => InterruptPlaces(s, k);
      }
    }
  }

  lemma WorkerDispatches(s: State, w: nat, rc: int)
    requires WorkerEnabled(s, w)
    ensures Dispatched(WorkerStep(s, w, rc)) == Dispatched(s)
  {
  }

  lemma InterruptPlaces(s: State, k: Which)
    ensures Places(s.(threadExit := true), k) == Places(s, k)
    ensures Dispatched(s.(threadExit := true)) == Dispatched(s)
  {
  }

  lemma StepKeepsInv(s: State, step: Step)
    requires Inv(s) && Enabled(s, step)
    ensures Inv(Next(s, step))
  {
    hide Conserved, Disciplined, Sound, Counted, MainStep, WorkerStep;
    StepConserves(s, step);
    StepCounted(s, step);
    match step
    case MainMoves => MainSound(s); MainDisciplined(s);
    case WorkerMoves(w, rc) => WorkerSound(s, w, rc); WorkerDisciplined(s, w, rc);
    case Interrupt => InterruptSound(s); InterruptKeeps(s);
  }

  lemma InterruptKeeps(s: State)
    requires Disciplined(s)
    ensures Disciplined(s.(threadExit := true))
  {
  }

  /** The invariant holds in every state of every run, whatever the interleaving. */
  lemma {:induction false} ReachableInv(s: State, run: seq<Step>, t: State)
    requires Inv(s) && Runs(s, run, t)
    ensures Inv(t) && t.skip == s.skip && |t.workers| == |s.workers|
    decreases |run|
  {
    hide Inv, Enabled;
    if run != [] {
      var prefix, last := run[..|run| - 1], run[|run| - 1];
      var mid :| Runs(s, prefix, mid) && StepTo(mid, last, t);
      ReachableInv(s, prefix, mid);
      StepKeepsInv(mid, last);
      StepKeepsShape(mid, last);
    }
  }

  lemma StepKeepsShape(s: State, step: Step)
    requires Enabled(s, step)
    ensures Next(s, step).skip == s.skip && |Next(s, step).workers| == |s.workers|
  {
  }

  /** No worker exits while a real job is still queued. */
  lemma NoWorkerLeavesJobsBehind(s: State, w: nat, rc: int)
    requires Inv(s) && WorkerEnabled(s, w)
    requires WorkerStep(s, w, rc).workers[w].Exited?
    ensures NoJobQueued(s.inq) && !s.main.Dispatching?
  {
    DropFirst(s.inq);
  }

  // ---------------------------------------------------------------------------
  // Progress
  // ---------------------------------------------------------------------------

  /** Some thread can move.  (An interrupt is not counted on.) */
  ghost predicate CanMove(s: State) {
    MainEnabled(s) || exists w: nat :: WorkerEnabled(s, w)
  }

  ghost predicate Stuck(s: State) {
    !Finished(s) && !CanMove(s)
  }

  lemma {:induction false} CountExited(ws: seq<Worker>)
    ensures ExitedCount(ws) <= |ws|
    ensures ExitedCount(ws) == |ws| ==> forall w :: 0 <= w < |ws| ==> ws[w].Exited?
    ensures ExitedCount(ws) == 0 ==> forall w :: 0 <= w < |ws| ==> !ws[w].Exited?
    decreases |ws|
  {
    if ws != [] {
      CountExited(ws[..|ws| - 1]);
    }
  }

  lemma {:induction false} IdleHands(ws: seq<Worker>)
    requires forall w :: 0 <= w < |ws| ==> ws[w].Waiting? || ws[w].Exited?
    ensures InHands(ws, Any) == 0
    decreases |ws|
  {
    if ws != [] {
      IdleHands(ws[..|ws| - 1]);
    }
  }

  lemma {:induction false} OnlySentinels(q: seq<Item>)
    requires NoJobQueued(q)
    ensures InQueue(q, Any) == 0 && SentinelsQueued(q) == |q|
    decreases |q|
  {
    if q != [] {
      OnlySentinels(q[..|q| - 1]);
    }
  }

  lemma {:induction false} CountResults(rs: seq<Result>)
    ensures InResults(rs, Any) == |rs|
    decreases |rs|
  {
    if rs != [] {
      CountResults(rs[..|rs| - 1]);
    }
  }

  /** With the main thread waiting and no worker able to move, every worker is blocked on an empty
      queue or gone, and no job is in anybody's hands. */
  lemma NobodyMoves(s: State)
    requires Inv(s) && forall w: nat :: !WorkerEnabled(s, w)
    requires SentinelsPut(s) == |s.workers|
    ensures InHands(s.workers, Any) == 0
    ensures |s.workers| > 0 ==> InQueue(s.inq, Any) == 0
    ensures forall w :: 0 <= w < |s.workers| ==> s.workers[w].Exited?
  {
    hide InQueue, InHands, InResults, SentinelsQueued, ExitedCount, JobsFirst, Sound, Counted, Conserved;
    forall w: nat | w < |s.workers| ensures s.workers[w].Exited? || (s.workers[w].Waiting? && s.inq == []) {
      assert !WorkerEnabled(s, w);
    }
    IdleHands(s.workers);
    CountExited(s.workers);
    if s.inq == [] {
      OnlySentinels(s.inq);
    } else if |s.workers| > 0 {
      assert s.workers[0].Exited?;
      OnlySentinels(s.inq);
    }
  }

  /** With at least one worker, or without jobs, no reachable state is stuck. */
  lemma NeverStuck(s: State)
    requires Inv(s) && (|s.workers| > 0 || s.skip == [])
    ensures !Stuck(s)
  {
    hide InQueue, InHands, InResults, Disciplined, Sound;
    assert Places(s, Any) == Expected(Any, Dispatched(s));
    if !CanMove(s) {
      match s.main
      case Dispatching(_) =>
      case Stopping(_) =>
      case Collecting(got) =>
        NobodyMoves(s);
        CountResults(s.outq);
        CountResults(s.collected);
      case Joining(joined) =>
        NobodyMoves(s);
    }
  }

  // ---------------------------------------------------------------------------
  // Termination
  // ---------------------------------------------------------------------------

  ghost function ItemWork(x: Item): nat {
    match x case Real(_) => 4 case Sentinel => 1
  }

  ghost function QueueWork(q: seq<Item>): nat {
    if q == [] then 0 else QueueWork(q[..|q| - 1]) + ItemWork(q[|q| - 1])
  }

  ghost function HandWork(w: Worker): nat {
    match w case Holding(_) => 3 case Running(_) => 2 case _ => 0
  }

  ghost function HandsWork(ws: seq<Worker>): nat {
    if ws == [] then 0 else HandsWork(ws[..|ws| - 1]) + HandWork(ws[|ws| - 1])
  }

  ghost function MainWork(s: State): int {
    var jobs, workers := |s.skip|, |s.workers|;
    match s.main
    case Dispatching(next) => 5 * (jobs - next) + 2 * workers + jobs + workers + 3
    case Stopping(sent) => 2 * (workers - sent) + jobs + workers + 2
    case Collecting(got) => (jobs - got) + workers + 1
    case Joining(joined) => workers - joined
  }

  /** The steps still possible. */
  ghost function Work(s: State): int {
    MainWork(s) + QueueWork(s.inq) + HandsWork(s.workers) + (if s.threadExit then 0 else 1)
  }

  lemma PutWork(q: seq<Item>, x: Item)
    ensures QueueWork(q + [x]) == QueueWork(q) + ItemWork(x)
  {
    assert (q + [x])[..|q|] == q;
  }

  lemma {:induction false} TakeWork(q: seq<Item>)
    requires q != []
    ensures QueueWork(q) == ItemWork(q[0]) + QueueWork(q[1..])
    decreases |q|
  {
    hide ItemWork;
    var m := |q| - 1;
    if m > 0 {
      TakeWork(q[..m]);
      assert q[..m][1..] == q[1..][..m - 1];
      assert q[1..][m - 1] == q[m];
    }
  }

  lemma {:induction false} SetHandWork(ws: seq<Worker>, w: nat, x: Worker)
    requires w < |ws|
    ensures HandsWork(ws[w := x]) + HandWork(ws[w]) == HandsWork(ws) + HandWork(x)
    decreases |ws|
  {
    hide HandWork;
    var m := |ws| - 1;
    var us := ws[w := x];
    if w == m {
      assert us[..m] == ws[..m];
    } else {
      SetHandWork(ws[..m], w, x);
      assert us[..m] == ws[..m][w := x];
    }
  }

  lemma MainWorks(s: State)
    requires Counted(s) && MainEnabled(s)
    ensures Work(MainStep(s)) < Work(s)
  {
    hide QueueWork, HandsWork;
    match s.main
    case Dispatching(next) => PutWork(s.inq, Real(next));
    case Stopping(_) => PutWork(s.inq, Sentinel);
    case _ =>
  }

  lemma WorkerWorks(s: State, w: nat, rc: int)
    requires WorkerEnabled(s, w)
    ensures Work(WorkerStep(s, w, rc)) < Work(s)
  {
    hide QueueWork, HandsWork;
    SetHandWork(s.workers, w, WorkerStep(s, w, rc).workers[w]);
    if s.workers[w].Waiting? {
      TakeWork(s.inq);
    }
  }

  /** Every step, of any thread, uses up work. */
  lemma StepWorks(s: State, step: Step)
    requires Counted(s) && Enabled(s, step)
    ensures Work(Next(s, step)) < Work(s)
  {
    hide Counted, MainEnabled, WorkerEnabled, MainStep, WorkerStep;
    match step
    case MainMoves => MainWorks(s);
    case WorkerMoves(w, rc) => WorkerWorks(s, w, rc);
    case Interrupt => InterruptWorks(s);
  }

  lemma InterruptWorks(s: State)
    requires !s.threadExit
    ensures Work(s.(threadExit := true)) < Work(s)
  {
  }

  lemma WorkIsNotNegative(s: State)
    requires Counted(s)
    ensures Work(s) >= 0
  {
  }

  /** No run is longer than the work it starts with: every run ends. */
  lemma {:induction false} RunsAreBounded(s: State, run: seq<Step>, t: State)
    requires Inv(s) && Runs(s, run, t)
    ensures |run| + Work(t) <= Work(s)
    decreases |run|
  {
    hide Work, Enabled;
    if run != [] {
      var prefix, last := run[..|run| - 1], run[|run| - 1];
      var mid :| Runs(s, prefix, mid) && StepTo(mid, last, t);
      RunsAreBounded(s, prefix, mid);
      ReachableInv(s, prefix, mid);
      StepWorks(mid, last);
    }
  }

  // ---------------------------------------------------------------------------
  // Main results
  // ---------------------------------------------------------------------------

  /** Every dispatched job is delivered exactly once, and with an outcome that fits it: when all threads
      have been joined, the collected results are one per job and nothing is left anywhere. */
  lemma EveryJobOnce(s: State)
    requires Inv(s) && Finished(s)
    ensures |s.collected| == |s.skip|
    ensures forall id: nat :: InResults(s.collected, Only(id)) == if id < |s.skip| then 1 else 0
    ensures forall i :: 0 <= i < |s.collected| ==> OutcomeFits(s, s.collected[i])
    ensures s.inq == [] && s.outq == []
  {
    hide InQueue, InHands, InResults, SentinelsQueued, ExitedCount, JobsFirst;
    AllGone(s.workers);
    CountResults(s.outq);
    CountResults(s.collected);
    assert Places(s, Any) == Expected(Any, |s.skip|);
    forall id: nat ensures InResults(s.collected, Only(id)) == if id < |s.skip| then 1 else 0 {
      assert Places(s, Only(id)) == Expected(Only(id), |s.skip|);
      NothingLeft(s.inq, s.workers, s.outq, Only(id));
    }
    EmptyQueue(s.inq);
  }

  lemma {:induction false} AllGone(ws: seq<Worker>)
    requires forall w :: 0 <= w < |ws| ==> ws[w].Exited?
    ensures ExitedCount(ws) == |ws|
    decreases |ws|
  {
    if ws != [] {
      AllGone(ws[..|ws| - 1]);
    }
  }

  /** A job found nowhere among all jobs is not found as itself. */
  lemma {:induction false} NothingLeft(q: seq<Item>, ws: seq<Worker>, rs: seq<Result>, k: Which)
    requires InQueue(q, Any) == 0 && InHands(ws, Any) == 0 && InResults(rs, Any) == 0
    ensures InQueue(q, k) == 0 && InHands(ws, k) == 0 && InResults(rs, k) == 0
    decreases |q| + |ws|
  {
    CountResults(rs);
    if q != [] {
      NothingLeft(q[..|q| - 1], ws, rs, k);
    } else if ws != [] {
      NothingLeft(q, ws[..|ws| - 1], rs, k);
    }
  }

  lemma {:induction false} EmptyQueue(q: seq<Item>)
    requires InQueue(q, Any) == 0 && SentinelsQueued(q) == 0
    ensures q == []
    decreases |q|
  {
    if q != [] {
      EmptyQueue(q[..|q| - 1]);
    }
  }

  /** A stuck state is reachable exactly when there are jobs but no worker. */
  lemma StuckExactlyWithoutWorkers(skip: seq<bool>, processors: nat)
    ensures (exists run, t :: Runs(Initial(skip, processors), run, t) && Stuck(t)) <==> processors == 0 && skip != []
  {
    hide Runs, Inv, Stuck;
    var s := Initial(skip, processors);
    InitialInv(skip, processors);
    if processors == 0 && skip != [] {
      var run, t := RunToCollecting(skip);
    }
    forall run, t | Runs(s, run, t) && Stuck(t) ensures processors == 0 && skip != [] {
      ReachableInv(s, run, t);
      if processors > 0 || skip == [] {
        NeverStuck(t);
      }
    }
  }

  lemma OneMoreStep(s: State, run: seq<Step>, mid: State, step: Step)
    requires Runs(s, run, mid) && Enabled(mid, step)
    ensures Runs(s, run + [step], Next(mid, step))
  {
    hide Enabled, Next;
    var longer := run + [step];
    assert longer[..|longer| - 1] == run && longer[|longer| - 1] == step;
    assert StepTo(mid, step, Next(mid, step));
  }

  lemma {:induction false} RunOfDispatches(skip: seq<bool>, n: nat) returns (run: seq<Step>, t: State)
    requires n <= |skip|
    ensures Runs(Initial(skip, 0), run, t)
    ensures t == Initial(skip, 0).(inq := t.inq, main := Dispatching(n))
  {
    if n == 0 {
      run, t := [], Initial(skip, 0);
    } else {
      hide Runs;
      run, t := RunOfDispatches(skip, n - 1);
      OneMoreStep(Initial(skip, 0), run, t, MainMoves);
      run, t := run + [MainMoves], MainStep(t);
    }
  }

  lemma RunToCollecting(skip: seq<bool>) returns (run: seq<Step>, t: State)
    requires skip != []
    ensures Runs(Initial(skip, 0), run, t) && Stuck(t)
  {
    hide Runs;
    run, t := RunOfDispatches(skip, |skip|);
    OneMoreStep(Initial(skip, 0), run, t, MainMoves);
    run, t := run + [MainMoves], MainStep(t);
    OneMoreStep(Initial(skip, 0), run, t, MainMoves);
    run, t := run + [MainMoves], MainStep(t);
  }

  /** The whole protocol: with at least one worker, or no jobs, a run that cannot go on has joined all
      threads, has delivered every job exactly once, and took no more steps than there was work. */
  lemma PoolCompletes(skip: seq<bool>, processors: nat, run: seq<Step>, t: State)
    requires processors > 0 || skip == []
    requires Runs(Initial(skip, processors), run, t) && !CanMove(t)
    ensures Finished(t) && t.skip == skip
    ensures forall id: nat :: InResults(t.collected, Only(id)) == if id < |skip| then 1 else 0
    ensures forall i :: 0 <= i < |t.collected| ==> OutcomeFits(t, t.collected[i])
    ensures |run| <= Work(Initial(skip, processors))
  {
    hide Runs, Inv, CanMove, Finished, InResults, Work, Counted;
    var s := Initial(skip, processors);
    InitialInv(skip, processors);
    ReachableInv(s, run, t);
    NeverStuck(t);
    EveryJobOnce(t);
    RunsAreBounded(s, run, t);
    CountedOf(t);
    WorkIsNotNegative(t);
  }

  lemma CountedOf(s: State)
    requires Inv(s)
    ensures Counted(s)
  {
  }

  // ---------------------------------------------------------------------------
  // The collector's tally and the exit code
  // ---------------------------------------------------------------------------

  datatype Status = PASS | FAIL | VALGR | CRASH | SKIP | BREAK

  function StatusOf(r: Result): Status {
    match r.outcome
    case Broken => BREAK
    case Skipped => SKIP
    case Ran(rc) => if rc == 0 then PASS else if rc == 1 then FAIL else if rc == 2 then VALGR else CRASH
  }

  ghost function Tally(rs: seq<Result>, st: Status): nat {
    if rs == [] then 0 else Tally(rs[..|rs| - 1], st) + (if StatusOf(rs[|rs| - 1]) == st then 1 else 0)
  }

  lemma TallyNext(rs: seq<Result>, i: nat, st: Status)
    requires i < |rs|
    ensures Tally(rs[..0], st) == 0
    ensures Tally(rs[..i + 1], st) == Tally(rs[..i], st) + if StatusOf(rs[i]) == st then 1 else 0
  {
    assert rs[..i + 1][..i] == rs[..i];
  }

  lemma TallyNone(st: Status)
    ensures Tally([], st) == 0
  {
  }

  ghost function Under(rs: seq<Result>, st: Status): (r: set<nat>) {
    set i: nat | i < |rs| && StatusOf(rs[i]) == st
  }

  lemma UnderNext(rs: seq<Result>, st: Status)
    ensures rs == [] ==> Under(rs, st) == {}
    ensures rs != [] ==>
              var m := |rs| - 1;
              && Under(rs, st) == Under(rs[..m], st) + (if StatusOf(rs[m]) == st then {m} else {})
              && m !in Under(rs[..m], st)
  {
    hide StatusOf;
  }

  lemma {:induction false} TallyIsSize(rs: seq<Result>, st: Status)
    ensures Tally(rs, st) == |Under(rs, st)|
    decreases |rs|
  {
    hide StatusOf, Under;
    UnderNext(rs, st);
    if rs != [] {
      TallyIsSize(rs[..|rs| - 1], st);
    }
  }

  ghost function Returned(rs: seq<Result>, returncode: int): (r: set<nat>) {
    set i: nat | i < |rs| && rs[i].outcome == Ran(returncode)
  }

  ghost function ReturnedAnother(rs: seq<Result>): (r: set<nat>) {
    set i: nat | i < |rs| && rs[i].outcome.Ran? && rs[i].outcome.returncode !in {0, 1, 2}
  }

  ghost function MarkedSkipped(rs: seq<Result>): (r: set<nat>) {
    set i: nat | i < |rs| && rs[i].outcome.Skipped?
  }

  /** What is tallied under each status: return code 0 is a pass, 1 a failure, 2 a complaint of valgrind, and
      any other a crash; a job broken off counts nowhere. */
  lemma TalliesByReturnCode(rs: seq<Result>)
    ensures Tally(rs, PASS) == |Returned(rs, 0)|
    ensures Tally(rs, FAIL) == |Returned(rs, 1)|
    ensures Tally(rs, VALGR) == |Returned(rs, 2)|
    ensures Tally(rs, CRASH) == |ReturnedAnother(rs)|
    ensures Tally(rs, SKIP) == |MarkedSkipped(rs)|
  {
    hide Tally;
    forall st ensures Tally(rs, st) == |Under(rs, st)| {
      TallyIsSize(rs, st);
    }
    assert Under(rs, PASS) == Returned(rs, 0) && Under(rs, FAIL) == Returned(rs, 1) && Under(rs, VALGR) == Returned(rs, 2);
    assert Under(rs, CRASH) == ReturnedAnother(rs) && Under(rs, SKIP) == MarkedSkipped(rs);
  }

  /** Tallies the results in the order they arrive.  The run succeeds exactly when every result is a
      pass or a skip; a job broken off by an interrupt is tallied nowhere, and so fails the run. */
  method Collect(results: seq<Result>) returns (tallies: map<Status, nat>, exitCode: int)
    ensures tallies.Keys == {PASS, FAIL, VALGR, CRASH, SKIP}
    ensures forall st :: st in tallies ==> tallies[st] == Tally(results, st)
    ensures exitCode == 0 || exitCode == 1
    ensures exitCode == 0 <==> forall i :: 0 <= i < |results| ==> results[i].outcome in {Ran(0), Skipped}
    ensures exitCode == 0 <==> forall i :: 0 <= i < |results| ==> StatusOf(results[i]) in {PASS, SKIP}
  {
    hide Tally;
    var total := |results|;
    var passed, failed, valgrind, crashed, skipped := 0, 0, 0, 0, 0;
    forall st ensures Tally(results[..0], st) == 0 { TallyNone(st); }
    for i := 0 to |results|
      invariant passed == Tally(results[..i], PASS) && failed == Tally(results[..i], FAIL)
      invariant valgrind == Tally(results[..i], VALGR) && crashed == Tally(results[..i], CRASH)
      invariant skipped == Tally(results[..i], SKIP)
      invariant passed + skipped <= i
      invariant passed + skipped == i <==> forall j :: 0 <= j < i ==> StatusOf(results[j]) in {PASS, SKIP}
    {
      forall st ensures Tally(results[..i + 1], st) == Tally(results[..i], st) + if StatusOf(results[i]) == st then 1 else 0 {
        TallyNext(results, i, st);
      }
      match results[i].outcome {
        case Broken =>
        case Skipped => skipped := skipped + 1;
        case Ran(rc) =>
          if rc == 0 {
            passed := passed + 1;
          } else if rc == 1 {
            failed := failed + 1;
          } else if rc == 2 {
            valgrind := valgrind + 1;
          } else {
            crashed := crashed + 1;
          }
      }
    }
    assert results[..|results|] == results;
    tallies := map[PASS := passed, FAIL := failed, VALGR := valgrind, CRASH := crashed, SKIP := skipped];
    exitCode := if passed + skipped == total then 0 else 1;
  }

  // ---------------------------------------------------------------------------
  // What a finished run reports
  // ---------------------------------------------------------------------------

  /** The interrupt flag is up exactly when an interrupt has happened. */
  lemma {:induction false} FlagTellsInterrupt(s: State, run: seq<Step>, t: State)
    requires Runs(s, run, t)
    ensures t.threadExit <==> s.threadExit || Interrupt in run
    decreases |run|
  {
    hide MainEnabled, WorkerEnabled;
    if run != [] {
      var prefix, last := run[..|run| - 1], run[|run| - 1];
      assert run == prefix + [last];
      var mid :| Runs(s, prefix, mid) && StepTo(mid, last, t);
      FlagTellsInterrupt(s, prefix, mid);
      match last {
        case WorkerMoves(w, rc) => WorkerKeepsFlag(mid, w, rc);
        case _ =>
      }
    }
  }

  lemma WorkerKeepsFlag(s: State, w: nat, rc: int)
    requires WorkerEnabled(s, w)
    ensures WorkerStep(s, w, rc).threadExit == s.threadExit
  {
  }

  /** The result of a job is on record. */
  ghost predicate Reported(rs: seq<Result>, id: nat, outcome: Outcome) {
    Result(id, outcome) in rs
  }

  ghost predicate HasResult(rs: seq<Result>, id: nat) {
    exists i :: 0 <= i < |rs| && rs[i].id == id
  }

  lemma {:induction false} CountedMeansPresent(rs: seq<Result>, id: nat)
    requires InResults(rs, Only(id)) > 0
    ensures HasResult(rs, id)
    decreases |rs|
  {
    var m := |rs| - 1;
    if rs[m].id != id {
      CountedMeansPresent(rs[..m], id);
      var i :| 0 <= i < |rs[..m]| && rs[..m][i].id == id;
      assert rs[i].id == id;
    }
  }

  lemma {:induction false} PresentMeansCounted(rs: seq<Result>, i: nat)
    requires i < |rs|
    ensures InResults(rs, Only(rs[i].id)) > 0
    decreases |rs|
  {
    if i < |rs| - 1 {
      PresentMeansCounted(rs[..|rs| - 1], i);
    }
  }

  /** Of two results of one job, the job is counted twice. */
  lemma {:induction false} TwiceReported(rs: seq<Result>, i: nat, j: nat)
    requires i < j < |rs| && rs[i].id == rs[j].id
    ensures InResults(rs, Only(rs[i].id)) >= 2
    decreases |rs|
  {
    if j < |rs| - 1 {
      TwiceReported(rs[..|rs| - 1], i, j);
    } else {
      PresentMeansCounted(rs[..|rs| - 1], i);
    }
  }

  /** One result for each job: the list of results is indexed by the jobs. */
  lemma ResultsAreOnePerJob(skip: seq<bool>, rs: seq<Result>)
    requires forall id: nat :: InResults(rs, Only(id)) == if id < |skip| then 1 else 0
    ensures forall id: nat :: id < |skip| ==> HasResult(rs, id)
    ensures forall i :: 0 <= i < |rs| ==> rs[i].id < |skip|
    ensures forall i, j :: 0 <= i < j < |rs| ==> rs[i].id != rs[j].id
  {
    hide InResults;
    forall id: nat | id < |skip| ensures HasResult(rs, id) {
      CountedMeansPresent(rs, id);
    }
    forall i | 0 <= i < |rs| ensures rs[i].id < |skip| {
      PresentMeansCounted(rs, i);
    }
    forall i, j | 0 <= i < j < |rs| ensures rs[i].id != rs[j].id {
      if rs[i].id == rs[j].id { TwiceReported(rs, i, j); }
    }
  }

  /** What a job has to report for the run to succeed. */
  function Success(skip: bool): Outcome {
    if skip then Skipped else Ran(0)
  }

  /** One result for each job, with an outcome that fits. */
  ghost predicate OneResultEach(t: State) {
    && (forall id: nat :: id < |t.skip| ==> HasResult(t.collected, id))
    && (forall i :: 0 <= i < |t.collected| ==> OutcomeFits(t, t.collected[i]))
    && (forall i, j :: 0 <= i < j < |t.collected| ==> t.collected[i].id != t.collected[j].id)
  }

  lemma GoodResult(t: State, r: Result)
    requires OutcomeFits(t, r)
    ensures r.id < |t.skip| && (StatusOf(r) in {PASS, SKIP} <==> r.outcome == Success(t.skip[r.id]))
  {
  }

  lemma GoodResultsSucceed(t: State)
    requires OneResultEach(t) && forall i :: 0 <= i < |t.collected| ==> StatusOf(t.collected[i]) in {PASS, SKIP}
    ensures forall id: nat :: id < |t.skip| ==> Reported(t.collected, id, Success(t.skip[id]))
  {
    hide OutcomeFits, StatusOf, Success;
    var rs := t.collected;
    forall id: nat | id < |t.skip| ensures Reported(rs, id, Success(t.skip[id])) {
      assert HasResult(rs, id);
      var i :| 0 <= i < |rs| && rs[i].id == id;
      GoodResult(t, rs[i]);
      assert rs[i] == Result(id, Success(t.skip[id]));
    }
  }

  lemma SuccessesAreGood(t: State)
    requires OneResultEach(t) && forall id: nat :: id < |t.skip| ==> Reported(t.collected, id, Success(t.skip[id]))
    ensures forall i :: 0 <= i < |t.collected| ==> StatusOf(t.collected[i]) in {PASS, SKIP}
  {
    hide OutcomeFits, StatusOf, Success;
    var rs := t.collected;
    forall i | 0 <= i < |rs| ensures StatusOf(rs[i]) in {PASS, SKIP} {
      GoodResult(t, rs[i]);
      var id := rs[i].id;
      assert Reported(rs, id, Success(t.skip[id]));
      var j :| 0 <= j < |rs| && rs[j] == Result(id, Success(t.skip[id]));
      assert i == j;
    }
  }

  /** All results are passes or skips exactly when every job reports its success: marked jobs that they
      were skipped, all others that they returned 0. */
  lemma AllGoodMeansAllSucceed(t: State)
    requires forall id: nat :: InResults(t.collected, Only(id)) == if id < |t.skip| then 1 else 0
    requires forall i :: 0 <= i < |t.collected| ==> OutcomeFits(t, t.collected[i])
    ensures (forall i :: 0 <= i < |t.collected| ==> StatusOf(t.collected[i]) in {PASS, SKIP})
            <==> forall id: nat :: id < |t.skip| ==> Reported(t.collected, id, Success(t.skip[id]))
  {
    hide InResults, OutcomeFits, StatusOf, Success, Reported, HasResult;
    ResultsAreOnePerJob(t.skip, t.collected);
    assert OneResultEach(t);
    if forall i :: 0 <= i < |t.collected| ==> StatusOf(t.collected[i]) in {PASS, SKIP} {
      GoodResultsSucceed(t);
    }
    if forall id: nat :: id < |t.skip| ==> Reported(t.collected, id, Success(t.skip[id])) {
      SuccessesAreGood(t);
    }
  }

  /** A complete run without an interrupt: every job has one result, marked jobs are skipped and all
      others have been run. */
  lemma UninterruptedOutcomes(skip: seq<bool>, processors: nat, run: seq<Step>, t: State)
    requires processors > 0 || skip == []
    requires Runs(Initial(skip, processors), run, t) && !CanMove(t) && Interrupt !in run
    ensures |t.collected| == |skip|
    ensures forall i :: 0 <= i < |t.collected| ==>
              && t.collected[i].id < |skip|
              && (t.collected[i].outcome.Skipped? <==> skip[t.collected[i].id])
              && (t.collected[i].outcome.Ran? <==> !skip[t.collected[i].id])
    ensures forall i, j :: 0 <= i < j < |t.collected| ==> t.collected[i].id != t.collected[j].id
  {
    hide Runs, CanMove, Finished, InResults, Work, Inv;
    PoolCompletes(skip, processors, run, t);
    FlagTellsInterrupt(Initial(skip, processors), run, t);
    ResultsAreOnePerJob(skip, t.collected);
    EverythingCollected(skip, processors, run, t);
  }

  lemma EverythingCollected(skip: seq<bool>, processors: nat, run: seq<Step>, t: State)
    requires Runs(Initial(skip, processors), run, t) && Finished(t)
    ensures |t.collected| == |t.skip|
  {
    hide Runs, InResults, Conserved, Disciplined, Sound;
    InitialInv(skip, processors);
    ReachableInv(Initial(skip, processors), run, t);
  }

  // ---------------------------------------------------------------------------
  // What an interrupt does
  // ---------------------------------------------------------------------------

  ghost predicate IsRunning(s: State, id: nat) {
    exists w :: 0 <= w < |s.workers| && s.workers[w] == Running(id)
  }

  /** The result has been reported, whether it is collected yet or not. */
  ghost predicate Delivered(s: State, r: Result) {
    r in s.outq || r in s.collected
  }

  /** What may be reported after the flag was up in `s`: what had been reported, the outcome of a job that
      was running then, and for every other job that it was broken off. */
  ghost predicate Allowed(s: State, r: Result) {
    Delivered(s, r) || r.outcome.Broken? || (r.outcome.Ran? && IsRunning(s, r.id))
  }

  /** `t` comes after the flag was up in `s`. */
  ghost predicate AfterInterrupt(s: State, t: State) {
    && t.threadExit && |t.workers| == |s.workers|
    && (forall w, id: nat :: 0 <= w < |t.workers| && t.workers[w] == Running(id) ==> s.workers[w] == Running(id))
    && (forall r :: Delivered(t, r) ==> Allowed(s, r))
  }

  lemma AfterInterruptStep(s: State, mid: State, step: Step)
    requires AfterInterrupt(s, mid) && Enabled(mid, step)
    ensures AfterInterrupt(s, Next(mid, step))
  {
    hide Allowed, MainEnabled;
    match step
    case MainMoves => MainDelivers(mid); MainKeepsWorkers(mid);
    case WorkerMoves(w, rc) => WorkerDelivers(mid, w, rc); WorkerAfterInterrupt(s, mid, w, rc);
    case Interrupt =>
  }

  lemma MainKeepsWorkers(s: State)
    requires MainEnabled(s)
    ensures MainStep(s).workers == s.workers && MainStep(s).threadExit == s.threadExit
  {
  }

  lemma MainDelivers(s: State)
    requires MainEnabled(s)
    ensures forall r :: Delivered(MainStep(s), r) <==> Delivered(s, r)
  {
    if s.main.Collecting? && s.main.got < |s.skip| {
      assert s.outq == [s.outq[0]] + s.outq[1..];
    }
  }

  /** What worker `w` reports by its step, if anything. */
  ghost function Report(s: State, w: nat, rc: int): seq<Result>
    requires WorkerEnabled(s, w)
  {
    WorkerStep(s, w, rc).outq[|s.outq|..]
  }

  lemma WorkerDelivers(s: State, w: nat, rc: int)
    requires WorkerEnabled(s, w)
    ensures |Report(s, w, rc)| <= 1
    ensures forall r :: Delivered(WorkerStep(s, w, rc), r) <==> Delivered(s, r) || r in Report(s, w, rc)
  {
    var t := WorkerStep(s, w, rc);
    assert t.outq == s.outq + Report(s, w, rc) && t.collected == s.collected;
  }

  lemma WorkerAfterInterrupt(s: State, mid: State, w: nat, rc: int)
    requires AfterInterrupt(s, mid) && WorkerEnabled(mid, w)
    ensures var t := WorkerStep(mid, w, rc);
            && t.threadExit && |t.workers| == |s.workers|
            && (forall v, id: nat :: 0 <= v < |t.workers| && t.workers[v] == Running(id) ==> s.workers[v] == Running(id))
            && forall r :: r in Report(mid, w, rc) ==> Allowed(s, r)
  {
    hide Delivered;
    var t := WorkerStep(mid, w, rc);
    match mid.workers[w]
    case Running(id) =>
      assert s.workers[w] == Running(id);
      assert Report(mid, w, rc) == [Result(id, Ran(rc))];
    case Holding(id) => assert Report(mid, w, rc) == [Result(id, Broken)];
    case Waiting => assert Report(mid, w, rc) == [];
    case Exited =>
  }

  /** Once the flag is up no job is started any more: a job is run only if it was running then, and every
      other job that had not been reported is reported as broken off, whether it is marked or not. */
  lemma {:induction false} NothingStartsAfterInterrupt(s: State, run: seq<Step>, t: State)
    requires Runs(s, run, t) && s.threadExit
    ensures AfterInterrupt(s, t)
    decreases |run|
  {
    hide AfterInterrupt, Enabled;
    if run == [] {
      InterruptedNow(s);
    } else {
      var prefix, last := run[..|run| - 1], run[|run| - 1];
      var mid :| Runs(s, prefix, mid) && StepTo(mid, last, t);
      NothingStartsAfterInterrupt(s, prefix, mid);
      AfterInterruptStep(s, mid, last);
    }
  }

  lemma InterruptedNow(s: State)
    requires s.threadExit
    ensures AfterInterrupt(s, s)
  {
  }

  /** A result once reported stays. */
  lemma {:induction false} ReportsStay(s: State, run: seq<Step>, t: State, r: Result)
    requires Runs(s, run, t) && Delivered(s, r)
    ensures Delivered(t, r)
    decreases |run|
  {
    hide Enabled, Delivered;
    if run != [] {
      var prefix, last := run[..|run| - 1], run[|run| - 1];
      var mid :| Runs(s, prefix, mid) && StepTo(mid, last, t);
      ReportsStay(s, prefix, mid, r);
      ReportStays(mid, last, r);
    }
  }

  lemma ReportStays(s: State, step: Step, r: Result)
    requires Enabled(s, step) && Delivered(s, r)
    ensures Delivered(Next(s, step), r)
  {
    hide Delivered, MainEnabled, WorkerEnabled;
    match step
    case MainMoves => MainDelivers(s);
    case WorkerMoves(w, rc) => WorkerDelivers(s, w, rc);
    case Interrupt => assert Delivered(s.(threadExit := true), r) by { KeptByInterrupt(s, r); }
  }

  lemma KeptByInterrupt(s: State, r: Result)
    requires Delivered(s, r)
    ensures Delivered(s.(threadExit := true), r)
  {
  }

  /** An interrupt in `s` leaves a job undone: it is neither running nor reported. */
  ghost predicate Undone(s: State, id: nat) {
    && !IsRunning(s, id)
    && (forall r :: Delivered(s, r) ==> r.id != id)
  }

  /** `s` lies on a run from the start to `t`. */
  ghost predicate PassesThrough(skip: seq<bool>, processors: nat, s: State, t: State) {
    && (exists before :: Runs(Initial(skip, processors), before, s))
    && (exists after :: Runs(s, after, t))
  }

  /** The job has reported its success in `s`, or was running in `s` and returned 0. */
  ghost predicate EndsWell(s: State, t: State, id: nat)
    requires id < |s.skip|
  {
    || Delivered(s, Result(id, Success(s.skip[id])))
    || (IsRunning(s, id) && Reported(t.collected, id, Ran(0)))
  }

  lemma RunningIsUnmarked(s: State, id: nat)
    requires Inv(s) && IsRunning(s, id)
    ensures id < |s.skip| && !s.skip[id]
  {
    var w :| 0 <= w < |s.workers| && s.workers[w] == Running(id);
    assert WorkerFits(s, s.workers[w]);
  }

  lemma FinishedDelivers(t: State)
    requires Inv(t) && Finished(t)
    ensures forall r :: Delivered(t, r) <==> r in t.collected
  {
    hide InQueue, InHands, InResults, OutcomeFits;
    EveryJobOnce(t);
  }

  /** A complete run through a state `s` with the flag up. */
  lemma InterruptedRun(skip: seq<bool>, processors: nat, s: State, t: State)
    requires processors > 0 || skip == []
    requires PassesThrough(skip, processors, s, t) && s.threadExit && !CanMove(t)
    ensures s.skip == t.skip == skip && Inv(s) && AfterInterrupt(s, t)
    ensures forall r :: Delivered(s, r) ==> r in t.collected
    ensures forall r :: r in t.collected ==> Allowed(s, r)
    ensures forall id: nat :: id < |skip| ==> HasResult(t.collected, id)
  {
    hide Runs, Inv, CanMove, Finished, InResults, Work, AfterInterrupt, Delivered, Allowed, OutcomeFits, HasResult;
    var before :| Runs(Initial(skip, processors), before, s);
    var after :| Runs(s, after, t);
    InitialInv(skip, processors);
    ReachableInv(Initial(skip, processors), before, s);
    ReachableInv(s, after, t);
    NeverStuck(t);
    FinishedDelivers(t);
    EveryJobOnce(t);
    ResultsAreOnePerJob(skip, t.collected);
    NothingStartsAfterInterrupt(s, after, t);
    forall r | Delivered(s, r) ensures r in t.collected {
      ReportsStay(s, after, t, r);
    }
    AllowedAfter(s, t);
  }

  lemma AllowedAfter(s: State, t: State)
    requires AfterInterrupt(s, t)
    ensures forall r :: Delivered(t, r) ==> Allowed(s, r)
  {
  }

  /** Every job that an interrupt finds undone is reported as broken off. */
  lemma InterruptBreaksOff(skip: seq<bool>, processors: nat, s: State, t: State, id: nat)
    requires processors > 0 || skip == []
    requires PassesThrough(skip, processors, s, t) && s.threadExit && !CanMove(t)
    requires id < |skip| && Undone(s, id)
    ensures Reported(t.collected, id, Broken)
  {
    hide PassesThrough, CanMove, Inv, AfterInterrupt;
    InterruptedRun(skip, processors, s, t);
    assert HasResult(t.collected, id);
    var i :| 0 <= i < |t.collected| && t.collected[i].id == id;
    assert Allowed(s, t.collected[i]);
    assert t.collected[i] == Result(id, Broken);
  }

  /** An interrupted run succeeds exactly when every job had reported its success before the interrupt, or
      was running at that moment and returned 0. */
  lemma InterruptedRunSucceeds(skip: seq<bool>, processors: nat, s: State, t: State)
    requires processors > 0 || skip == []
    requires PassesThrough(skip, processors, s, t) && s.threadExit && !CanMove(t)
    ensures s.skip == skip
    ensures (forall id: nat :: id < |skip| ==> Reported(t.collected, id, Success(skip[id])))
            <==> forall id: nat :: id < |skip| ==> EndsWell(s, t, id)
  {
    hide PassesThrough, CanMove, Inv, AfterInterrupt, HasResult;
    InterruptedRun(skip, processors, s, t);
    forall id: nat | id < |skip| ensures Reported(t.collected, id, Success(skip[id])) <==> EndsWell(s, t, id) {
      if IsRunning(s, id) { RunningIsUnmarked(s, id); }
      if Reported(t.collected, id, Success(skip[id])) {
        assert Allowed(s, Result(id, Success(skip[id])));
      }
    }
  }

  /** The exit code of a complete run, in any interleaving and with an interrupt at any moment: 0 exactly
      when every job reports its success.  An interrupt that finds a job neither running nor reported fails
      the run. */
  method ExitCode(ghost skip: seq<bool>, ghost processors: nat, ghost run: seq<Step>, ghost t: State, collected: seq<Result>)
    returns (exitCode: int)
    requires processors > 0 || skip == []
    requires Runs(Initial(skip, processors), run, t) && !CanMove(t) && collected == t.collected
    ensures exitCode == 0 || exitCode == 1
    ensures exitCode == 0 <==> forall id: nat :: id < |skip| ==> Reported(collected, id, Success(skip[id]))
    ensures forall s, id: nat ::
              PassesThrough(skip, processors, s, t) && s.threadExit && id < |skip| && Undone(s, id) ==> exitCode == 1
  {
    hide Runs, CanMove, Finished, InResults, Work, Reported, Success, PassesThrough, Undone;
    var tallies;
    tallies, exitCode := Collect(collected);
    PoolCompletes(skip, processors, run, t);
    AllGoodMeansAllSucceed(t);
    forall s, id: nat | PassesThrough(skip, processors, s, t) && s.threadExit && id < |skip| && Undone(s, id)
      ensures exitCode == 1
    {
      InterruptBreaksOff(skip, processors, s, t, id);
      BrokenIsNoSuccess(t, id);
    }
  }

  lemma BrokenIsNoSuccess(t: State, id: nat)
    requires Reported(t.collected, id, Broken)
    ensures exists i :: 0 <= i < |t.collected| && StatusOf(t.collected[i]) !in {PASS, SKIP}
  {
    var i :| 0 <= i < |t.collected| && t.collected[i] == Result(id, Broken);
    assert StatusOf(t.collected[i]) == BREAK;
  }

  // ---------------------------------------------------------------------------
  // The number of workers
  // ---------------------------------------------------------------------------

  /** The processors detected, or fewer by the limit; a limit of 0 is none, and a negative number of
      workers is no worker. */
  function Workers(detected: int, processLimit: int): nat {
    var n := if processLimit == 0 || detected < processLimit then detected else processLimit;
    if n > 0 then n else 0
  }

  /** Starts the workers, one for each number below the limited count. */
  method StartWorkers(detected: int, processLimit: int) returns (threads: seq<Worker>)
    ensures threads == Initial([], Workers(detected, processLimit)).workers
  {
    var processors := detected;
    if processLimit != 0 {
      if !(processors < processLimit) {
        processors := processLimit;
      }
    }
    threads := [];
    var i := 0;
    while i < processors
      invariant 0 <= i && (i <= processors || i == 0) && |threads| == i
      invariant forall w :: 0 <= w < i ==> threads[w] == Waiting
    {
      threads := threads + [Waiting];
      i := i + 1;
    }
  }

  /** On a machine with processors the runner can wait for ever exactly when it has jobs and was given a
      negative limit; any other limit leaves between one worker and as many as there are processors. */
  lemma WaitsForEverByNegativeLimit(skip: seq<bool>, detected: int, processLimit: int)
    requires detected > 0
    ensures (exists run, t :: Runs(Initial(skip, Workers(detected, processLimit)), run, t) && Stuck(t))
            <==> processLimit < 0 && skip != []
    ensures processLimit >= 0 ==> 0 < Workers(detected, processLimit) <= detected
    ensures 0 < processLimit <= detected ==> Workers(detected, processLimit) == processLimit
    ensures processLimit == 0 || processLimit > detected ==> Workers(detected, processLimit) == detected
  {
    hide Runs, Stuck, Initial;
    StuckExactlyWithoutWorkers(skip, Workers(detected, processLimit));
  }
}
