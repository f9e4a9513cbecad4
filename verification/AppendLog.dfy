/** Promotion of staged rows to shared CSV files: any number of worker processes append to the same
    files, each under an exclusive lock, writing the header when the file is found empty. */
module AppendLog {
  import opened Finite

  /** Where a worker is with its current file. */
  datatype Phase = Ready | Opened | Locked | Sized(size: nat) | HeaderDone | BodyDone

  /** A worker goes through the files in order; it is done when `file` is past the last one. */
  datatype Worker = Worker(file: nat, phase: Phase)

  /** `headers[f]` is the header line of file `f`, `bodies(w, f)` what worker `w` appends to it (nothing
      when empty).  `before[f]` is what file `f` held at the start. */
  datatype Setup = Setup(headers: seq<string>, before: seq<string>, workers: nat, bodies: (nat, nat) -> string) {
    ghost predicate Valid() {
      |before| == |headers|
    }
  }

  /** `order[f]` records which workers have completed their append to file `f`, in the order they held
      the lock, and `failed` which appends were given up because opening or locking failed. */
  datatype State = State(
    files: seq<string>,
    lock: seq<Option<nat>>,
    workers: seq<Worker>,
    order: seq<seq<nat>>,
    failed: set<(nat, nat)>)

  function Initial(c: Setup): State {
    State(c.before, seq(|c.headers|, _ => None), seq(c.workers, _ => Worker(0, Ready)), seq(|c.headers|, _ => []), {})
  }

  ghost predicate WellShaped(c: Setup, s: State) {
    && c.Valid()
    && |s.files| == |s.lock| == |s.order| == |c.headers|
    && |s.workers| == c.workers
    && forall w :: 0 <= w < |s.workers| ==> s.workers[w].file <= |c.headers|
                                            && (s.workers[w].file == |c.headers| ==> s.workers[w].phase.Ready?)
  }

  // ---------------------------------------------------------------------------
  // Steps
  // ---------------------------------------------------------------------------

  /** `ok` is whether an open or lock call succeeds; a lock call that succeeds waits for the lock. */
  ghost predicate Enabled(c: Setup, s: State, w: nat, ok: bool) {
    && WellShaped(c, s) && w < |s.workers| && s.workers[w].file < |c.headers|
    && (s.workers[w].phase.Opened? && ok ==> s.lock[s.workers[w].file].None?)
  }

  function SetWorker(s: State, w: nat, x: Worker): State
    requires w < |s.workers|
  {
    s.(workers := s.workers[w := x])
  }

  function Append(s: State, f: nat, text: string): State
    requires f < |s.files|
  {
    s.(files := s.files[f := s.files[f] + text])
  }

  ghost function Step(c: Setup, s: State, w: nat, ok: bool): State
    requires Enabled(c, s, w, ok)
  {
    var f := s.workers[w].file;
    match s.workers[w].phase
    case Ready =>
      if c.bodies(w, f) == "" then SetWorker(s, w, Worker(f + 1, Ready))
      else if ok then SetWorker(s, w, Worker(f, Opened))
      else SetWorker(s, w, Worker(f + 1, Ready)).(failed := s.failed + {(w, f)})
    case Opened =>
      if ok then SetWorker(s, w, Worker(f, Locked)).(lock := s.lock[f := Some(w)])
      else SetWorker(s, w, Worker(f + 1, Ready)).(failed := s.failed + {(w, f)})
    case Locked => SetWorker(s, w, Worker(f, Sized(|s.files[f]|)))
    case Sized(size) =>
      var t := SetWorker(s, w, Worker(f, HeaderDone));
      if size == 0 && c.headers[f] != "" then Append(t, f, c.headers[f]) else t
    case HeaderDone => Append(SetWorker(s, w, Worker(f, BodyDone)), f, c.bodies(w, f))
    case BodyDone =>
      SetWorker(s, w, Worker(f + 1, Ready)).(lock := s.lock[f := None], order := s.order[f := s.order[f] + [w]])
  }

  datatype Move = Move(w: nat, ok: bool)

  ghost predicate StepTo(c: Setup, s: State, m: Move, t: State) {
    Enabled(c, s, m.w, m.ok) && Step(c, s, m.w, m.ok) == t
  }

  /** `t` is reached from `s` by the moves `run`, in any interleaving of the workers. */
  ghost predicate Runs(c: Setup, s: State, run: seq<Move>, t: State)
    decreases |run|
  {
    if run == [] then s == t else
      var prefix, last := run[..|run| - 1], run[|run| - 1];
      exists mid :: Runs(c, s, prefix, mid) && StepTo(c, mid, last, t)
  }

  // ---------------------------------------------------------------------------
  // What a file holds
  // ---------------------------------------------------------------------------

  /** The bodies of the workers `ws`, one after the other. */
  ghost function Bodies(c: Setup, f: nat, ws: seq<nat>): string {
    if ws == [] then "" else Bodies(c, f, ws[..|ws| - 1]) + c.bodies(ws[|ws| - 1], f)
  }

  /** The start of the file once somebody writes to it: the header if the file was empty. */
  ghost function Head(c: Setup, f: nat): string
    requires f < |c.headers| && f < |c.before|
  {
    if c.before[f] == "" then c.headers[f] else c.before[f]
  }

  /** A file with the appends of `ws` completed: as before, or its head and then whole bodies. */
  ghost function Content(c: Setup, f: nat, ws: seq<nat>): string
    requires f < |c.headers| && f < |c.before|
  {
    if ws == [] then c.before[f] else Head(c, f) + Bodies(c, f, ws)
  }

  /** The same while the lock holder is in the given phase. */
  ghost function ContentDuring(c: Setup, f: nat, ws: seq<nat>, w: nat, phase: Phase): string
    requires f < |c.headers| && f < |c.before|
  {
    match phase
    case HeaderDone => if ws == [] then Head(c, f) else Content(c, f, ws)
    case BodyDone => Content(c, f, ws + [w])
    case _ => Content(c, f, ws)
  }

  ghost predicate InCriticalSection(x: Worker) {
    !x.phase.Ready? && !x.phase.Opened?
  }

  ghost predicate FileValid(c: Setup, s: State, f: nat)
    requires WellShaped(c, s) && f < |c.headers|
  {
    match s.lock[f]
    case None => s.files[f] == Content(c, f, s.order[f])
    case Some(w) =>
      && w < |s.workers| && s.workers[w].file == f && InCriticalSection(s.workers[w])
      && s.files[f] == ContentDuring(c, f, s.order[f], w, s.workers[w].phase)
      && (s.workers[w].phase.Sized? ==> s.workers[w].phase.size == |s.files[f]|)
  }

  /** A worker past the point of opening has something to append, and holds the lock exactly when it is
      inside the critical section. */
  ghost predicate WorkerValid(c: Setup, s: State, w: nat)
    requires WellShaped(c, s) && w < |s.workers|
  {
    var x := s.workers[w];
    && (!x.phase.Ready? ==> c.bodies(w, x.file) != "")
    && (InCriticalSection(x) ==> s.lock[x.file] == Some(w))
  }

  /** Each append is completed once, given up, not wanted, or still to come. */
  ghost predicate AppendAccounted(c: Setup, s: State, w: nat, f: nat)
    requires WellShaped(c, s) && w < |s.workers| && f < |c.headers|
  {
    if f < s.workers[w].file then
      (w in s.order[f] <==> c.bodies(w, f) != "" && (w, f) !in s.failed)
    else
      w !in s.order[f] && (w, f) !in s.failed
  }

  ghost predicate OrderValid(c: Setup, s: State, f: nat)
    requires WellShaped(c, s) && f < |c.headers|
  {
    && (forall i :: 0 <= i < |s.order[f]| ==> s.order[f][i] < |s.workers| && c.bodies(s.order[f][i], f) != "")
    && (forall i, j :: 0 <= i < j < |s.order[f]| ==> s.order[f][i] != s.order[f][j])
  }

  /** What every step of every interleaving keeps. */
  ghost predicate Inv(c: Setup, s: State) {
    && WellShaped(c, s)
    && (forall f: nat :: f < |c.headers| ==> FileValid(c, s, f))
    && (forall f: nat :: f < |c.headers| ==> OrderValid(c, s, f))
    && (forall w: nat :: w < |s.workers| ==> WorkerValid(c, s, w))
    && (forall w: nat, f: nat :: w < |s.workers| && f < |c.headers| ==> AppendAccounted(c, s, w, f))
  }

  lemma InitialInv(c: Setup)
    requires c.Valid()
    ensures Inv(c, Initial(c))
  {
  }

  lemma StepShape(c: Setup, s: State, w: nat, ok: bool)
    requires Enabled(c, s, w, ok)
    ensures WellShaped(c, Step(c, s, w, ok))
  {
  }

  lemma ContentOfNext(c: Setup, f: nat, ws: seq<nat>, w: nat)
    requires f < |c.headers| && f < |c.before|
    ensures Content(c, f, ws + [w]) == (if ws == [] then Head(c, f) else Content(c, f, ws)) + c.bodies(w, f)
  {
    var us := ws + [w];
    assert us[..|us| - 1] == ws;
    if ws == [] {
      assert Bodies(c, f, us) == c.bodies(w, f);
    } else {
      assert Head(c, f) + (Bodies(c, f, ws) + c.bodies(w, f)) == Head(c, f) + Bodies(c, f, ws) + c.bodies(w, f);
    }
  }

  /** A file with a completed append is not empty. */
  lemma ContentNotEmpty(c: Setup, f: nat, ws: seq<nat>)
    requires f < |c.headers| && f < |c.before|
    requires ws != [] && c.bodies(ws[|ws| - 1], f) != ""
    ensures Content(c, f, ws) != ""
  {
  }

  lemma StepFile(c: Setup, s: State, w: nat, ok: bool, f: nat)
    requires Enabled(c, s, w, ok) && f < |c.headers|
    requires FileValid(c, s, f) && WorkerValid(c, s, w) && OrderValid(c, s, f)
    ensures WellShaped(c, Step(c, s, w, ok)) && FileValid(c, Step(c, s, w, ok), f)
  {
    hide Content, Head, Bodies;
    StepShape(c, s, w, ok);
    if s.workers[w].file == f {
      match s.workers[w].phase {
        case Sized(size) => SizedFile(c, s, w, f);
        case HeaderDone => ContentOfNext(c, f, s.order[f], w);
        case _ =>
      }
    }
  }

  /** The size test decides exactly whether the header is still missing. */
  lemma SizedFile(c: Setup, s: State, w: nat, f: nat)
    requires WellShaped(c, s) && w < |s.workers| && f < |c.headers| && s.workers[w].file == f
    requires s.workers[w].phase.Sized? && FileValid(c, s, f) && OrderValid(c, s, f) && s.lock[f] == Some(w)
    ensures (if s.workers[w].phase.size == 0 then s.files[f] + c.headers[f] else s.files[f]) ==
            ContentDuring(c, f, s.order[f], w, HeaderDone)
  {
    if s.order[f] == [] {
    } else {
      ContentNotEmpty(c, f, s.order[f]);
    }
  }

  lemma StepOrder(c: Setup, s: State, w: nat, ok: bool, f: nat)
    requires Enabled(c, s, w, ok) && f < |c.headers|
    requires OrderValid(c, s, f) && WorkerValid(c, s, w) && AppendAccounted(c, s, w, f)
    ensures WellShaped(c, Step(c, s, w, ok)) && OrderValid(c, Step(c, s, w, ok), f)
  {
    StepShape(c, s, w, ok);
  }

  lemma StepWorker(c: Setup, s: State, w: nat, ok: bool, v: nat)
    requires Enabled(c, s, w, ok) && v < |s.workers|
    requires WorkerValid(c, s, w) && WorkerValid(c, s, v)
    ensures WellShaped(c, Step(c, s, w, ok)) && WorkerValid(c, Step(c, s, w, ok), v)
  {
    StepShape(c, s, w, ok);
  }

  lemma StepAccounted(c: Setup, s: State, w: nat, ok: bool, v: nat, f: nat)
    requires Enabled(c, s, w, ok) && v < |s.workers| && f < |c.headers|
    requires WorkerValid(c, s, w) && AppendAccounted(c, s, w, s.workers[w].file) && AppendAccounted(c, s, v, f)
    ensures WellShaped(c, Step(c, s, w, ok)) && AppendAccounted(c, Step(c, s, w, ok), v, f)
  {
    StepShape(c, s, w, ok);
  }

  lemma StepKeepsInv(c: Setup, s: State, w: nat, ok: bool)
    requires Inv(c, s) && Enabled(c, s, w, ok)
    ensures Inv(c, Step(c, s, w, ok))
  {
    hide Enabled, Step, FileValid, OrderValid, WorkerValid, AppendAccounted;
    var t := Step(c, s, w, ok);
    StepShape(c, s, w, ok);
    SameWorkers(c, s, w, ok);
    forall f: nat | f < |c.headers| ensures FileValid(c, t, f) && OrderValid(c, t, f) {
      StepFile(c, s, w, ok, f);
      StepOrder(c, s, w, ok, f);
    }
    forall v: nat | v < |t.workers| ensures WorkerValid(c, t, v) {
      StepWorker(c, s, w, ok, v);
    }
    forall v: nat, f: nat | v < |t.workers| && f < |c.headers| ensures AppendAccounted(c, t, v, f) {
      StepAccounted(c, s, w, ok, v, f);
    }
  }

  lemma SameWorkers(c: Setup, s: State, w: nat, ok: bool)
    requires Enabled(c, s, w, ok)
    ensures |Step(c, s, w, ok).workers| == |s.workers|
    ensures w < |s.workers| && s.workers[w].file < |c.headers|
  {
  }

  /** The invariant holds in every state of every interleaving. */
  lemma {:induction false} ReachableInv(c: Setup, run: seq<Move>, t: State)
    requires c.Valid() && Runs(c, Initial(c), run, t)
    ensures Inv(c, t)
    decreases |run|
  {
    InitialInv(c);
    hide Inv, Enabled, Initial, Step;
    if run != [] {
      var prefix, last := run[..|run| - 1], run[|run| - 1];
      var mid :| Runs(c, Initial(c), prefix, mid) && StepTo(c, mid, last, t);
      ReachableInv(c, prefix, mid);
      StepKeepsInv(c, mid, last.w, last.ok);
    }
  }

  // ---------------------------------------------------------------------------
  // No waiting cycle
  // ---------------------------------------------------------------------------

  ghost predicate Holds(s: State, w: nat, f: nat) {
    f < |s.lock| && s.lock[f] == Some(w)
  }

  ghost predicate WaitsFor(s: State, w: nat, f: nat) {
    w < |s.workers| && s.workers[w] == Worker(f, Opened)
  }

  /** A worker holds at most one lock, and none while it waits: there is no cycle of waiting. */
  lemma WaitersHoldNothing(c: Setup, s: State, w: nat)
    requires Inv(c, s)
    ensures forall f: nat, g: nat :: Holds(s, w, f) && Holds(s, w, g) ==> f == g
    ensures forall f: nat, g: nat :: WaitsFor(s, w, f) ==> !Holds(s, w, g)
  {
    forall f: nat | Holds(s, w, f) ensures w < |s.workers| && s.workers[w].file == f && InCriticalSection(s.workers[w]) {
      assert FileValid(c, s, f);
    }
  }

  ghost predicate Done(c: Setup, s: State) {
    forall w :: 0 <= w < |s.workers| ==> s.workers[w].file == |c.headers|
  }

  /** While some worker is not done, some worker can move, even if no call ever fails. */
  lemma NeverStuck(c: Setup, s: State)
    requires Inv(c, s) && !Done(c, s)
    ensures exists w: nat :: Enabled(c, s, w, true)
  {
    var w: nat :| w < |s.workers| && s.workers[w].file != |c.headers|;
    var f := s.workers[w].file;
    if !Enabled(c, s, w, true) {
      var v := s.lock[f].value;
      assert FileValid(c, s, f);
      assert Enabled(c, s, v, true);
    }
  }

  // ---------------------------------------------------------------------------
  // Termination
  // ---------------------------------------------------------------------------

  ghost function PhaseRank(p: Phase): nat {
    match p
    case Ready => 5
    case Opened => 4
    case Locked => 3
    case Sized(_) => 2
    case HeaderDone => 1
    case BodyDone => 0
  }

  ghost function WorkerWork(files: nat, x: Worker): int {
    6 * (files - x.file) + PhaseRank(x.phase)
  }

  ghost function Work(files: nat, ws: seq<Worker>): int {
    if ws == [] then 0 else Work(files, ws[..|ws| - 1]) + WorkerWork(files, ws[|ws| - 1])
  }

  lemma {:induction false} SetWork(files: nat, ws: seq<Worker>, w: nat, x: Worker)
    requires w < |ws|
    ensures Work(files, ws[w := x]) - WorkerWork(files, x) == Work(files, ws) - WorkerWork(files, ws[w])
    decreases |ws|
  {
    hide WorkerWork;
    var m := |ws| - 1;
    var us := ws[w := x];
    if w == m {
      assert us[..m] == ws[..m];
    } else {
      SetWork(files, ws[..m], w, x);
      assert us[..m] == ws[..m][w := x];
    }
  }

  lemma StepWorks(c: Setup, s: State, w: nat, ok: bool)
    requires Enabled(c, s, w, ok)
    ensures Work(|c.headers|, Step(c, s, w, ok).workers) < Work(|c.headers|, s.workers)
  {
    hide Work;
    SetWork(|c.headers|, s.workers, w, Step(c, s, w, ok).workers[w]);
  }

  lemma {:induction false} WorkIsNotNegative(files: nat, ws: seq<Worker>)
    requires forall w :: 0 <= w < |ws| ==> ws[w].file <= files
    ensures Work(files, ws) >= 0
    decreases |ws|
  {
    if ws != [] {
      WorkIsNotNegative(files, ws[..|ws| - 1]);
    }
  }

  lemma {:induction false} RunsAreBounded(c: Setup, run: seq<Move>, t: State)
    requires c.Valid() && Runs(c, Initial(c), run, t)
    ensures |run| + Work(|c.headers|, t.workers) <= Work(|c.headers|, Initial(c).workers)
    decreases |run|
  {
    hide Enabled, Initial, Step, Work;
    if run != [] {
      var prefix, last := run[..|run| - 1], run[|run| - 1];
      var mid :| Runs(c, Initial(c), prefix, mid) && StepTo(c, mid, last, t);
      RunsAreBounded(c, prefix, mid);
      StepWorks(c, mid, last.w, last.ok);
    }
  }

  // ---------------------------------------------------------------------------
  // Which appends are given up
  // ---------------------------------------------------------------------------

  /** In `s` the move `m` is an open or lock call for file `f` by worker `w` that fails. */
  ghost predicate CallFails(c: Setup, s: State, m: Move, w: nat, f: nat) {
    && m == Move(w, false) && w < |s.workers| && s.workers[w].file == f
    && (s.workers[w].phase.Opened? || (s.workers[w].phase.Ready? && c.bodies(w, f) != ""))
  }

  /** The move at `i` of the run is such a call. */
  ghost predicate FailsAt(c: Setup, run: seq<Move>, i: nat, w: nat, f: nat) {
    i < |run| && exists s :: Runs(c, Initial(c), run[..i], s) && CallFails(c, s, run[i], w, f)
  }

  lemma {:induction false} SameRunSameState(c: Setup, a: State, run: seq<Move>, s: State, t: State)
    requires Runs(c, a, run, s) && Runs(c, a, run, t)
    ensures s == t
    decreases |run|
  {
    hide Enabled, Step;
    if run != [] {
      var prefix, last := run[..|run| - 1], run[|run| - 1];
      var mid :| Runs(c, a, prefix, mid) && StepTo(c, mid, last, s);
      var mid' :| Runs(c, a, prefix, mid') && StepTo(c, mid', last, t);
      SameRunSameState(c, a, prefix, mid, mid');
    }
  }

  lemma StepFails(c: Setup, s: State, m: Move, w: nat, f: nat)
    requires Enabled(c, s, m.w, m.ok)
    ensures (w, f) in Step(c, s, m.w, m.ok).failed <==> (w, f) in s.failed || CallFails(c, s, m, w, f)
  {
  }

  /** An append is given up exactly when one of its own open or lock calls fails: without a failing call
      nothing is lost, and whatever else goes wrong or waits, no other append is given up. */
  lemma {:induction false} GivenUpExactlyByFailure(c: Setup, run: seq<Move>, t: State, w: nat, f: nat)
    requires Runs(c, Initial(c), run, t)
    ensures (w, f) in t.failed <==> exists i :: FailsAt(c, run, i, w, f)
    decreases |run|
  {
    hide Enabled, Step, CallFails, Initial;
    if run == [] {
      NothingFailed(c);
    } else {
      var m := |run| - 1;
      var prefix, last := run[..m], run[m];
      var mid :| Runs(c, Initial(c), prefix, mid) && StepTo(c, mid, last, t);
      GivenUpExactlyByFailure(c, prefix, mid, w, f);
      StepFails(c, mid, last, w, f);
      assert CallFails(c, mid, last, w, f) ==> FailsAt(c, run, m, w, f);
      forall i: nat | i < m ensures FailsAt(c, run, i, w, f) <==> FailsAt(c, prefix, i, w, f) {
        assert run[..i] == prefix[..i] && run[i] == prefix[i];
      }
      if FailsAt(c, run, m, w, f) {
        var s :| Runs(c, Initial(c), run[..m], s) && CallFails(c, s, run[m], w, f);
        SameRunSameState(c, Initial(c), prefix, s, mid);
      }
    }
  }

  lemma NothingFailed(c: Setup)
    ensures Initial(c).failed == {}
  {
  }

  // ---------------------------------------------------------------------------
  // Main result
  // ---------------------------------------------------------------------------

  /** When nobody can move any more, all workers are done and every file is as before or is its head (one
      header if it was empty) followed by whole bodies in lock order: one body for each worker that has
      something to append and whose open and lock calls succeeded. */
  lemma FinalFiles(c: Setup, run: seq<Move>, t: State)
    requires c.Valid() && Runs(c, Initial(c), run, t) && forall w: nat :: !Enabled(c, t, w, true)
    ensures Inv(c, t) && Done(c, t)
    ensures forall f: nat :: f < |c.headers| ==>
              && t.files[f] == Content(c, f, t.order[f])
              && (forall i, j :: 0 <= i < j < |t.order[f]| ==> t.order[f][i] != t.order[f][j])
              && (forall w: nat :: w < c.workers ==>
                    (w in t.order[f] <==> c.bodies(w, f) != "" && (w, f) !in t.failed))
    ensures |run| <= Work(|c.headers|, Initial(c).workers)
  {
    hide Runs, Enabled, Content, Work, Initial;
    ReachableInv(c, run, t);
    if !Done(c, t) {
      NeverStuck(c, t);
    }
    forall f: nat | f < |c.headers|
      ensures t.files[f] == Content(c, f, t.order[f])
      ensures forall i, j :: 0 <= i < j < |t.order[f]| ==> t.order[f][i] != t.order[f][j]
      ensures forall w: nat :: w < c.workers ==> (w in t.order[f] <==> c.bodies(w, f) != "" && (w, f) !in t.failed)
    {
      FinalFile(c, t, f);
    }
    RunsAreBounded(c, run, t);
    WorkIsNotNegative(|c.headers|, t.workers);
  }

  /** When no call fails, every worker with something to append has its body in the file, once. */
  lemma NothingIsLost(c: Setup, run: seq<Move>, t: State, w: nat, f: nat)
    requires c.Valid() && Runs(c, Initial(c), run, t) && forall v: nat :: !Enabled(c, t, v, true)
    requires w < c.workers && f < |c.headers| && forall i :: 0 <= i < |run| ==> run[i].ok
    ensures t.files[f] == Content(c, f, t.order[f])
    ensures w in t.order[f] <==> c.bodies(w, f) != ""
  {
    hide Runs, Enabled, Content, Work, Initial, Inv;
    FinalFiles(c, run, t);
    GivenUpExactlyByFailure(c, run, t, w, f);
  }

  lemma FinalFile(c: Setup, t: State, f: nat)
    requires Inv(c, t) && Done(c, t) && f < |c.headers|
    ensures t.files[f] == Content(c, f, t.order[f])
    ensures forall i, j :: 0 <= i < j < |t.order[f]| ==> t.order[f][i] != t.order[f][j]
    ensures forall w: nat :: w < c.workers ==> (w in t.order[f] <==> c.bodies(w, f) != "" && (w, f) !in t.failed)
  {
    hide Content;
    assert FileValid(c, t, f) && OrderValid(c, t, f);
    forall w: nat | w < c.workers ensures w in t.order[f] <==> c.bodies(w, f) != "" && (w, f) !in t.failed {
      assert AppendAccounted(c, t, w, f);
    }
  }
}
