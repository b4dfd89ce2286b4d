/** The work pool (`ThreadPool`) as atomic steps between lock and unlock.

    A run of the pool interleaves the caller, which pushes jobs and calls `run`,
    with the worker threads. Waits may end without a notification when
    `spurious` holds.
 */
module ThreadPool {
  type Job = nat

  /** A thread is about to take the lock for the first time, waits on `_cond`, or
      executes a job with the lock released. */
  datatype WorkerPc = Starting | Waiting | Working(job: Job)

  /** The caller is outside `run`, executes a job, waits on `_complete`, or has
      failed an assertion at the end of `run`. */
  datatype CallerPc = Outside | Running(job: Job) | AwaitComplete | AssertFailed

  /** `queued` and `finished` are a log; no step reads them. */
  datatype Pool = Pool(
    work: seq<Job>,
    working: nat,
    running: bool,
    workers: seq<WorkerPc>,
    caller: CallerPc,
    useThreads: bool,
    woken: set<nat>,
    completeWoken: bool,
    queued: multiset<Job>,
    finished: multiset<Job>)

  datatype Step =
    | PushWork(job: Job)
    | StartRun
    | CallerDone
    | CallerWake
    | WorkerBegin(t: nat)
    | WorkerWake(t: nat)
    | WorkerDone(t: nat)

  // ----- The steps -----

  /** The front half of `runOne` for the caller, or the end of `run`. */
  function CallerLoop(s: Pool): Pool {
    if s.work != [] then
      s.(work := s.work[1..], working := s.working + 1, caller := Running(s.work[0]))
    else if s.useThreads && s.working > 0 then
      s.(caller := AwaitComplete, completeWoken := false)
    else
      EndRun(s)
  }

  function EndRun(s: Pool): Pool {
    s.(running := false, caller := if s.working == 0 && s.work == [] then Outside else AssertFailed)
  }

  /** The worker's inner loop: take the next job or wait on `_cond`. */
  function WorkerLoop(s: Pool, t: nat): Pool
    requires t < |s.workers|
  {
    if s.work != [] && s.running then
      s.(work := s.work[1..], working := s.working + 1, workers := s.workers[t := Working(s.work[0])])
    else
      s.(workers := s.workers[t := Waiting])
  }

  /** The back half of `runOne`: count down and notify `_complete` when idle. */
  function JobDone(s: Pool, job: Job): Pool
    requires s.working > 0
  {
    var idle := s.work == [] && s.working == 1;
    s.(working := s.working - 1, finished := s.finished + multiset{job},
       completeWoken := s.completeWoken || (idle && s.caller.AwaitComplete?))
  }

  predicate Enabled(s: Pool, a: Step, spurious: bool) {
    match a
    case PushWork(_) => s.caller.Outside?
    case StartRun => s.caller.Outside?
    case CallerDone => s.caller.Running? && s.working > 0
    case CallerWake => s.caller.AwaitComplete? && (s.completeWoken || spurious)
    case WorkerBegin(t) => t < |s.workers| && s.workers[t].Starting?
    case WorkerWake(t) => t < |s.workers| && s.workers[t].Waiting? && (t in s.woken || spurious)
    case WorkerDone(t) => t < |s.workers| && s.workers[t].Working? && s.working > 0
  }

  function Next(s: Pool, a: Step, spurious: bool): Pool
    requires Enabled(s, a, spurious)
  {
    match a
    case PushWork(job) => s.(work := s.work + [job], queued := s.queued + multiset{job})
    case StartRun =>
      var useThreads := |s.workers| > 1 && |s.work| > 1;
      var woken := if useThreads then s.woken + (set t | 0 <= t < |s.workers| && s.workers[t].Waiting?) else s.woken;
      CallerLoop(s.(running := true, useThreads := useThreads, woken := woken))
    case CallerDone => CallerLoop(JobDone(s, s.caller.job))
    case CallerWake =>
      if s.working == 0 && s.work == [] then EndRun(s) else s.(completeWoken := false)
    case WorkerBegin(t) => s.(workers := s.workers[t := Waiting])
    case WorkerWake(t) => WorkerLoop(s.(woken := s.woken - {t}), t)
    case WorkerDone(t) => WorkerLoop(JobDone(s, s.workers[t].job), t)
  }

  predicate Initial(s: Pool) {
    s == Pool([], 0, false, seq(|s.workers|, _ => Starting), Outside, false, {}, false, multiset{}, multiset{})
  }

  // ----- The invariant -----

  /** Workers at work, and those of them on one job. */
  function Busy(ws: seq<WorkerPc>): nat {
    if ws == [] then 0 else Busy(ws[..|ws| - 1]) + if ws[|ws| - 1].Working? then 1 else 0
  }

  function On(ws: seq<WorkerPc>, j: Job): nat {
    if ws == [] then 0 else On(ws[..|ws| - 1], j) + if ws[|ws| - 1] == Working(j) then 1 else 0
  }

  lemma {:induction false} WorkerMoves(ws: seq<WorkerPc>, t: nat, pc: WorkerPc, j: Job)
    requires t < |ws|
    ensures Busy(ws[t := pc]) + (if ws[t].Working? then 1 else 0) == Busy(ws) + (if pc.Working? then 1 else 0)
    ensures On(ws[t := pc], j) + (if ws[t] == Working(j) then 1 else 0) == On(ws, j) + (if pc == Working(j) then 1 else 0)
  {
    var n := |ws| - 1;
    if t < n {
      WorkerMoves(ws[..n], t, pc, j);
      assert ws[t := pc][..n] == ws[..n][t := pc];
    } else {
      assert ws[t := pc][..n] == ws[..n];
    }
  }

  lemma {:induction false} NobodyWorking(ws: seq<WorkerPc>, j: Job)
    requires Busy(ws) == 0 || NoneAtWork(ws)
    ensures Busy(ws) == 0 && On(ws, j) == 0
  {
    if ws != [] {
      NobodyWorking(ws[..|ws| - 1], j);
    }
  }

  lemma {:induction false} SomebodyWorking(ws: seq<WorkerPc>) returns (t: nat)
    requires Busy(ws) > 0
    ensures t < |ws| && ws[t].Working?
  {
    if ws[|ws| - 1].Working? {
      t := |ws| - 1;
    } else {
      t := SomebodyWorking(ws[..|ws| - 1]);
    }
  }

  predicate NoneAtWork(ws: seq<WorkerPc>) {
    forall t :: 0 <= t < |ws| ==> !ws[t].Working?
  }

  ghost predicate Safe(workers: nat, spurious: bool) {
    workers != 1 || !spurious
  }

  /** Every job is queued, in somebody's hand or finished, each as often as it
      was pushed. */
  ghost predicate Conserved(s: Pool, j: Job) {
    s.queued[j] == multiset(s.work)[j] + s.finished[j] + On(s.workers, j) + (if s.caller == Running(j) then 1 else 0)
  }

  ghost predicate Control(s: Pool) {
    && s.working == Busy(s.workers) + (if s.caller.Running? then 1 else 0)
    && !s.caller.AssertFailed?
    && (s.running <==> !s.caller.Outside?)
    && (!s.running ==> Busy(s.workers) == 0)
    && (s.caller.AwaitComplete? ==>
        s.useThreads && s.work == [] && (s.working == 0 <==> s.completeWoken))
    && (s.caller.Running? && !s.useThreads ==>
        Busy(s.workers) == 0 && (s.work == [] || |s.workers| <= 1))
    && (|s.workers| <= 1 ==> s.woken == {} && !s.useThreads)
  }

  ghost predicate Inv(s: Pool) {
    Control(s) && forall j :: Conserved(s, j)
  }

  lemma InitialInv(s: Pool)
    requires Initial(s)
    ensures Inv(s)
  {
    forall j
      ensures Conserved(s, j) && Busy(s.workers) == 0
    {
      NobodyWorking(s.workers, j);
    }
    assert Conserved(s, 0);
  }

  lemma FirstJob(work: seq<Job>, j: Job)
    requires work != []
    ensures multiset(work)[j] == multiset(work[1..])[j] + if work[0] == j then 1 else 0
  {
    assert work == [work[0]] + work[1..];
  }

  // ----- Conservation -----

  lemma StepConserves(s: Pool, a: Step, spurious: bool, j: Job)
    requires Enabled(s, a, spurious) && Conserved(s, j)
    ensures Conserved(Next(s, a, spurious), j)
  {
    hide On, Next, Enabled, Conserved;
    match a
    case PushWork(job) =>
      assert multiset(s.work + [job]) == multiset(s.work) + multiset{job};
      Pushed(s, job, j, spurious);
    case StartRun =>
      StartConserves(s, j, spurious);
    case CallerDone =>
      CallerStepConserves(s, a, j, spurious);
    case CallerWake =>
      CallerStepConserves(s, a, j, spurious);
    case WorkerBegin(t) =>
      BeginConserves(s, t, j, spurious);
    case WorkerWake(t) =>
      WakeConserves(s, t, j, spurious);
    case WorkerDone(t) =>
      DoneConserves(s, t, j, spurious);
  }

  lemma CallerStepConserves(s: Pool, a: Step, j: Job, spurious: bool)
    requires (a.CallerDone? || a.CallerWake?) && Enabled(s, a, spurious) && Conserved(s, j)
    ensures Conserved(Next(s, a, spurious), j)
  {
    hide On;
    if a.CallerDone? {
      CallerLoopConserves(JobDone(s, s.caller.job), j);
    }
  }

  lemma BeginConserves(s: Pool, t: nat, j: Job, spurious: bool)
    requires Enabled(s, WorkerBegin(t), spurious) && Conserved(s, j)
    ensures Conserved(Next(s, WorkerBegin(t), spurious), j)
  {
    hide On;
    WorkerConserves(s, t, j);
  }

  lemma WakeConserves(s: Pool, t: nat, j: Job, spurious: bool)
    requires Enabled(s, WorkerWake(t), spurious) && Conserved(s, j)
    ensures Conserved(Next(s, WorkerWake(t), spurious), j)
  {
    hide On, WorkerLoop;
    WorkerConserves(s, t, j);
    WorkerLoopConserves(s.(woken := s.woken - {t}), t, j);
  }

  lemma DoneConserves(s: Pool, t: nat, j: Job, spurious: bool)
    requires Enabled(s, WorkerDone(t), spurious) && Conserved(s, j)
    ensures Conserved(Next(s, WorkerDone(t), spurious), j)
  {
    hide On, WorkerLoop;
    WorkerConserves(s, t, j);
    WorkerLoopConserves(JobDone(s, s.workers[t].job), t, j);
  }

  lemma Pushed(s: Pool, job: Job, j: Job, spurious: bool)
    requires Enabled(s, PushWork(job), spurious) && Conserved(s, j)
    requires multiset(s.work + [job]) == multiset(s.work) + multiset{job}
    ensures Conserved(Next(s, PushWork(job), spurious), j)
  {
    hide On;
  }

  lemma StartConserves(s: Pool, j: Job, spurious: bool)
    requires Enabled(s, StartRun, spurious) && Conserved(s, j)
    ensures Conserved(Next(s, StartRun, spurious), j)
  {
    hide On;
    var useThreads := |s.workers| > 1 && |s.work| > 1;
    var woken := if useThreads then s.woken + (set t | 0 <= t < |s.workers| && s.workers[t].Waiting?) else s.woken;
    CallerLoopConserves(s.(running := true, useThreads := useThreads, woken := woken), j);
  }

  lemma CallerLoopConserves(s: Pool, j: Job)
    requires s.queued[j] == multiset(s.work)[j] + s.finished[j] + On(s.workers, j)
    ensures Conserved(CallerLoop(s), j)
  {
    hide On;
    if s.work != [] {
      FirstJob(s.work, j);
    }
  }

  lemma WorkerLoopConserves(s: Pool, t: nat, j: Job)
    requires t < |s.workers| && Conserved(s.(workers := s.workers[t := Waiting]), j)
    ensures Conserved(WorkerLoop(s, t), j)
  {
    WorkerConserves(s, t, j);
    hide On;
    if s.work != [] {
      FirstJob(s.work, j);
    }
  }

  lemma WorkerConserves(s: Pool, t: nat, j: Job)
    requires t < |s.workers|
    ensures On(s.workers[t := Waiting], j) + (if s.workers[t] == Working(j) then 1 else 0) == On(s.workers, j)
    ensures s.work != [] ==>
      On(s.workers[t := Working(s.work[0])], j) + (if s.workers[t] == Working(j) then 1 else 0)
      == On(s.workers, j) + (if s.work[0] == j then 1 else 0)
  {
    WorkerMoves(s.workers, t, Waiting, j);
    if s.work != [] {
      WorkerMoves(s.workers, t, Working(s.work[0]), j);
    }
  }

  // ----- Control -----

  /** What holds when the caller is about to test its loop with the lock held. */
  lemma CallerLoopControl(s: Pool)
    requires s.running && s.working == Busy(s.workers)
    requires !s.useThreads ==> Busy(s.workers) == 0 && (|s.work| <= 1 || |s.workers| <= 1)
    requires |s.workers| <= 1 ==> s.woken == {} && !s.useThreads
    ensures Control(CallerLoop(s))
  {
    hide Busy;
  }

  lemma StepControl(s: Pool, a: Step, spurious: bool)
    requires Control(s) && Enabled(s, a, spurious) && Safe(|s.workers|, spurious)
    ensures Control(Next(s, a, spurious))
  {
    hide Busy;
    match a
    case PushWork(job) =>
    case StartRun =>
      var useThreads := |s.workers| > 1 && |s.work| > 1;
      var woken := if useThreads then s.woken + (set t | 0 <= t < |s.workers| && s.workers[t].Waiting?) else s.woken;
      CallerLoopControl(s.(running := true, useThreads := useThreads, woken := woken));
    case CallerDone =>
      CallerLoopControl(JobDone(s, s.caller.job));
    case CallerWake =>
    case WorkerBegin(t) =>
      WorkerMoves(s.workers, t, Waiting, 0);
    case WorkerWake(t) =>
      WorkerControl(s, t);
    case WorkerDone(t) =>
      WorkerControl(s, t);
  }

  lemma WorkerControl(s: Pool, t: nat)
    requires t < |s.workers|
    ensures Busy(s.workers[t := Waiting]) + (if s.workers[t].Working? then 1 else 0) == Busy(s.workers)
    ensures s.work != [] ==>
      Busy(s.workers[t := Working(s.work[0])]) + (if s.workers[t].Working? then 1 else 0) == Busy(s.workers) + 1
  {
    WorkerMoves(s.workers, t, Waiting, 0);
    if s.work != [] {
      WorkerMoves(s.workers, t, Working(s.work[0]), 0);
    }
  }

  // ----- Runs -----

  ghost predicate IsRun(run: seq<Pool>, steps: seq<Step>, spurious: bool) {
    && |run| == |steps| + 1 && Initial(run[0])
    && forall i :: 0 <= i < |steps| ==>
         Enabled(run[i], steps[i], spurious) && run[i + 1] == Next(run[i], steps[i], spurious)
  }

  lemma SameWorkers(s: Pool, a: Step, spurious: bool)
    requires Enabled(s, a, spurious)
    ensures |Next(s, a, spurious).workers| == |s.workers|
  {
  }

  lemma StepInv(s: Pool, a: Step, spurious: bool)
    requires Inv(s) && Enabled(s, a, spurious) && Safe(|s.workers|, spurious)
    ensures Inv(Next(s, a, spurious))
  {
    hide Enabled, Control, Conserved, Next;
    StepControl(s, a, spurious);
    forall j
      ensures Conserved(Next(s, a, spurious), j)
    {
      StepConserves(s, a, spurious, j);
    }
  }

  lemma {:induction false} RunInv(run: seq<Pool>, steps: seq<Step>, spurious: bool, i: nat)
    requires IsRun(run, steps, spurious) && i <= |steps| && Safe(|run[0].workers|, spurious)
    ensures Inv(run[i]) && |run[i].workers| == |run[0].workers|
  {
    hide Inv, Enabled, Next, Initial;
    if i == 0 {
      InitialInv(run[0]);
    } else {
      RunInv(run, steps, spurious, i - 1);
      SameWorkers(run[i - 1], steps[i - 1], spurious);
      StepInv(run[i - 1], steps[i - 1], spurious);
    }
  }

  /** `run` returns only when every job pushed so far has been executed exactly
      as often as it was pushed, none is queued or in anybody's hand, and
      `_working` is zero. */
  lemma ReturnsWhenAllDone(run: seq<Pool>, steps: seq<Step>, spurious: bool, i: nat)
    requires IsRun(run, steps, spurious) && i < |steps| && Safe(|run[0].workers|, spurious)
    requires steps[i].StartRun? || steps[i].CallerDone? || steps[i].CallerWake?
    requires run[i + 1].caller.Outside?
    ensures run[i + 1].work == [] && run[i + 1].working == 0 && !run[i + 1].running
    ensures NoneAtWork(run[i + 1].workers)
    ensures run[i + 1].finished == run[i + 1].queued
  {
    RunInv(run, steps, spurious, i);
    RunInv(run, steps, spurious, i + 1);
    var s := run[i + 1];
    EndsEmpty(run[i], steps[i], spurious);
    forall j
      ensures s.finished[j] == s.queued[j]
    {
      assert Conserved(s, j);
      NobodyWorking(s.workers, j);
    }
    NoneWorking(s.workers);
  }

  lemma EndsEmpty(s: Pool, a: Step, spurious: bool)
    requires Enabled(s, a, spurious) && (a.StartRun? || a.CallerDone? || a.CallerWake?)
    requires Next(s, a, spurious).caller.Outside?
    ensures Next(s, a, spurious).work == [] && Next(s, a, spurious).working == 0
  {
  }

  lemma {:induction false} NoneWorking(ws: seq<WorkerPc>)
    requires Busy(ws) == 0
    ensures NoneAtWork(ws)
  {
    if ws != [] {
      NoneWorking(ws[..|ws| - 1]);
    }
  }

  // ----- Progress -----

  /** What is left of a run of the pool. */
  function Left(s: Pool): nat {
    2 * |s.work| + s.working + match s.caller
      case Running(_) => 2
      case AwaitComplete => 1
      case _ => 0
  }

  /** Wakes that find nothing to do, and threads that start. */
  predicate Idle(s: Pool, a: Step) {
    match a
    case WorkerBegin(_) => true
    case WorkerWake(_) => s.work == [] || !s.running
    case CallerWake => s.working > 0 || s.work != []
    case _ => false
  }

  /** While `run` has not returned, somebody can move without a spurious wake-up:
      a waiting caller has a job in progress that will wake it, or has been
      woken. And whoever moves, less is left unless the step was idle. */
  lemma NeverStuck(run: seq<Pool>, steps: seq<Step>, spurious: bool, i: nat) returns (a: Step)
    requires IsRun(run, steps, spurious) && i <= |steps| && Safe(|run[0].workers|, spurious)
    requires !run[i].caller.Outside?
    ensures Enabled(run[i], a, false) && !Idle(run[i], a)
    ensures Left(Next(run[i], a, false)) < Left(run[i])
  {
    RunInv(run, steps, spurious, i);
    var s := run[i];
    if s.caller.Running? {
      a := CallerDone;
    } else if s.completeWoken {
      a := CallerWake;
    } else {
      var t := SomebodyWorking(s.workers);
      a := WorkerDone(t);
    }
    hide Busy;
    LessLeft(s, a, false);
  }

  lemma LessLeft(s: Pool, a: Step, spurious: bool)
    requires Enabled(s, a, spurious) && !a.PushWork? && !a.StartRun?
    ensures Left(Next(s, a, spurious)) <= Left(s)
    ensures !Idle(s, a) ==> Left(Next(s, a, spurious)) < Left(s)
  {
  }

  // ----- The case that fails -----

  /** One worker, waiting, and two jobs queued. */
  const TWO_QUEUED :=
    Pool([1, 2], 0, false, [Waiting], Outside, false, {}, false, multiset{1, 2}, multiset{})

  /** The worker has taken the second job without being notified. */
  const BOTH_TAKEN :=
    Pool([], 2, true, [Working(2)], Running(1), false, {}, false, multiset{1, 2}, multiset{})

  lemma RunSnoc(run: seq<Pool>, steps: seq<Step>, a: Step, spurious: bool) returns (run': seq<Pool>)
    requires IsRun(run, steps, spurious) && Enabled(run[|steps|], a, spurious)
    ensures run' == run + [Next(run[|steps|], a, spurious)] && IsRun(run', steps + [a], spurious)
  {
    hide Enabled, Next, Initial;
    run' := run + [Next(run[|steps|], a, spurious)];
    var steps' := steps + [a];
    forall i | 0 <= i < |steps'|
      ensures Enabled(run'[i], steps'[i], spurious) && run'[i + 1] == Next(run'[i], steps'[i], spurious)
    {
      assert i < |steps| ==> run'[i] == run[i] && run'[i + 1] == run[i + 1] && steps'[i] == steps[i];
    }
  }

  lemma OneWorkerQueues() returns (run: seq<Pool>, steps: seq<Step>)
    ensures IsRun(run, steps, true) && |run[0].workers| == 1 && run[|steps|] == TWO_QUEUED
  {
    var s0 := Pool([], 0, false, [Starting], Outside, false, {}, false, multiset{}, multiset{});
    assert s0.workers == seq(1, _ => Starting);
    var s1 := Next(s0, WorkerBegin(0), true);
    var s2 := Next(s1, PushWork(1), true);
    var s3 := Next(s2, PushWork(2), true);
    run := [s0, s1, s2, s3];
    steps := [WorkerBegin(0), PushWork(1), PushWork(2)];
  }

  lemma OneWorkerTakes()
    ensures Enabled(TWO_QUEUED, StartRun, true) && Enabled(Next(TWO_QUEUED, StartRun, true), WorkerWake(0), true)
    ensures Next(Next(TWO_QUEUED, StartRun, true), WorkerWake(0), true) == BOTH_TAKEN
  {
    var s := Next(TWO_QUEUED, StartRun, true);
    assert s == Pool([2], 1, true, [Waiting], Running(1), false, {}, false, multiset{1, 2}, multiset{});
  }

  /** With exactly one worker the caller never notifies it and never waits for
      it, so a spurious wake-up can leave a job in its hand when `run` ends. */
  lemma OneWorkerFails() returns (run: seq<Pool>, steps: seq<Step>)
    ensures IsRun(run, steps, true) && |run[0].workers| == 1
    ensures run[|steps|].caller.AssertFailed?
  {
    run, steps := OneWorkerQueues();
    OneWorkerTakes();
    assert Enabled(BOTH_TAKEN, CallerDone, true) && Next(BOTH_TAKEN, CallerDone, true).caller.AssertFailed?;
    hide *;
    run := RunSnoc(run, steps, StartRun, true);
    run := RunSnoc(run, steps + [StartRun], WorkerWake(0), true);
    run := RunSnoc(run, steps + [StartRun] + [WorkerWake(0)], CallerDone, true);
    steps := steps + [StartRun] + [WorkerWake(0)] + [CallerDone];
  }

  /** The assertions at the end of `run` can fail in some run exactly when there
      is a single worker and waits may end spuriously. */
  lemma AssertFailsIff(n: nat, spurious: bool)
    ensures (exists run: seq<Pool>, steps: seq<Step> ::
               IsRun(run, steps, spurious) && |run[0].workers| == n && run[|steps|].caller.AssertFailed?)
            <==> n == 1 && spurious
  {
    if n == 1 && spurious {
      var run, steps := OneWorkerFails();
    } else {
      forall run: seq<Pool>, steps: seq<Step> | IsRun(run, steps, spurious) && |run[0].workers| == n
        ensures !run[|steps|].caller.AssertFailed?
      {
        RunInv(run, steps, spurious, |steps|);
      }
    }
  }

  // ----- The other assertions -----

  /** Outside `run` nothing runs and nobody works; inside, it is marked as running. */
  ghost predicate Marked(s: Pool) {
    && (s.caller.Outside? ==> !s.running && s.working == 0)
    && (s.caller.Running? || s.caller.AwaitComplete? ==> s.running)
  }

  lemma StepMarked(s: Pool, a: Step, spurious: bool)
    requires Marked(s) && Enabled(s, a, spurious)
    ensures Marked(Next(s, a, spurious))
    ensures |Next(s, a, spurious).work| < |s.work| ==> Next(s, a, spurious).running
  {
  }

  lemma {:induction false} RunMarked(run: seq<Pool>, steps: seq<Step>, spurious: bool, i: nat)
    requires IsRun(run, steps, spurious) && i <= |steps|
    ensures Marked(run[i])
  {
    if i > 0 {
      hide Enabled, Next, Marked;
      RunMarked(run, steps, spurious, i - 1);
      StepMarked(run[i - 1], steps[i - 1], spurious);
    }
  }

  /** For any number of workers and with spurious wake-ups, what `pushWork` and `run`
      assert at their start holds, and a job is taken only while `run` is on. */
  lemma StartAssertionsHold(run: seq<Pool>, steps: seq<Step>, spurious: bool, i: nat)
    requires IsRun(run, steps, spurious) && i < |steps|
    ensures steps[i].PushWork? || steps[i].StartRun? ==> !run[i].running && run[i].working == 0
    ensures |run[i + 1].work| < |run[i].work| ==> run[i + 1].running
  {
    RunMarked(run, steps, spurious, i);
    StepMarked(run[i], steps[i], spurious);
    hide Next;
  }

  // ----- Who gets which job -----

  /** Starting with several workers and jobs, the caller takes the first job and has
      notified every waiting worker: any of them can then take the second without a
      spurious wake-up. Otherwise nobody is notified. */
  lemma StartNotifies(s: Pool, spurious: bool, t: nat)
    requires Enabled(s, StartRun, spurious) && t < |s.workers| && s.workers[t].Waiting?
    ensures var s' := Next(s, StartRun, spurious);
      && (|s.workers| > 1 && |s.work| > 1 ==>
          && s'.caller == Running(s.work[0])
          && Enabled(s', WorkerWake(t), false)
          && Next(s', WorkerWake(t), false).workers[t] == Working(s.work[1]))
      && (|s.workers| <= 1 || |s.work| <= 1 ==> s'.woken == s.woken)
  {
  }

  /** Jobs leave the queue in the order in which they were pushed: a step pushes one
      behind the others, takes the first into the hand of whoever moves, or leaves the
      queue alone. */
  lemma StepTakesFirst(s: Pool, a: Step, spurious: bool)
    requires Enabled(s, a, spurious)
    ensures var s' := Next(s, a, spurious);
      if a.PushWork? then s'.work == s.work + [a.job]
      else
        || s'.work == s.work
        || (s.work != [] && s'.work == s.work[1..]
            && if a.StartRun? || a.CallerDone? then s'.caller == Running(s.work[0])
               else (a.WorkerWake? || a.WorkerDone?) && s'.workers[a.t] == Working(s.work[0]))
  {
  }

  /** While there is work nobody who is in `run` goes idle: a worker that is woken or
      done, and the caller, go on with the first job. */
  lemma GoesOnWithWork(s: Pool, a: Step, spurious: bool)
    requires Enabled(s, a, spurious) && s.work != []
    ensures (a.WorkerWake? || a.WorkerDone?) && s.running ==> Next(s, a, spurious).workers[a.t] == Working(s.work[0])
    ensures a.StartRun? || a.CallerDone? ==> Next(s, a, spurious).caller == Running(s.work[0])
  {
  }
}
