/** The worker pool of the test runner: the main thread dispatches the tests and one sentinel
    per worker through a first-in-first-out queue, the workers send the jobs back through a
    second one, and an interrupt may raise the exit flag at any moment. Every interleaving of
    the threads is a sequence of the steps below. */
module WorkerPool {
  datatype Test = Test(name: string, isSkip: bool, skipReason: string)

  /** `outcome[i]` is the return code test `i` gives if it is run. */
  datatype Config = Config(tests: seq<Test>, outcome: seq<int>, processors: nat)

  datatype Job =
    | Sentinel
    | TestJob(id: nat, test: Test, isBreak: bool, returncode: int)

  datatype Worker =
    | Waiting
    | Took(job: Job)
    | Running(job: Job)
    | Finished(job: Job)
    | Exited

  datatype Main =
    | Dispatching(sent: nat)
    | Stopping(stopped: nat)
    | Collecting
    | Joining(joined: nat)
    | Done

  datatype State = State(main: Main, input: seq<Job>, output: seq<Job>, workers: seq<Worker>,
                         threadExit: bool, collected: seq<Job>)

  datatype Step = MainStep | WorkerStep(w: nat) | Interrupt

  ghost predicate ValidConfig(c: Config) {
    |c.outcome| == |c.tests| && c.processors >= 1
  }

  function Init(c: Config): State {
    State(Dispatching(0), [], [], seq(c.processors, _ => Waiting), false, [])
  }

  function NewJob(c: Config, i: nat): Job
    requires i < |c.tests|
  {
    TestJob(i, c.tests[i], false, 0)
  }

  // ---- the steps ----

  /** A step is blocked only by an empty queue or by a thread that has not exited. */
  predicate Enabled(c: Config, s: State, step: Step) {
    match step
    case Interrupt => !s.threadExit
    case WorkerStep(w) =>
      w < |s.workers| && !s.workers[w].Exited? && (s.workers[w].Waiting? ==> s.input != [])
    case MainStep =>
      match s.main
      case Dispatching(_) => true
      case Stopping(_) => true
      case Collecting => |s.collected| < |c.tests| ==> s.output != []
      case Joining(k) => k < |s.workers| ==> s.workers[k].Exited?
      case Done => false
  }

  function Do(c: Config, s: State, step: Step): State
    requires |c.outcome| == |c.tests| && Enabled(c, s, step)
  {
    match step
    case Interrupt => s.(threadExit := true)
    case WorkerStep(w) => WorkerDo(c, s, w)
    case MainStep => MainDo(c, s)
  }

  function MainDo(c: Config, s: State): State
    requires Enabled(c, s, MainStep)
  {
    match s.main
    case Dispatching(k) =>
      if k < |c.tests| then s.(main := Dispatching(k + 1), input := s.input + [NewJob(c, k)])
      else s.(main := Stopping(0))
    case Stopping(k) =>
      if k < c.processors then s.(main := Stopping(k + 1), input := s.input + [Sentinel])
      else s.(main := Collecting)
    case Collecting =>
      if |s.collected| < |c.tests| then s.(output := s.output[1..], collected := s.collected + [s.output[0]])
      else s.(main := Joining(0))
    case Joining(k) =>
      if k < |s.workers| then s.(main := Joining(k + 1)) else s.(main := Done)
  }

  function WorkerDo(c: Config, s: State, w: nat): State
    requires |c.outcome| == |c.tests| && Enabled(c, s, WorkerStep(w))
  {
    match s.workers[w]
    case Waiting => s.(input := s.input[1..], workers := s.workers[w := Took(s.input[0])])
    case Took(job) =>
      s.(workers := s.workers[w :=
        if job.Sentinel? || job.isBreak then Exited
        else if s.threadExit then Finished(job.(isBreak := true))
        else if job.test.isSkip then Finished(job)
        else Running(job)])
    case Running(job) =>
      s.(workers := s.workers[w :=
        Finished(if job.TestJob? && job.id < |c.outcome| then job.(returncode := c.outcome[job.id]) else job)])
    case Finished(job) => s.(output := s.output + [job], workers := s.workers[w := Waiting])
  }

  /** The steps can be taken one after another from the start. */
  ghost predicate ValidRun(c: Config, steps: seq<Step>)
    requires ValidConfig(c)
    decreases |steps|, 0
  {
    steps != [] ==>
      var before := steps[..|steps| - 1];
      ValidRun(c, before) && Enabled(c, After(c, before), steps[|steps| - 1])
  }

  ghost function After(c: Config, steps: seq<Step>): State
    requires ValidConfig(c) && ValidRun(c, steps)
    decreases |steps|, 1
  {
    if steps == [] then Init(c) else Do(c, After(c, steps[..|steps| - 1]), steps[|steps| - 1])
  }

  // ---- sums over queues and workers ----

  function Sum<T>(s: seq<T>, f: T -> nat): nat {
    if s == [] then 0 else f(s[0]) + Sum(s[1..], f)
  }

  lemma {:induction false} SumSnoc<T>(s: seq<T>, x: T, f: T -> nat)
    ensures Sum(s + [x], f) == Sum(s, f) + f(x)
  {
    if s != [] {
      assert (s + [x])[1..] == s[1..] + [x];
      SumSnoc(s[1..], x, f);
    }
  }

  lemma {:induction false} SumUpdate<T>(s: seq<T>, i: nat, x: T, f: T -> nat)
    requires i < |s|
    ensures Sum(s[i := x], f) + f(s[i]) == Sum(s, f) + f(x)
  {
    if i > 0 {
      assert s[i := x][1..] == s[1..][i - 1 := x];
      SumUpdate(s[1..], i - 1, x, f);
    }
  }

  lemma {:induction false} SumZero<T>(s: seq<T>, f: T -> nat)
    requires forall x :: x in s ==> f(x) == 0
    ensures Sum(s, f) == 0
  {
    if s != [] { SumZero(s[1..], f); }
  }

  // ---- what every run keeps ----

  /** 1 for the job with number `id`. */
  function IsJob(id: nat): Job -> nat {
    (job: Job) => if job.TestJob? && job.id == id then 1 else 0
  }

  function HeldBy(worker: Worker, id: nat): nat {
    match worker
    case Took(job) => IsJob(id)(job)
    case Running(job) => IsJob(id)(job)
    case Finished(job) => IsJob(id)(job)
    case _ => 0
  }

  function Holds(id: nat): Worker -> nat {
    (worker: Worker) => HeldBy(worker, id)
  }

  function Dispatched(c: Config, s: State): nat {
    if s.main.Dispatching? then s.main.sent else |c.tests|
  }

  function SentinelsPut(c: Config, s: State): nat {
    match s.main
    case Dispatching(_) => 0
    case Stopping(k) => k
    case _ => c.processors
  }

  function IsSentinel(job: Job): nat { if job.Sentinel? then 1 else 0 }

  /** 1 for a worker that has taken its sentinel. */
  function HasStopped(worker: Worker): nat {
    if worker.Exited? || (worker.Took? && worker.job.Sentinel?) then 1 else 0
  }

  /** In how many places job `id` is: queued, with a worker, sent back, or collected. */
  function Places(s: State, id: nat): nat {
    Sum(s.input, IsJob(id)) + Sum(s.workers, Holds(id)) + Sum(s.output, IsJob(id)) + Sum(s.collected, IsJob(id))
  }

  /** Every dispatched job is in exactly one place. */
  ghost predicate Conserved(c: Config, s: State) {
    forall id: nat :: Places(s, id) == if id < Dispatched(c, s) then 1 else 0
  }

  /** Every sentinel is in the queue or has been taken, by a worker of its own. */
  ghost predicate SentinelsCounted(c: Config, s: State) {
    Sum(s.input, IsSentinel) + Sum(s.workers, HasStopped) == SentinelsPut(c, s)
  }

  ghost predicate MainInPhase(c: Config, s: State) {
    && |s.workers| == c.processors
    && |s.collected| <= |c.tests|
    && match s.main
       case Dispatching(k) => k <= |c.tests| && s.collected == []
       case Stopping(k) => k <= c.processors && s.collected == []
       case Collecting => true
       case Joining(k) => |s.collected| == |c.tests| && k <= c.processors &&
          (forall w :: 0 <= w < k ==> s.workers[w].Exited?)
       case Done => |s.collected| == |c.tests| && (forall w :: 0 <= w < |s.workers| ==> s.workers[w].Exited?)
  }

  /** Sentinels come behind all jobs; once a worker has taken one, no job is left to take. */
  ghost predicate SentinelsLast(s: State) {
    && (forall i, j :: 0 <= i < j < |s.input| && s.input[i].Sentinel? ==> s.input[j].Sentinel?)
    && (forall i :: 0 <= i < |s.input| && s.input[i].Sentinel? ==> !s.main.Dispatching?)
    && (forall w :: 0 <= w < |s.workers| && HasStopped(s.workers[w]) == 1 ==>
          !s.main.Dispatching? && forall i :: 0 <= i < |s.input| ==> s.input[i].Sentinel?)
  }

  ghost predicate Untouched(c: Config, job: Job) {
    job.TestJob? ==> job.id < |c.tests| && job.test == c.tests[job.id] && !job.isBreak
  }

  /** A job that a worker is through with: marked as broken off, which takes an interrupt, or
      to be skipped, or carrying the return code of its test. */
  ghost predicate Processed(c: Config, threadExit: bool, job: Job) {
    && job.TestJob? && job.id < |c.tests| && job.test == c.tests[job.id]
    && (job.isBreak ==> threadExit)
    && (!job.isBreak && !job.test.isSkip ==> job.id < |c.outcome| && job.returncode == c.outcome[job.id])
  }

  ghost predicate JobsFaithful(c: Config, s: State) {
    && (forall job :: job in s.input ==> Untouched(c, job))
    && (forall job :: job in s.output ==> Processed(c, s.threadExit, job))
    && (forall job :: job in s.collected ==> Processed(c, s.threadExit, job))
    && forall w :: 0 <= w < |s.workers| ==>
         match s.workers[w]
         case Took(job) => Untouched(c, job)
         case Running(job) => job.TestJob? && Untouched(c, job) && !job.test.isSkip
         case Finished(job) => Processed(c, s.threadExit, job)
         case _ => true
  }

  ghost predicate Inv(c: Config, s: State) {
    && MainInPhase(c, s) && Conserved(c, s) && SentinelsCounted(c, s) && SentinelsLast(s)
    && JobsFaithful(c, s)
  }

  lemma WorkerKeepsConserved(c: Config, s: State, w: nat)
    requires |c.outcome| == |c.tests| && Conserved(c, s) && JobsFaithful(c, s) && Enabled(c, s, WorkerStep(w))
    ensures Conserved(c, WorkerDo(c, s, w))
  {
    var s' := WorkerDo(c, s, w);
    forall id: nat ensures Places(s', id) == Places(s, id) {
      SumUpdate(s.workers, w, s'.workers[w], Holds(id));
      if s.workers[w].Finished? { SumSnoc(s.output, s.workers[w].job, IsJob(id)); }
    }
  }

  lemma MainKeepsConserved(c: Config, s: State)
    requires MainInPhase(c, s) && Conserved(c, s) && Enabled(c, s, MainStep)
    ensures Conserved(c, MainDo(c, s))
  {
    var s' := MainDo(c, s);
    forall id: nat ensures Places(s', id) == if id < Dispatched(c, s') then 1 else 0 {
      assert Places(s, id) == if id < Dispatched(c, s) then 1 else 0;
      match s.main
      case Dispatching(k) => if k < |c.tests| { SumSnoc(s.input, NewJob(c, k), IsJob(id)); }
      case Stopping(k) => SumSnoc(s.input, Sentinel, IsJob(id));
      case Collecting => if |s.collected| < |c.tests| { SumSnoc(s.collected, s.output[0], IsJob(id)); }
      case _ =>
    }
  }

  lemma WorkerKeepsSentinels(c: Config, s: State, w: nat)
    requires |c.outcome| == |c.tests| && SentinelsCounted(c, s) && JobsFaithful(c, s)
    requires Enabled(c, s, WorkerStep(w))
    ensures SentinelsCounted(c, WorkerDo(c, s, w))
  {
    SumUpdate(s.workers, w, WorkerDo(c, s, w).workers[w], HasStopped);
  }

  lemma MainKeepsSentinels(c: Config, s: State)
    requires SentinelsCounted(c, s) && MainInPhase(c, s) && Enabled(c, s, MainStep)
    ensures SentinelsCounted(c, MainDo(c, s))
  {
    match s.main
    case Dispatching(k) => if k < |c.tests| { SumSnoc(s.input, NewJob(c, k), IsSentinel); }
    case Stopping(k) => SumSnoc(s.input, Sentinel, IsSentinel);
    case _ =>
  }

  lemma KeepsPhase(c: Config, s: State, step: Step)
    requires |c.outcome| == |c.tests| && MainInPhase(c, s) && Enabled(c, s, step)
    ensures MainInPhase(c, Do(c, s, step))
  {
  }

  lemma WorkerKeepsSentinelsLast(c: Config, s: State, w: nat)
    requires |c.outcome| == |c.tests| && SentinelsLast(s) && JobsFaithful(c, s) && Enabled(c, s, WorkerStep(w))
    ensures SentinelsLast(WorkerDo(c, s, w))
  {
    var s' := WorkerDo(c, s, w);
    assert forall v :: 0 <= v < |s.workers| && v != w ==> s'.workers[v] == s.workers[v];
    assert HasStopped(s'.workers[w]) == 1 ==> HasStopped(s.workers[w]) == 1 || s.input[0].Sentinel?;
  }

  lemma MainKeepsSentinelsLast(c: Config, s: State)
    requires SentinelsLast(s) && MainInPhase(c, s) && Enabled(c, s, MainStep)
    ensures SentinelsLast(MainDo(c, s))
  {
  }

  lemma WorkerKeepsFaithful(c: Config, s: State, w: nat)
    requires |c.outcome| == |c.tests| && JobsFaithful(c, s) && Enabled(c, s, WorkerStep(w))
    ensures JobsFaithful(c, WorkerDo(c, s, w))
  {
    if s.workers[w].Waiting? { assert s.input[0] in s.input; }
  }

  lemma InterruptKeepsAll(c: Config, s: State)
    requires Inv(c, s)
    ensures Inv(c, s.(threadExit := true))
  {
    var s' := s.(threadExit := true);
    forall id: nat ensures Places(s', id) == if id < Dispatched(c, s') then 1 else 0 {
      assert Places(s, id) == if id < Dispatched(c, s) then 1 else 0;
    }
  }

  lemma StepKeepsInv(c: Config, s: State, step: Step)
    requires ValidConfig(c) && Inv(c, s) && Enabled(c, s, step)
    ensures Inv(c, Do(c, s, step))
  {
    KeepsPhase(c, s, step);
    match step
    case Interrupt => InterruptKeepsAll(c, s);
    case WorkerStep(w) =>
      WorkerKeepsSentinelsLast(c, s, w);
      WorkerKeepsConserved(c, s, w);
      WorkerKeepsSentinels(c, s, w);
      WorkerKeepsFaithful(c, s, w);
    case MainStep =>
      MainKeepsSentinelsLast(c, s);
      MainKeepsConserved(c, s);
      MainKeepsSentinels(c, s);
  }

  /** Every state of every interleaving satisfies the invariant. */
  lemma {:induction false} RunInv(c: Config, steps: seq<Step>)
    requires ValidConfig(c) && ValidRun(c, steps)
    ensures Inv(c, After(c, steps))
  {
    if steps == [] {
      forall id: nat { SumZero(Init(c).workers, Holds(id)); }
      SumZero(Init(c).workers, HasStopped);
    } else {
      var before, step := steps[..|steps| - 1], steps[|steps| - 1];
      RunInv(c, before);
      StepKeepsInv(c, After(c, before), step);
    }
  }

  // ---- no deadlock, and an end ----

  /** When the main thread waits for a job that is not in the output queue, some worker has
      something to do. */
  lemma SomeWorkerCanMove(c: Config, s: State)
    requires ValidConfig(c) && Inv(c, s)
    requires !s.main.Dispatching? && !s.main.Stopping?
    requires exists v :: 0 <= v < |s.workers| && !s.workers[v].Exited?
    ensures exists w :: Enabled(c, s, WorkerStep(w))
  {
    var v :| 0 <= v < |s.workers| && !s.workers[v].Exited?;
    if s.workers[v].Waiting? && s.input == [] {
      assert s.workers[v] in s.workers && HasStopped(s.workers[v]) == 0;
      SumAtMost(s.workers, HasStopped);
    }
    assert Enabled(c, s, WorkerStep(v));
  }

  /** While a job is missing from what was collected and sent back, some worker is there. */
  lemma WorkerForMissingJob(c: Config, s: State)
    requires ValidConfig(c) && Inv(c, s)
    requires s.main.Collecting? && |s.collected| < |c.tests| && s.output == []
    ensures exists w :: 0 <= w < |s.workers| && !s.workers[w].Exited?
  {
    if forall v :: 0 <= v < |s.workers| ==> s.workers[v].Exited? {
      assert HasStopped(s.workers[0]) == 1;
      forall id: nat | id < |c.tests| ensures HasJob(s.collected, id) {
        SumZero(s.input, IsJob(id));
        SumZero(s.workers, Holds(id));
        assert Places(s, id) == 1;
        var i := SumPositive(s.collected, IsJob(id));
      }
      EnoughJobs(s.collected, |c.tests|);
    }
  }

  /** Until the main thread is done, some thread can take a step. */
  lemma NoDeadlock(c: Config, s: State)
    requires ValidConfig(c) && Inv(c, s) && !s.main.Done?
    ensures exists step :: Enabled(c, s, step) && !step.Interrupt?
  {
    if !Enabled(c, s, MainStep) {
      if s.main.Collecting? {
        WorkerForMissingJob(c, s);
      }
      SomeWorkerCanMove(c, s);
    }
  }

  function JobWork(job: Job): nat { if job.Sentinel? then 2 else 6 }

  function WorkerWork(worker: Worker): nat {
    match worker
    case Waiting => 0
    case Took(job) => if job.Sentinel? then 1 else 5
    case Running(_) => 4
    case Finished(_) => 3
    case Exited => 0
  }

  function MainWork(c: Config, s: State): nat
    requires MainInPhase(c, s)
  {
    match s.main
    case Dispatching(k) => 7 * (|c.tests| - k) + 4 * c.processors + 5
    case Stopping(k) => 3 * (c.processors - k) + c.processors + 4
    case Collecting => c.processors + 3
    case Joining(k) => c.processors - k + 1
    case Done => 0
  }

  /** A bound on the steps still to come. */
  function Remaining(c: Config, s: State): nat
    requires MainInPhase(c, s)
  {
    MainWork(c, s) + QueuedWork(s)
  }

  function QueuedWork(s: State): nat {
    Sum(s.input, JobWork) + Sum(s.workers, WorkerWork) + |s.output| + if s.threadExit then 0 else 1
  }

  lemma WorkerLowersQueuedWork(c: Config, s: State, w: nat)
    requires |c.outcome| == |c.tests| && Enabled(c, s, WorkerStep(w))
    ensures QueuedWork(WorkerDo(c, s, w)) < QueuedWork(s)
  {
    SumUpdate(s.workers, w, WorkerDo(c, s, w).workers[w], WorkerWork);
  }

  lemma WorkerStepProgress(c: Config, s: State, w: nat)
    requires ValidConfig(c) && MainInPhase(c, s) && Enabled(c, s, WorkerStep(w))
    ensures MainInPhase(c, WorkerDo(c, s, w))
    ensures Remaining(c, WorkerDo(c, s, w)) < Remaining(c, s)
  {
    hide QueuedWork;
    KeepsPhase(c, s, WorkerStep(w));
    WorkerLowersQueuedWork(c, s, w);
  }

  lemma MainStepProgress(c: Config, s: State)
    requires ValidConfig(c) && MainInPhase(c, s) && Enabled(c, s, MainStep)
    ensures MainInPhase(c, MainDo(c, s))
    ensures Remaining(c, MainDo(c, s)) < Remaining(c, s)
  {
    KeepsPhase(c, s, MainStep);
    match s.main
    case Dispatching(k) => if k < |c.tests| { SumSnoc(s.input, NewJob(c, k), JobWork); }
    case Stopping(k) => SumSnoc(s.input, Sentinel, JobWork);
    case _ =>
  }

  /** No interleaving goes on for ever: its length is bounded by the number of tests and
      workers alone. */
  lemma {:induction false} RunsAreFinite(c: Config, steps: seq<Step>)
    requires ValidConfig(c) && ValidRun(c, steps)
    ensures MainInPhase(c, After(c, steps))
    ensures |steps| + Remaining(c, After(c, steps)) <= 7 * |c.tests| + 4 * c.processors + 6
  {
    RunInv(c, steps);
    if steps == [] {
      SumZero(Init(c).workers, WorkerWork);
    } else {
      var before, step := steps[..|steps| - 1], steps[|steps| - 1];
      RunsAreFinite(c, before);
      match step
      case WorkerStep(w) => WorkerStepProgress(c, After(c, before), w);
      case MainStep => MainStepProgress(c, After(c, before));
      case Interrupt =>
    }
  }

  /** A run that can only be continued by the interrupt is over. */
  lemma StuckOnlyWhenDone(c: Config, steps: seq<Step>)
    requires ValidConfig(c) && ValidRun(c, steps)
    requires forall step :: Enabled(c, After(c, steps), step) ==> step.Interrupt?
    ensures After(c, steps).main.Done?
  {
    RunInv(c, steps);
    if !After(c, steps).main.Done? {
      NoDeadlock(c, After(c, steps));
    }
  }

  /** No worker leaves while a job is waiting to be taken. */
  lemma NoWorkerLeavesEarly(c: Config, steps: seq<Step>, w: nat)
    requires ValidConfig(c) && ValidRun(c, steps)
    requires w < |After(c, steps).workers| && After(c, steps).workers[w].Exited?
    ensures forall job :: job in After(c, steps).input ==> job.Sentinel?
  {
    RunInv(c, steps);
    assert HasStopped(After(c, steps).workers[w]) == 1;
  }

  // ---- what happens along a run ----

  /** How many sentinels worker `w` has taken from the queue. */
  ghost function SentinelsTaken(c: Config, steps: seq<Step>, w: nat): nat
    requires ValidConfig(c) && ValidRun(c, steps)
  {
    if steps == [] then 0
    else
      var before, step := steps[..|steps| - 1], steps[|steps| - 1];
      var s := After(c, before);
      SentinelsTaken(c, before, w) +
        if step == WorkerStep(w) && s.workers[w].Waiting? && s.input[0].Sentinel? then 1 else 0
  }

  /** How often job `id` has been put into the output queue. */
  ghost function TimesSentBack(c: Config, steps: seq<Step>, id: nat): nat
    requires ValidConfig(c) && ValidRun(c, steps)
  {
    if steps == [] then 0
    else
      var before, step := steps[..|steps| - 1], steps[|steps| - 1];
      var s := After(c, before);
      TimesSentBack(c, before, id) +
        if step.WorkerStep? && s.workers[step.w].Finished? then IsJob(id)(s.workers[step.w].job) else 0
  }

  /** A worker takes at most one sentinel, and it is the last thing it takes. */
  lemma {:induction false} OneSentinelAWorker(c: Config, steps: seq<Step>, w: nat)
    requires ValidConfig(c) && ValidRun(c, steps) && w < c.processors
    ensures |After(c, steps).workers| == c.processors
    ensures SentinelsTaken(c, steps, w) == HasStopped(After(c, steps).workers[w])
  {
    if steps != [] {
      var before, step := steps[..|steps| - 1], steps[|steps| - 1];
      RunInv(c, before);
      OneSentinelAWorker(c, before, w);
      StopStep(c, After(c, before), step, w);
    }
  }

  lemma StopStep(c: Config, s: State, step: Step, w: nat)
    requires |c.outcome| == |c.tests| && JobsFaithful(c, s) && w < |s.workers| && Enabled(c, s, step)
    ensures |Do(c, s, step).workers| == |s.workers|
    ensures HasStopped(Do(c, s, step).workers[w]) == HasStopped(s.workers[w]) +
              if step == WorkerStep(w) && s.workers[w].Waiting? && s.input[0].Sentinel? then 1 else 0
  {
  }

  /** The output queue and the collected jobs hold exactly what was sent back. */
  lemma {:induction false} SentBackOrCollected(c: Config, steps: seq<Step>, id: nat)
    requires ValidConfig(c) && ValidRun(c, steps)
    ensures var s := After(c, steps);
      TimesSentBack(c, steps, id) == Sum(s.output, IsJob(id)) + Sum(s.collected, IsJob(id)) <= 1
  {
    if steps != [] {
      var before, step := steps[..|steps| - 1], steps[|steps| - 1];
      SentBackOrCollected(c, before, id);
      SendStep(c, After(c, before), step, id);
    }
    RunInv(c, steps);
    assert Places(After(c, steps), id) <= 1;
  }

  lemma SendStep(c: Config, s: State, step: Step, id: nat)
    requires |c.outcome| == |c.tests| && Enabled(c, s, step)
    ensures var s' := Do(c, s, step);
      Sum(s'.output, IsJob(id)) + Sum(s'.collected, IsJob(id)) ==
        Sum(s.output, IsJob(id)) + Sum(s.collected, IsJob(id)) +
        if step.WorkerStep? && s.workers[step.w].Finished? then IsJob(id)(s.workers[step.w].job) else 0
  {
    match step
    case Interrupt =>
    case WorkerStep(w) =>
      if s.workers[w].Finished? { SumSnoc(s.output, s.workers[w].job, IsJob(id)); }
    case MainStep =>
      if s.main.Collecting? && s.output != [] { SumSnoc(s.collected, s.output[0], IsJob(id)); }
  }

  /** The jobs sent back, in the order of the steps that did it. */
  ghost function Sent(c: Config, steps: seq<Step>): seq<Job>
    requires ValidConfig(c) && ValidRun(c, steps)
  {
    if steps == [] then []
    else
      var before, step := steps[..|steps| - 1], steps[|steps| - 1];
      var s := After(c, before);
      Sent(c, before) + if step.WorkerStep? && s.workers[step.w].Finished? then [s.workers[step.w].job] else []
  }

  /** The main thread collects the jobs in the order in which they were sent back. */
  lemma {:induction false} CollectedInOrder(c: Config, steps: seq<Step>)
    requires ValidConfig(c) && ValidRun(c, steps)
    ensures After(c, steps).collected + After(c, steps).output == Sent(c, steps)
  {
    if steps != [] {
      var before, step := steps[..|steps| - 1], steps[|steps| - 1];
      CollectedInOrder(c, before);
      SentNext(c, After(c, before), step);
    }
  }

  lemma SentNext(c: Config, s: State, step: Step)
    requires |c.outcome| == |c.tests| && Enabled(c, s, step)
    ensures var s' := Do(c, s, step);
      s'.collected + s'.output == s.collected + s.output +
        if step.WorkerStep? && s.workers[step.w].Finished? then [s.workers[step.w].job] else []
  {
  }

  /** The queue holds the jobs from number `taken` to the last one dispatched, then sentinels. */
  ghost predicate QueueFrom(c: Config, s: State, taken: nat) {
    && taken <= Dispatched(c, s) <= taken + |s.input|
    && (forall i :: 0 <= i < |s.input| ==>
          if i < Dispatched(c, s) - taken then s.input[i].TestJob? && s.input[i].id == taken + i
          else s.input[i].Sentinel?)
  }

  /** The workers take the tests in the order of the list. */
  lemma {:induction false} TakenInOrder(c: Config, steps: seq<Step>)
    requires ValidConfig(c) && ValidRun(c, steps)
    ensures exists taken: nat :: QueueFrom(c, After(c, steps), taken)
  {
    if steps == [] {
      assert QueueFrom(c, After(c, steps), 0);
    } else {
      var before, step := steps[..|steps| - 1], steps[|steps| - 1];
      TakenInOrder(c, before);
      RunInv(c, before);
      var taken: nat :| QueueFrom(c, After(c, before), taken);
      var taken' := QueueStep(c, After(c, before), step, taken);
      assert QueueFrom(c, After(c, steps), taken');
    }
  }

  lemma QueueStep(c: Config, s: State, step: Step, taken: nat) returns (taken': nat)
    requires ValidConfig(c) && Inv(c, s) && Enabled(c, s, step) && QueueFrom(c, s, taken)
    ensures QueueFrom(c, Do(c, s, step), taken')
  {
    hide Conserved, SentinelsCounted, JobsFaithful;
    var s', n := Do(c, s, step), Dispatched(c, s);
    var takes := step.WorkerStep? && s.workers[step.w].Waiting?;
    taken' := if takes && s.input[0].TestJob? then taken + 1 else taken;
    if takes {
      forall i | 0 <= i < |s'.input|
        ensures if i < n - taken' then s'.input[i].TestJob? && s'.input[i].id == taken' + i else s'.input[i].Sentinel?
      {
        assert s'.input[i] == s.input[i + 1];
      }
    } else {
      assert forall i :: 0 <= i < |s.input| ==> s'.input[i] == s.input[i];
      assert s.main.Dispatching? ==> forall i :: 0 <= i < |s.input| ==> s.input[i].TestJob?;
      assert n - taken < |s.input| ==> s.input[n - taken].Sentinel?;
      assert s.main.Dispatching? ==> n - taken == |s.input|;
    }
  }

  // ---- what the interrupt does ----

  /** No worker has looked at job `id` yet: it is still to be dispatched, or queued, or just taken. */
  ghost predicate StillAhead(c: Config, s: State, id: nat) {
    || Dispatched(c, s) <= id < |c.tests|
    || (exists job :: job in s.input && job.TestJob? && job.id == id)
    || (exists w :: 0 <= w < |s.workers| && s.workers[w].Took? && IsJob(id)(s.workers[w].job) == 1)
  }

  /** The exit flag is up, and wherever job `id` is past a worker it is marked as broken off. */
  ghost predicate BrokenBeyond(s: State, id: nat) {
    && s.threadExit
    && (forall job :: job in s.output && IsJob(id)(job) == 1 ==> job.isBreak)
    && (forall job :: job in s.collected && IsJob(id)(job) == 1 ==> job.isBreak)
    && forall w :: 0 <= w < |s.workers| ==>
         match s.workers[w]
         case Running(job) => IsJob(id)(job) == 0
         case Finished(job) => IsJob(id)(job) == 1 ==> job.isBreak
         case _ => true
  }

  lemma AheadIsBroken(c: Config, s: State, id: nat)
    requires Inv(c, s) && s.threadExit && StillAhead(c, s, id)
    ensures BrokenBeyond(s, id)
  {
    hide SentinelsCounted, SentinelsLast, MainInPhase, JobsFaithful;
    assert Places(s, id) == if id < Dispatched(c, s) then 1 else 0;
    forall job | job in s.input ensures Sum(s.input, IsJob(id)) >= IsJob(id)(job) {
      var i :| 0 <= i < |s.input| && s.input[i] == job;
      SumAtLeastAt(s.input, IsJob(id), i);
    }
    forall job | job in s.output ensures Sum(s.output, IsJob(id)) >= IsJob(id)(job) {
      var i :| 0 <= i < |s.output| && s.output[i] == job;
      SumAtLeastAt(s.output, IsJob(id), i);
    }
    forall job | job in s.collected ensures Sum(s.collected, IsJob(id)) >= IsJob(id)(job) {
      var i :| 0 <= i < |s.collected| && s.collected[i] == job;
      SumAtLeastAt(s.collected, IsJob(id), i);
    }
    forall w | 0 <= w < |s.workers| ensures Sum(s.workers, Holds(id)) >= HeldBy(s.workers[w], id) {
      SumAtLeastAt(s.workers, Holds(id), w);
    }
    forall v, w | 0 <= v < w < |s.workers|
      ensures Sum(s.workers, Holds(id)) >= HeldBy(s.workers[v], id) + HeldBy(s.workers[w], id)
    {
      SumAtLeastTwo(s.workers, Holds(id), v, w);
    }
  }

  lemma StaysBroken(c: Config, s: State, step: Step, id: nat)
    requires |c.outcome| == |c.tests| && BrokenBeyond(s, id) && Enabled(c, s, step)
    ensures BrokenBeyond(Do(c, s, step), id)
  {
  }

  lemma {:induction false} BrokenToTheEnd(c: Config, steps: seq<Step>, n: nat, id: nat)
    requires ValidConfig(c) && ValidRun(c, steps) && n <= |steps|
    ensures ValidRun(c, steps[..n])
    ensures BrokenBeyond(After(c, steps[..n]), id) ==> BrokenBeyond(After(c, steps), id)
    decreases |steps|
  {
    if n == |steps| {
      assert steps[..n] == steps;
    } else {
      var before := steps[..|steps| - 1];
      BrokenToTheEnd(c, before, n, id);
      assert before[..n] == steps[..n];
      if BrokenBeyond(After(c, before), id) { StaysBroken(c, After(c, before), steps[|steps| - 1], id); }
    }
  }

  /** Job `id` has been marked as broken off. */
  ghost predicate Broken(s: State, id: nat) {
    || (exists job :: job in s.output && IsJob(id)(job) == 1 && job.isBreak)
    || (exists job :: job in s.collected && IsJob(id)(job) == 1 && job.isBreak)
    || (exists w :: 0 <= w < |s.workers| && s.workers[w].Finished? && IsJob(id)(s.workers[w].job) == 1 &&
          s.workers[w].job.isBreak)
  }

  /** A job is marked only by a worker that looks at it while the flag is up. */
  lemma BrokenBy(c: Config, s: State, step: Step, id: nat)
    requires |c.outcome| == |c.tests| && JobsFaithful(c, s) && Enabled(c, s, step)
    requires Broken(Do(c, s, step), id) && !Broken(s, id)
    ensures s.threadExit && StillAhead(c, s, id)
  {
    var s' := Do(c, s, step);
    if step.WorkerStep? {
      var w := step.w;
      assert forall v :: 0 <= v < |s.workers| && v != w ==> s'.workers[v] == s.workers[v];
    }
  }

  /** The flag was up, after the first `n` steps, before any worker had looked at job `id`. */
  ghost predicate InterruptedBefore(c: Config, steps: seq<Step>, id: nat, n: nat)
    requires ValidConfig(c)
  {
    && n <= |steps| && ValidRun(c, steps[..n])
    && After(c, steps[..n]).threadExit && StillAhead(c, After(c, steps[..n]), id)
  }

  lemma {:induction false} BrokenByInterrupt(c: Config, steps: seq<Step>, id: nat)
    requires ValidConfig(c) && ValidRun(c, steps) && Broken(After(c, steps), id)
    ensures exists n: nat :: InterruptedBefore(c, steps, id, n)
  {
    var m := |steps| - 1;
    var before := steps[..m];
    RunInv(c, before);
    if Broken(After(c, before), id) {
      BrokenByInterrupt(c, before, id);
      var n: nat :| InterruptedBefore(c, before, id, n);
      assert before[..n] == steps[..n];
      assert InterruptedBefore(c, steps, id, n);
    } else {
      BrokenBy(c, After(c, before), steps[m], id);
      assert InterruptedBefore(c, steps, id, m);
    }
  }

  /** In a finished run a job is broken off exactly if the interrupt came before a worker had looked
      at it. */
  lemma BrokenIffInterrupted(c: Config, steps: seq<Step>, id: nat)
    requires ValidConfig(c) && ValidRun(c, steps) && After(c, steps).main.Done? && id < |c.tests|
    ensures (exists job :: job in After(c, steps).collected && job.TestJob? && job.id == id && job.isBreak) <==>
            exists n: nat :: InterruptedBefore(c, steps, id, n)
  {
    hide After, ValidRun, StillAhead, BrokenBeyond;
    RunEnd(c, steps);
    if job :| job in After(c, steps).collected && job.TestJob? && job.id == id && job.isBreak {
      assert Broken(After(c, steps), id);
      BrokenByInterrupt(c, steps, id);
    }
    if n: nat :| InterruptedBefore(c, steps, id, n) {
      RunInv(c, steps[..n]);
      AheadIsBroken(c, After(c, steps[..n]), id);
      BrokenToTheEnd(c, steps, n, id);
      AllMarked(After(c, steps), id);
      var i := SumPositive(After(c, steps).collected, IsJob(id));
      assert After(c, steps).collected[i] in After(c, steps).collected;
    }
  }

  lemma AllMarked(s: State, id: nat)
    requires BrokenBeyond(s, id)
    ensures forall job :: job in s.collected && job.TestJob? && job.id == id ==> job.isBreak
  {
  }

  // ---- how a run ends ----

  /** When the main thread is done: both queues are empty, every worker has exited after taking
      exactly one sentinel, and every job was sent back and collected exactly once. */
  lemma RunEnd(c: Config, steps: seq<Step>)
    requires ValidConfig(c) && ValidRun(c, steps) && After(c, steps).main.Done?
    ensures var s := After(c, steps);
      && s.input == [] && s.output == [] && |s.collected| == |c.tests|
      && (forall w :: 0 <= w < |s.workers| ==> s.workers[w].Exited?)
      && (forall id: nat :: Sum(s.collected, IsJob(id)) == if id < |c.tests| then 1 else 0)
      && (forall job :: job in s.collected ==> Processed(c, s.threadExit, job))
      && (forall w :: 0 <= w < c.processors ==> SentinelsTaken(c, steps, w) == 1)
      && (forall id: nat :: id < |c.tests| ==> TimesSentBack(c, steps, id) == 1)
  {
    hide After, ValidRun, Inv, Processed, SentinelsTaken, TimesSentBack;
    RunInv(c, steps);
    var s := After(c, steps);
    EndState(c, s);
    forall w | 0 <= w < c.processors ensures SentinelsTaken(c, steps, w) == 1 {
      OneSentinelAWorker(c, steps, w);
    }
    forall id: nat | id < |c.tests| ensures TimesSentBack(c, steps, id) == 1 {
      SentBackOrCollected(c, steps, id);
    }
  }

  lemma EndState(c: Config, s: State)
    requires ValidConfig(c) && Inv(c, s) && s.main.Done?
    ensures s.input == [] && s.output == [] && |s.collected| == |c.tests| && |s.workers| == c.processors
    ensures forall w :: 0 <= w < |s.workers| ==> s.workers[w].Exited?
    ensures forall id: nat :: Sum(s.collected, IsJob(id)) == if id < |c.tests| then 1 else 0
    ensures forall job :: job in s.collected ==> Processed(c, s.threadExit, job)
  {
    AllExited(s.workers);
    if s.input != [] {
      SumAtLeastAt(s.input, IsSentinel, 0);
    }
    OutputEmpty(c, s);
    forall id: nat ensures Sum(s.collected, IsJob(id)) == if id < |c.tests| then 1 else 0 {
      assert Places(s, id) == if id < Dispatched(c, s) then 1 else 0;
      SumZero(s.workers, Holds(id));
    }
  }

  /** As many jobs were collected as there are tests, so none can be left over. */
  lemma OutputEmpty(c: Config, s: State)
    requires Inv(c, s) && |s.collected| == |c.tests| == Dispatched(c, s)
    ensures s.output == []
  {
    if s.output != [] {
      var job := s.output[0];
      assert job in s.output;
      forall id: nat ensures Sum(s.collected, IsJob(id)) <= (if id == job.id then 0 else 1) {
        assert Places(s, id) == if id < Dispatched(c, s) then 1 else 0;
        SumAtLeastAt(s.output, IsJob(id), 0);
      }
      var ids := NumbersBelow(|c.tests|);
      forall other | other in s.collected ensures other.id in ids - {job.id} {
        var i :| 0 <= i < |s.collected| && s.collected[i] == other;
        SumAtLeastAt(s.collected, IsJob(other.id), i);
      }
      NoMoreThanIds(s.collected, ids - {job.id});
    }
  }

  // ---- counting ----

  lemma {:induction false} SumPositive<T>(s: seq<T>, f: T -> nat) returns (i: nat)
    requires Sum(s, f) > 0
    ensures i < |s| && f(s[i]) > 0
  {
    if f(s[0]) > 0 {
      i := 0;
    } else {
      i := SumPositive(s[1..], f);
      i := i + 1;
    }
  }

  lemma {:induction false} SumAtMost<T>(s: seq<T>, f: T -> nat)
    requires forall x :: x in s ==> f(x) <= 1
    ensures Sum(s, f) <= |s|
    ensures (exists x :: x in s && f(x) == 0) ==> Sum(s, f) < |s|
  {
    if s != [] { SumAtMost(s[1..], f); }
  }

  lemma {:induction false} SumAtLeastAt<T>(s: seq<T>, f: T -> nat, i: nat)
    requires i < |s|
    ensures Sum(s, f) >= f(s[i])
  {
    if i > 0 { SumAtLeastAt(s[1..], f, i - 1); }
  }

  ghost predicate HasJob(jobs: seq<Job>, id: nat) {
    exists i :: 0 <= i < |jobs| && jobs[i].TestJob? && jobs[i].id == id
  }

  lemma {:induction false} EnoughJobs(jobs: seq<Job>, n: nat)
    requires forall id: nat :: id < n ==> HasJob(jobs, id)
    ensures |jobs| >= n
  {
    if n > 0 {
      assert HasJob(jobs, n - 1);
      var i :| 0 <= i < |jobs| && jobs[i].TestJob? && jobs[i].id == n - 1;
      var rest := jobs[..i] + jobs[i + 1..];
      forall id: nat | id < n - 1 ensures HasJob(rest, id) {
        assert HasJob(jobs, id);
        var j :| 0 <= j < |jobs| && jobs[j].TestJob? && jobs[j].id == id;
        assert rest[if j < i then j else j - 1] == jobs[j];
      }
      EnoughJobs(rest, n - 1);
    }
  }

  lemma {:induction false} AllExited(workers: seq<Worker>)
    requires forall w :: 0 <= w < |workers| ==> workers[w].Exited?
    ensures Sum(workers, HasStopped) == |workers|
  {
    if workers != [] { AllExited(workers[1..]); }
  }

  lemma {:induction false} SumAtLeastTwo<T>(s: seq<T>, f: T -> nat, i: nat, j: nat)
    requires i < j < |s|
    ensures Sum(s, f) >= f(s[i]) + f(s[j])
  {
    if i == 0 {
      SumAtLeastAt(s[1..], f, j - 1);
    } else {
      SumAtLeastTwo(s[1..], f, i - 1, j - 1);
    }
  }

  lemma {:induction false} NumbersBelow(n: nat) returns (s: set<nat>)
    ensures forall i: nat :: i in s <==> i < n
    ensures |s| == n
  {
    if n == 0 {
      s := {};
    } else {
      s := NumbersBelow(n - 1);
      s := s + {n - 1};
    }
  }

  /** Jobs with different numbers are no more than there are numbers. */
  lemma {:induction false} NoMoreThanIds(jobs: seq<Job>, ids: set<nat>)
    requires forall job :: job in jobs ==> job.TestJob? && job.id in ids
    requires forall id: nat :: Sum(jobs, IsJob(id)) <= 1
    ensures |jobs| <= |ids|
  {
    if jobs != [] {
      var id, rest := jobs[0].id, jobs[1..];
      forall job | job in rest ensures job.TestJob? && job.id in ids - {id} {
        var i :| 0 <= i < |rest| && rest[i] == job;
        assert Sum(jobs, IsJob(id)) == 1 + Sum(rest, IsJob(id));
        SumAtLeastAt(rest, IsJob(id), i);
      }
      forall other: nat ensures Sum(rest, IsJob(other)) <= 1 {
        assert Sum(jobs, IsJob(other)) <= 1;
      }
      NoMoreThanIds(rest, ids - {id});
    }
  }
}
