/** The collecting loop of the test runner: counters, name lists and exit status, and why they do
    not depend on the order in which the jobs come back. */
module RunVerdict {
  import opened WorkerPool

  datatype Verdict = Interrupted | Skipped | Passed | Failed | ValgrindError | Crashed

  datatype Tally = Tally(passed: nat, skipped: nat, failed: nat, valgrind: nat, crashed: nat,
                         skippedNames: seq<string>, failedNames: seq<string>,
                         valgrindNames: seq<string>, crashedNames: seq<string>)

  function VerdictFor(test: Test, returncode: int): Verdict {
    if test.isSkip then Skipped
    else if returncode == 0 then Passed
    else if returncode == 1 then Failed
    else if returncode == 2 then ValgrindError
    else Crashed
  }

  function VerdictOf(job: Job): Verdict {
    if job.Sentinel? || job.isBreak then Interrupted else VerdictFor(job.test, job.returncode)
  }

  function ListedName(test: Test): string {
    if test.isSkip then test.name + " (" + test.skipReason + ")" else test.name
  }

  function NameOf(job: Job): string {
    if job.Sentinel? then "" else ListedName(job.test)
  }

  function NameIf(job: Job, v: Verdict): seq<string> {
    if VerdictOf(job) == v then [NameOf(job)] else []
  }

  function NamesWith(jobs: seq<Job>, v: Verdict): seq<string> {
    if jobs == [] then [] else NamesWith(jobs[..|jobs| - 1], v) + NameIf(jobs[|jobs| - 1], v)
  }

  ghost predicate Tallied(jobs: seq<Job>, t: Tally) {
    && t.passed == |NamesWith(jobs, Passed)|
    && t.skipped == |t.skippedNames| && t.skippedNames == NamesWith(jobs, Skipped)
    && t.failed == |t.failedNames| && t.failedNames == NamesWith(jobs, Failed)
    && t.valgrind == |t.valgrindNames| && t.valgrindNames == NamesWith(jobs, ValgrindError)
    && t.crashed == |t.crashedNames| && t.crashedNames == NamesWith(jobs, Crashed)
  }

  /** `jobs` are the ones the gets return, in that order. */
  method CollectResults(jobs: seq<Job>) returns (t: Tally)
    requires forall job :: job in jobs ==> job.TestJob?
    ensures Tallied(jobs, t)
  {
    var passed, failed, crashed, valgrind, skipped := 0, 0, 0, 0, 0;
    var failedNames: seq<string>, crashedNames: seq<string> := [], [];
    var valgrindNames: seq<string>, skippedNames: seq<string> := [], [];
    for i := 0 to |jobs|
      invariant Tallied(jobs[..i], Tally(passed, skipped, failed, valgrind, crashed,
                                         skippedNames, failedNames, valgrindNames, crashedNames))
    {
      var job := jobs[i];
      assert jobs[..i + 1][..i] == jobs[..i] && job in jobs;
      if job.isBreak {
        continue;
      }
      if job.test.isSkip {
        skipped := skipped + 1;
        skippedNames := skippedNames + [job.test.name + " (" + job.test.skipReason + ")"];
      } else if job.returncode == 0 {
        passed := passed + 1;
      } else if job.returncode == 1 {
        failed := failed + 1;
        failedNames := failedNames + [job.test.name];
      } else if job.returncode == 2 {
        valgrind := valgrind + 1;
        valgrindNames := valgrindNames + [job.test.name];
      } else {
        crashed := crashed + 1;
        crashedNames := crashedNames + [job.test.name];
      }
    }
    assert jobs[..|jobs|] == jobs;
    t := Tally(passed, skipped, failed, valgrind, crashed, skippedNames, failedNames, valgrindNames, crashedNames);
  }

  function ExitStatus(t: Tally, totalTests: nat): int {
    if t.passed + t.skipped == totalTests then 0 else 1
  }

  // ---- the counters ----

  lemma {:induction false} VerdictsAddUp(jobs: seq<Job>)
    ensures |NamesWith(jobs, Interrupted)| + |NamesWith(jobs, Skipped)| + |NamesWith(jobs, Passed)|
      + |NamesWith(jobs, Failed)| + |NamesWith(jobs, ValgrindError)| + |NamesWith(jobs, Crashed)| == |jobs|
  {
    if jobs != [] { VerdictsAddUp(jobs[..|jobs| - 1]); }
  }

  lemma {:induction false} NoneWith(jobs: seq<Job>, v: Verdict)
    ensures NamesWith(jobs, v) == [] <==> forall job :: job in jobs ==> VerdictOf(job) != v
  {
    if jobs != [] {
      var front, job := jobs[..|jobs| - 1], jobs[|jobs| - 1];
      NoneWith(front, v);
      assert jobs == front + [job];
    }
  }

  /** In every finished run, interrupted or not, the counters and the interrupted jobs add up to
      the number of tests. */
  lemma CountersAddUp(c: Config, steps: seq<Step>, t: Tally)
    requires ValidConfig(c) && ValidRun(c, steps) && After(c, steps).main.Done?
    requires Tallied(After(c, steps).collected, t)
    ensures t.passed + t.failed + t.crashed + t.valgrind + t.skipped
      + |NamesWith(After(c, steps).collected, Interrupted)| == |c.tests|
  {
    RunEnd(c, steps);
    VerdictsAddUp(After(c, steps).collected);
  }

  lemma JobFor(jobs: seq<Job>, n: nat, id: nat)
    requires forall j: nat :: Sum(jobs, IsJob(j)) == if j < n then 1 else 0
    requires id < n
    ensures exists job :: job in jobs && job.TestJob? && job.id == id
  {
    var i := SumPositive(jobs, IsJob(id));
    assert jobs[i] in jobs;
  }

  /** An interrupt that comes before some test is looked at makes the run fail, whatever that test
      would have returned. */
  lemma InterruptFails(c: Config, steps: seq<Step>, t: Tally, id: nat, n: nat)
    requires ValidConfig(c) && ValidRun(c, steps) && After(c, steps).main.Done?
    requires Tallied(After(c, steps).collected, t) && id < |c.tests|
    requires InterruptedBefore(c, steps, id, n)
    ensures exists job :: job in After(c, steps).collected && job.TestJob? && job.id == id &&
              VerdictOf(job) == Interrupted
    ensures ExitStatus(t, |c.tests|) == 1
  {
    hide After, ValidRun, InterruptedBefore;
    BrokenIffInterrupted(c, steps, id);
    SuccessIff(c, steps, t);
  }

  /** What a job that comes back counts as: one that is to be skipped does so whatever its return code;
      of the others 0 has passed, 1 has failed, 2 is a valgrind error, and any other code, a
      negative one included, is a crash. */
  ghost predicate CountsAs(job: Job, v: Verdict)
    requires job.TestJob?
  {
    match v
    case Interrupted => job.isBreak
    case Skipped => !job.isBreak && job.test.isSkip
    case Passed => !job.isBreak && !job.test.isSkip && job.returncode == 0
    case Failed => !job.isBreak && !job.test.isSkip && job.returncode == 1
    case ValgrindError => !job.isBreak && !job.test.isSkip && job.returncode == 2
    case Crashed => !job.isBreak && !job.test.isSkip && job.returncode !in {0, 1, 2}
  }

  /** The jobs at the places `at`, and only they, count as `v`, and `names` are theirs. */
  ghost predicate Lists(jobs: seq<Job>, v: Verdict, names: seq<string>, at: seq<nat>)
    requires forall job :: job in jobs ==> job.TestJob?
  {
    && |at| == |names| && (forall m, n :: 0 <= m < n < |at| ==> at[m] < at[n])
    && (forall m :: 0 <= m < |at| ==> at[m] < |jobs|)
    && (forall i :: 0 <= i < |jobs| ==> (CountsAs(jobs[i], v) <==> i in at))
    && forall m :: 0 <= m < |at| ==>
         var test := jobs[at[m]].test;
         names[m] == if v.Skipped? then test.name + " (" + test.skipReason + ")" else test.name
  }

  lemma VerdictIff(job: Job, v: Verdict)
    requires job.TestJob?
    ensures VerdictOf(job) == v <==> CountsAs(job, v)
  {
  }

  lemma ListsSnoc(front: seq<Job>, job: Job, v: Verdict, names: seq<string>, at: seq<nat>)
    requires job.TestJob? && (forall j :: j in front ==> j.TestJob?) && Lists(front, v, names, at)
    ensures !CountsAs(job, v) ==> Lists(front + [job], v, names, at)
    ensures v != Interrupted && CountsAs(job, v) ==> Lists(front + [job], v, names + [NameOf(job)], at + [|front|])
  {
    hide CountsAs;
    var n, jobs := |front|, front + [job];
    assert forall i :: 0 <= i < n ==> jobs[i] == front[i];
    assert forall i :: i in at + [n] <==> i in at || i == n;
    VerdictIff(job, v);
  }

  lemma {:induction false} NamesAre(jobs: seq<Job>, v: Verdict) returns (at: seq<nat>)
    requires v != Interrupted && forall job :: job in jobs ==> job.TestJob?
    ensures Lists(jobs, v, NamesWith(jobs, v), at)
  {
    at := [];
    if jobs != [] {
      var front, job := jobs[..|jobs| - 1], jobs[|jobs| - 1];
      at := NamesAre(front, v);
      assert jobs == front + [job];
      assert job in jobs;
      hide Lists;
      ListsSnoc(front, job, v, NamesWith(front, v), at);
      VerdictIff(job, v);
      if VerdictOf(job) == v { at := at + [|front|]; }
    }
  }

  /** Which jobs each counter counts and each list names, in the order in which they came. */
  lemma TallyOf(jobs: seq<Job>, t: Tally)
    requires Tallied(jobs, t) && forall job :: job in jobs ==> job.TestJob?
    ensures exists names, at: seq<nat> :: Lists(jobs, Passed, names, at) && t.passed == |names|
    ensures exists at: seq<nat> :: Lists(jobs, Skipped, t.skippedNames, at) && t.skipped == |at|
    ensures exists at: seq<nat> :: Lists(jobs, Failed, t.failedNames, at) && t.failed == |at|
    ensures exists at: seq<nat> :: Lists(jobs, ValgrindError, t.valgrindNames, at) && t.valgrind == |at|
    ensures exists at: seq<nat> :: Lists(jobs, Crashed, t.crashedNames, at) && t.crashed == |at|
  {
    hide Lists, NamesWith;
    var p := NamesAre(jobs, Passed);
    var s := NamesAre(jobs, Skipped);
    var f := NamesAre(jobs, Failed);
    var v := NamesAre(jobs, ValgrindError);
    var c := NamesAre(jobs, Crashed);
    OneEach(jobs, Skipped, t.skippedNames, s);
    OneEach(jobs, Failed, t.failedNames, f);
    OneEach(jobs, ValgrindError, t.valgrindNames, v);
    OneEach(jobs, Crashed, t.crashedNames, c);
  }

  lemma OneEach(jobs: seq<Job>, v: Verdict, names: seq<string>, at: seq<nat>)
    requires (forall job :: job in jobs ==> job.TestJob?) && Lists(jobs, v, names, at)
    ensures |at| == |names|
  {
  }

  /** Success means: nothing was broken off, and every test was to be skipped or gave 0. */
  lemma SuccessIff(c: Config, steps: seq<Step>, t: Tally)
    requires ValidConfig(c) && ValidRun(c, steps) && After(c, steps).main.Done?
    requires Tallied(After(c, steps).collected, t)
    ensures ExitStatus(t, |c.tests|) == 0 <==>
      && (forall job :: job in After(c, steps).collected ==> VerdictOf(job) != Interrupted)
      && forall i :: 0 <= i < |c.tests| ==> c.tests[i].isSkip || c.outcome[i] == 0
  {
    hide After, ValidRun, Sum, NamesWith, IsJob;
    RunEnd(c, steps);
    var jobs := After(c, steps).collected;
    VerdictsAddUp(jobs);
    NoneWith(jobs, Interrupted);
    NoneWith(jobs, Failed);
    NoneWith(jobs, ValgrindError);
    NoneWith(jobs, Crashed);
    if ExitStatus(t, |c.tests|) == 0 {
      forall i | 0 <= i < |c.tests| ensures c.tests[i].isSkip || c.outcome[i] == 0 {
        JobFor(jobs, |c.tests|, i);
      }
    }
  }

  // ---- independence of the schedule ----

  /** What the tests alone determine: the names, in dispatch order, with verdict `v`. */
  function Expected(c: Config, n: nat, v: Verdict): seq<string>
    requires n <= |c.tests| == |c.outcome|
  {
    if n == 0 then [] else Expected(c, n - 1, v) + ExpectedIf(c, n - 1, v)
  }

  function ExpectedIf(c: Config, i: nat, v: Verdict): seq<string>
    requires i < |c.tests| == |c.outcome|
  {
    if VerdictFor(c.tests[i], c.outcome[i]) == v then [ListedName(c.tests[i])] else []
  }

  lemma {:induction false} NamesConcat(a: seq<Job>, b: seq<Job>, v: Verdict)
    ensures NamesWith(a + b, v) == NamesWith(a, v) + NamesWith(b, v)
  {
    if b == [] {
      assert a + b == a;
    } else {
      assert (a + b)[..|a + b| - 1] == a + b[..|b| - 1];
      NamesConcat(a, b[..|b| - 1], v);
    }
  }

  lemma {:induction false} SumConcat<T>(a: seq<T>, b: seq<T>, f: T -> nat)
    ensures Sum(a + b, f) == Sum(a, f) + Sum(b, f)
  {
    if a == [] {
      assert a + b == b;
    } else {
      assert (a + b)[1..] == a[1..] + b;
      SumConcat(a[1..], b, f);
    }
  }

  /** An unbroken job has the verdict its test and return code determine. */
  ghost predicate AsExpected(c: Config, job: Job)
    requires |c.outcome| == |c.tests|
  {
    Processed(c, true, job) && !job.isBreak
  }

  lemma RemoveJob(jobs: seq<Job>, i: nat, v: Verdict)
    requires i < |jobs|
    ensures var rest := jobs[..i] + jobs[i + 1..];
      && multiset(NamesWith(jobs, v)) == multiset(NamesWith(rest, v)) + multiset(NameIf(jobs[i], v))
      && forall id: nat :: Sum(jobs, IsJob(id)) == Sum(rest, IsJob(id)) + IsJob(id)(jobs[i])
  {
    hide NamesWith, Sum, IsJob, NameIf;
    var a, x, b := jobs[..i], jobs[i], jobs[i + 1..];
    assert jobs == a + ([x] + b);
    NamesConcat(a, [x] + b, v);
    NamesConcat([x], b, v);
    NamesConcat(a, b, v);
    OneName(x, v);
    forall id: nat ensures Sum(jobs, IsJob(id)) == Sum(a + b, IsJob(id)) + IsJob(id)(x) {
      SumConcat(a, [x] + b, IsJob(id));
      SumConcat([x], b, IsJob(id));
      SumConcat(a, b, IsJob(id));
      OneSum(x, IsJob(id));
    }
  }

  lemma OneName(x: Job, v: Verdict)
    ensures NamesWith([x], v) == NameIf(x, v)
  {
    assert [x][..0] == [];
  }

  lemma OneSum(x: Job, f: Job -> nat)
    ensures Sum([x], f) == f(x)
  {
  }

  lemma AsExpectedVerdict(c: Config, job: Job)
    requires |c.outcome| == |c.tests| && AsExpected(c, job)
    ensures forall v :: NameIf(job, v) == ExpectedIf(c, job.id, v)
  {
  }

  lemma NoNames(c: Config, v: Verdict)
    requires |c.outcome| == |c.tests|
    ensures NamesWith([], v) == Expected(c, 0, v) == []
  {
  }

  lemma ExpectedStep(c: Config, n: nat, v: Verdict)
    requires 0 < n <= |c.tests| == |c.outcome|
    ensures multiset(Expected(c, n, v)) == multiset(Expected(c, n - 1, v)) + multiset(ExpectedIf(c, n - 1, v))
  {
  }

  /** The jobs numbered below `n`, each once, none of them broken off, in some order. */
  ghost predicate AllOnce(c: Config, jobs: seq<Job>, n: nat)
    requires |c.outcome| == |c.tests|
  {
    && (forall job :: job in jobs ==> AsExpected(c, job))
    && forall id: nat :: Sum(jobs, IsJob(id)) == if id < n then 1 else 0
  }

  lemma LastJobAt(c: Config, jobs: seq<Job>, n: nat) returns (i: nat)
    requires 0 < n <= |c.tests| == |c.outcome| && AllOnce(c, jobs, n)
    ensures i < |jobs| && jobs[i].TestJob? && jobs[i].id == n - 1 && AsExpected(c, jobs[i])
  {
    i := SumPositive(jobs, IsJob(n - 1));
    assert jobs[i] in jobs;
  }

  lemma TakeLastJob(c: Config, jobs: seq<Job>, n: nat, v: Verdict)
    requires 0 < n <= |c.tests| == |c.outcome| && AllOnce(c, jobs, n)
    ensures exists rest :: AllOnce(c, rest, n - 1) &&
              multiset(NamesWith(jobs, v)) == multiset(NamesWith(rest, v)) + multiset(ExpectedIf(c, n - 1, v))
  {
    hide AllOnce, NamesWith, Sum, IsJob, NameIf, ExpectedIf, AsExpected;
    var i := LastJobAt(c, jobs, n);
    var rest := jobs[..i] + jobs[i + 1..];
    RestOnce(c, jobs, n, i);
    AsExpectedVerdict(c, jobs[i]);
    RemoveJob(jobs, i, v);
  }

  lemma RestOnce(c: Config, jobs: seq<Job>, n: nat, i: nat)
    requires 0 < n <= |c.tests| == |c.outcome| && AllOnce(c, jobs, n)
    requires i < |jobs| && jobs[i].TestJob? && jobs[i].id == n - 1
    ensures AllOnce(c, jobs[..i] + jobs[i + 1..], n - 1)
  {
    hide Sum, NamesWith;
    RemoveJob(jobs, i, Passed);
    var rest := jobs[..i] + jobs[i + 1..];
    forall id: nat ensures Sum(rest, IsJob(id)) == if id < n - 1 then 1 else 0 {
      assert Sum(jobs, IsJob(id)) == if id < n then 1 else 0;
    }
  }

  lemma NoJobs(c: Config, jobs: seq<Job>)
    requires |c.outcome| == |c.tests| && AllOnce(c, jobs, 0)
    ensures jobs == []
  {
    if jobs != [] {
      assert jobs[0] in jobs;
      SumAtLeastAt(jobs, IsJob(jobs[0].id), 0);
    }
  }

  lemma {:induction false} AnyOrderAsExpected(c: Config, n: nat, jobs: seq<Job>, v: Verdict)
    requires n <= |c.tests| == |c.outcome| && AllOnce(c, jobs, n)
    ensures multiset(NamesWith(jobs, v)) == multiset(Expected(c, n, v))
    decreases n
  {
    hide AllOnce, NamesWith, Expected, ExpectedIf;
    if n == 0 {
      NoJobs(c, jobs);
      NoNames(c, v);
    } else {
      TakeLastJob(c, jobs, n, v);
      var rest :| AllOnce(c, rest, n - 1) &&
        multiset(NamesWith(jobs, v)) == multiset(NamesWith(rest, v)) + multiset(ExpectedIf(c, n - 1, v));
      AnyOrderAsExpected(c, n - 1, rest, v);
      ExpectedStep(c, n, v);
    }
  }

  /** Without an interruption the counters, and the name lists up to order, are fixed by the
      tests and their return codes, whatever the interleaving. */
  lemma TallyIsScheduleIndependent(c: Config, steps: seq<Step>, v: Verdict)
    requires ValidConfig(c) && ValidRun(c, steps) && After(c, steps).main.Done?
    requires forall job :: job in After(c, steps).collected ==> VerdictOf(job) != Interrupted
    ensures multiset(NamesWith(After(c, steps).collected, v)) == multiset(Expected(c, |c.tests|, v))
    ensures |NamesWith(After(c, steps).collected, v)| == |Expected(c, |c.tests|, v)|
  {
    RunEnd(c, steps);
    var names := NamesWith(After(c, steps).collected, v);
    AnyOrderAsExpected(c, |c.tests|, After(c, steps).collected, v);
    assert |multiset(names)| == |names|;
    assert |multiset(Expected(c, |c.tests|, v))| == |Expected(c, |c.tests|, v)|;
  }

  // ---- the sorted name lists ----

  function StringLeq(a: string, b: string): bool {
    a == "" || (b != "" && (a[0] < b[0] || (a[0] == b[0] && StringLeq(a[1..], b[1..]))))
  }

  /** The order is that of dictionaries: a beginning comes first, else the first difference decides. */
  lemma {:induction false} StringLeqIs(a: string, b: string)
    ensures StringLeq(a, b) <==>
              a <= b || exists k :: 0 <= k < |a| && k < |b| && a[..k] == b[..k] && a[k] < b[k]
  {
    if a != "" && b != "" && a[0] == b[0] {
      StringLeqIs(a[1..], b[1..]);
      assert a == [a[0]] + a[1..] && b == [b[0]] + b[1..];
      if k :| 0 <= k < |a[1..]| && k < |b[1..]| && a[1..][..k] == b[1..][..k] && a[1..][k] < b[1..][k] {
        assert a[..k + 1] == [a[0]] + a[1..][..k] && b[..k + 1] == [b[0]] + b[1..][..k];
        assert a[k + 1] < b[k + 1];
      }
      if k :| 0 <= k < |a| && k < |b| && a[..k] == b[..k] && a[k] < b[k] {
        assert a[1..][..k - 1] == a[..k][1..] == b[..k][1..] == b[1..][..k - 1];
        assert a[1..][k - 1] < b[1..][k - 1];
      }
    } else if a != "" && b != "" && a[0] < b[0] {
      assert a[..0] == b[..0];
    }
  }

  lemma {:induction false} StringLeqAntisymmetric(a: string, b: string)
    requires StringLeq(a, b) && StringLeq(b, a)
    ensures a == b
  {
    if a != "" {
      StringLeqAntisymmetric(a[1..], b[1..]);
      assert a == [a[0]] + a[1..] && b == [b[0]] + b[1..];
    }
  }

  lemma {:induction false} StringLeqReflexive(a: string)
    ensures StringLeq(a, a)
  {
    if a != "" { StringLeqReflexive(a[1..]); }
  }

  ghost predicate Ascending(s: seq<string>) {
    forall i, j :: 0 <= i < j < |s| ==> StringLeq(s[i], s[j])
  }

  /** `t` is `s` after `s.sort()`. */
  ghost predicate SortOf(s: seq<string>, t: seq<string>) {
    multiset(s) == multiset(t) && Ascending(t)
  }

  lemma TailMultiset(s: seq<string>)
    requires s != []
    ensures multiset(s[1..]) == multiset(s) - multiset{s[0]}
    ensures Ascending(s) ==> Ascending(s[1..])
  {
    assert s == [s[0]] + s[1..];
  }

  lemma {:induction false} AscendingUnique(s: seq<string>, t: seq<string>)
    requires Ascending(s) && Ascending(t) && multiset(s) == multiset(t)
    ensures s == t
  {
    hide StringLeq, Ascending;
    assert |multiset(s)| == |s| && |multiset(t)| == |t|;
    if s != [] {
      HeadIsLeast(s, t);
      HeadIsLeast(t, s);
      StringLeqAntisymmetric(s[0], t[0]);
      TailMultiset(s);
      TailMultiset(t);
      AscendingUnique(s[1..], t[1..]);
      assert s == [s[0]] + s[1..] && t == [t[0]] + t[1..];
    }
  }

  lemma HeadIsLeast(s: seq<string>, t: seq<string>)
    requires Ascending(s) && multiset(s) == multiset(t) && s != [] && t != []
    ensures StringLeq(s[0], t[0])
  {
    assert t[0] in multiset(t);
    var i :| 0 <= i < |s| && s[i] == t[0];
    StringLeqReflexive(s[0]);
  }

  lemma SortsAlike(s: seq<string>, t: seq<string>)
    requires multiset(s) == multiset(t)
    ensures forall s', t' :: SortOf(s, s') && SortOf(t, t') ==> s' == t'
  {
    forall s', t' | SortOf(s, s') && SortOf(t, t') ensures s' == t' {
      AscendingUnique(s', t');
    }
  }

  lemma TwoRuns(c: Config, steps: seq<Step>, steps': seq<Step>, v: Verdict)
    requires ValidConfig(c) && ValidRun(c, steps) && ValidRun(c, steps')
    requires After(c, steps).main.Done? && After(c, steps').main.Done?
    requires !After(c, steps).threadExit && !After(c, steps').threadExit
    ensures var names, names' := NamesWith(After(c, steps).collected, v), NamesWith(After(c, steps').collected, v);
      |names| == |names'| && forall s, s' :: SortOf(names, s) && SortOf(names', s') ==> s == s'
  {
    hide NamesWith, After, ValidRun, Sum, Expected, SortOf;
    RunEnd(c, steps);
    TallyIsScheduleIndependent(c, steps, v);
    RunEnd(c, steps');
    TallyIsScheduleIndependent(c, steps', v);
    SortsAlike(NamesWith(After(c, steps).collected, v), NamesWith(After(c, steps').collected, v));
  }

  /** Two uninterrupted runs of the same tests report the same counters and, once sorted, the
      same name lists, and they exit with the same status. */
  lemma SchedulesReportTheSame(c: Config, steps: seq<Step>, steps': seq<Step>, t: Tally, t': Tally)
    requires ValidConfig(c) && ValidRun(c, steps) && ValidRun(c, steps')
    requires After(c, steps).main.Done? && After(c, steps').main.Done?
    requires !After(c, steps).threadExit && !After(c, steps').threadExit
    requires Tallied(After(c, steps).collected, t) && Tallied(After(c, steps').collected, t')
    ensures t.passed == t'.passed && t.skipped == t'.skipped && t.failed == t'.failed
    ensures t.valgrind == t'.valgrind && t.crashed == t'.crashed
    ensures forall s, s' :: SortOf(t.skippedNames, s) && SortOf(t'.skippedNames, s') ==> s == s'
    ensures forall s, s' :: SortOf(t.failedNames, s) && SortOf(t'.failedNames, s') ==> s == s'
    ensures forall s, s' :: SortOf(t.valgrindNames, s) && SortOf(t'.valgrindNames, s') ==> s == s'
    ensures forall s, s' :: SortOf(t.crashedNames, s) && SortOf(t'.crashedNames, s') ==> s == s'
    ensures ExitStatus(t, |c.tests|) == ExitStatus(t', |c.tests|)
  {
    hide NamesWith, After, ValidRun, SortOf;
    TwoRuns(c, steps, steps', Passed);
    TwoRuns(c, steps, steps', Skipped);
    TwoRuns(c, steps, steps', Failed);
    TwoRuns(c, steps, steps', ValgrindError);
    TwoRuns(c, steps, steps', Crashed);
  }
}
