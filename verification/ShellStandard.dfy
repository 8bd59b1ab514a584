/** What a run amounts to, in terms of the nodes of the pipeline: pipes, directories, and when it
    does what sections 2.9.2 and 2.9.3 of the POSIX.1-2017 Shell Command Language prescribe. */
module ShellStandard {
  import opened Wrappers
  import opened ShellParse
  import opened ShellGrammar
  import opened ShellRun
  import opened ShellLists

  // ---- pipes and directories ----

  /** A process reads from a pipe only if the one launched just before it writes to one. */
  lemma PipesConnect(p: seq<Node>, exits: nat -> int, r: Execution, k: nat)
    requires Runnable(p) && RunsAs(Items(p, 0, "."), exits, r) && k < |r.launched|
    ensures r.launched[k].stdin.FromProcess? ==>
              k > 0 && r.launched[k].stdin == FromProcess(k - 1) && r.launched[k - 1].stdout == ToPipe
  {
    var items := Items(p, 0, ".");
    ItemsShape(p, 0, ".");
    assert r.launched[k] == LaunchOf(items, k);
    if k > 0 {
      assert r.launched[k - 1] == LaunchOf(items, k - 1);
    }
  }

  /** How many commands there are before node `n`. */
  function CommandsBefore(p: seq<Node>, n: nat): nat
    requires n <= |p|
  {
    if n == 0 then 0 else CommandsBefore(p, n - 1) + Count(p[n - 1].Cmd?)
  }

  lemma {:induction false} CommandsGrow(p: seq<Node>, i: nat, j: nat)
    requires i <= j <= |p|
    ensures CommandsBefore(p, i) <= CommandsBefore(p, j)
    ensures i < j && p[i].Cmd? ==> CommandsBefore(p, i) < CommandsBefore(p, j)
  {
    if i < j { CommandsGrow(p, i, j - 1); }
  }

  /** The commands still to come at node `i`. */
  lemma {:induction false} ItemsFrom(p: seq<Node>, i: nat)
    requires Runnable(p) && i < |p| && i % 2 == 0
    ensures CommandsBefore(p, i) < |Items(p, 0, ".")|
    ensures Items(p, i, CwdAfter(p[..i])) == Items(p, 0, ".")[CommandsBefore(p, i)..]
  {
    hide Items, Runnable, CommandsBefore, CwdAfter;
    if i > 0 {
      ItemsFrom(p, i - 2);
      ItemsStep(p, i - 2, CwdAfter(p[..i - 2]));
      CommandsStep(p, i - 2);
      CwdStep(p, i - 2);
      var n := CommandsBefore(p, i - 2);
      assert Items(p, 0, ".")[n..][1..] == Items(p, 0, ".")[n + 1..];
    } else {
      NothingBefore(p);
    }
  }

  lemma CommandsStep(p: seq<Node>, i: nat)
    requires i + 1 < |p| && IsOp(p[i + 1])
    ensures CommandsBefore(p, i + 2) == CommandsBefore(p, i) + Count(p[i].Cmd?)
  {
  }

  lemma NothingBefore(p: seq<Node>)
    ensures CommandsBefore(p, 0) == 0 && PipelineOf(p, 0) == 0 && CwdAfter(p[..0]) == "."
  {
  }

  lemma OperatorAt(p: seq<Node>, i: nat)
    requires Runnable(p) && i < |p| && i % 2 == 1
    ensures IsOp(p[i])
  {
  }

  lemma EndsInCommand(p: seq<Node>)
    requires Runnable(p)
    ensures |p| % 2 == 1 && p[|p| - 1].Cmd?
  {
  }

  /** Each command, in order, with the join of all the directory changes before it. */
  lemma CommandRunsInCwd(p: seq<Node>, i: nat)
    requires Runnable(p) && i < |p| && p[i].Cmd?
    ensures i % 2 == 0
    ensures var k := CommandsBefore(p, i); var items := Items(p, 0, ".");
      && k < |items|
      && items[k] == Item(p[i].command, CwdAfter(p[..i]), if i + 1 == |p| then End else NextFor(p[i + 1]))
      && (i + 1 == |p| ==> k + 1 == |items|)
  {
    hide Items, CommandsBefore, CwdAfter;
    if i % 2 == 1 {
      OperatorAt(p, i);
    }
    ItemsFrom(p, i);
    ItemsHere(p, i, CwdAfter(p[..i]));
    var k, items := CommandsBefore(p, i), Items(p, 0, ".");
    assert items[k..][0] == items[k];
  }

  // ---- the list that the standard sees ----

  predicate IsListOp(node: Node) {
    node.And? || node.Or?
  }

  function KindOf(node: Node): ListOp {
    if node.Or? then OrIf else AndIf
  }

  /** The list operators before node `n`. Directory changes are commands like any other here, so
      the and-operators behind them are among these. */
  function OpsBefore(p: seq<Node>, n: nat): seq<ListOp>
    requires n <= |p|
  {
    if n == 0 then [] else OpsBefore(p, n - 1) + if IsListOp(p[n - 1]) then [KindOf(p[n - 1])] else []
  }

  /** The pipeline, counted from 0, that node `i` belongs to. */
  function PipelineOf(p: seq<Node>, i: nat): nat
    requires i <= |p|
  {
    |OpsBefore(p, i)|
  }

  /** The status of a pipeline that ends before node `n`: the exit code of its last command,
      whatever the others return (section 2.9.2). A directory change succeeds. */
  function StatusBefore(p: seq<Node>, n: nat, exits: nat -> int): int
    requires n <= |p|
  {
    if n > 0 && p[n - 1].Cmd? then exits(CommandsBefore(p, n - 1)) else 0
  }

  /** The statuses of the pipelines that end before node `n`. */
  function StatusesBefore(p: seq<Node>, n: nat, exits: nat -> int): (r: seq<int>)
    requires n <= |p|
    ensures |r| == |OpsBefore(p, n)|
  {
    if n == 0 then []
    else StatusesBefore(p, n - 1, exits) + if IsListOp(p[n - 1]) then [StatusBefore(p, n - 1, exits)] else []
  }

  function Ops(p: seq<Node>): seq<ListOp> {
    OpsBefore(p, |p|)
  }

  function Codes(p: seq<Node>, exits: nat -> int): (r: seq<int>)
    ensures IsList(Ops(p), r)
  {
    StatusesBefore(p, |p|, exits) + [StatusBefore(p, |p|, exits)]
  }

  /** The current directory at node `n` when the pipelines `groups` are run. A directory change
      that is part of a longer pipeline takes place in an environment of its own. */
  function StandardCwd(p: seq<Node>, n: nat, groups: seq<nat>): string
    requires n <= |p|
  {
    if n == 0 then "."
    else
      var before := StandardCwd(p, n - 1, groups);
      if p[n - 1].Chdir? && p[n - 1].dir.Some? && PipelineOf(p, n - 1) in groups && !(n >= 2 && p[n - 2].Pipe?)
      then JoinPath(before, p[n - 1].dir.value)
      else before
  }

  // ---- what the standard prescribes for one command ----

  /** The files of the system. `names(path)` is the file that a path names in the directory where
      the interpreter was started; two paths may name the same one. */
  type FileId(==, !new)

  datatype Stream = Unchanged | ThroughPipe | LikeStdout | OnFile(file: FileId)

  function FileOf(f: File, names: string -> FileId): FileId {
    match f
    case DevNull => names("/dev/null")
    case Opened(_, path) => names(JoinPath(".", path))
  }

  function InputOf(source: Source, names: string -> FileId): Stream {
    match source
    case NoStdin => Unchanged
    case FromProcess(_) => ThroughPipe
    case FromFile(f) => OnFile(FileOf(f, names))
  }

  function OutputOf(sink: Sink, names: string -> FileId): Stream {
    match sink
    case NoSink => Unchanged
    case ToPipe => ThroughPipe
    case WithStdout => LikeStdout
    case Into(f) => OnFile(FileOf(f, names))
  }

  /** A redirection names a file in the current directory `cwd`. */
  function StandardOutput(o: Output, cwd: string, names: string -> FileId): Stream {
    match o
    case Inherited => Unchanged
    case Piped => ThroughPipe
    case ToStdout => LikeStdout
    case ToFile(name) => OnFile(names(JoinPath(cwd, name)))
  }

  /** A pipe sign before a command assigns its input before its own redirections do (section 2.9.2). */
  function StandardInput(p: seq<Node>, i: nat, cwd: string, names: string -> FileId): Stream
    requires i < |p| && p[i].Cmd?
  {
    if p[i].command.stdin.Some? then OnFile(names(JoinPath(cwd, p[i].command.stdin.value)))
    else if i > 0 && p[i - 1].Pipe? then ThroughPipe
    else Unchanged
  }

  /** The directory a process is told to run in; none if it is the interpreter's own. */
  function DirectoryFor(cwd: string): Option<string> {
    if cwd == "." then None else Some(cwd)
  }

  /** Launch `l` is what the standard prescribes for command node `i` in the current directory `cwd`. */
  ghost predicate LaunchFollows(p: seq<Node>, i: nat, cwd: string, l: Launch, names: string -> FileId)
    requires i < |p| && p[i].Cmd?
  {
    var c := p[i].command;
    && l.argv == c.argv && l.env == c.envVars && l.cwd == DirectoryFor(cwd)
    && InputOf(l.stdin, names) == StandardInput(p, i, cwd, names)
    && OutputOf(l.stdout, names) == StandardOutput(c.stdout, cwd, names)
    && OutputOf(l.stderr, names) == StandardOutput(c.stderr, cwd, names)
  }

  /** Command node `i` is run exactly if its pipeline is, and then as the standard prescribes. */
  ghost predicate CommandFollows(p: seq<Node>, i: nat, groups: seq<nat>, launched: seq<Launch>,
                                 names: string -> FileId)
    requires i < |p| && p[i].Cmd?
  {
    var k := CommandsBefore(p, i);
    && (k < |launched| <==> PipelineOf(p, i) in groups)
    && (k < |launched| ==> LaunchFollows(p, i, StandardCwd(p, i, groups), launched[k], names))
  }

  ghost predicate FollowsStandard(p: seq<Node>, exits: nat -> int, r: Execution, names: string -> FileId) {
    var (groups, status) := PosixList(Ops(p), Codes(p, exits));
    r.status == status && forall i :: 0 <= i < |p| && p[i].Cmd? ==> CommandFollows(p, i, groups, r.launched, names)
  }

  // ---- where a run ends ----

  /** The last command that a run launches, from node `i` on. */
  ghost function StopAt(p: seq<Node>, i: nat, exits: nat -> int): (e: nat)
    requires Runnable(p) && i < |p| && i % 2 == 0
    ensures i <= e < |p| && e % 2 == 0 && p[e].Cmd?
    ensures e + 1 < |p| ==> IsListOp(p[e + 1]) && CutsShort(KindOf(p[e + 1]), exits(CommandsBefore(p, e)))
    decreases |p| - i
  {
    NodeAt(p, i);
    if i + 1 == |p| then i
    else if p[i].Cmd? && !p[i + 1].Pipe? && CutsShort(KindOf(p[i + 1]), exits(CommandsBefore(p, i))) then i
    else StopAt(p, i + 2, exits)
  }

  lemma EvaluateAt(items: seq<Item>, n: nat, exits: nat -> int)
    requires Terminated(items) && n < |items|
    ensures Evaluate(items, n, exits) ==
              if n + 1 == |items| || (!items[n].next.ThenPipe? && Stops(items[n].next, exits(n)))
              then (n + 1, exits(n)) else Evaluate(items, n + 1, exits)
  {
  }

  /** Evaluation at a command node: it ends here or goes on with the next command. */
  lemma EvaluateNode(p: seq<Node>, i: nat, exits: nat -> int)
    requires Runnable(p) && i < |p| && i % 2 == 0 && p[i].Cmd?
    ensures var items, n := Items(p, 0, "."), CommandsBefore(p, i);
      && Terminated(items) && n < |items|
      && (if i + 1 == |p| || (IsListOp(p[i + 1]) && CutsShort(KindOf(p[i + 1]), exits(n)))
          then Evaluate(items, n, exits) == (n + 1, exits(n))
          else n + 1 < |items| && Evaluate(items, n, exits) == Evaluate(items, n + 1, exits))
  {
    hide Items, Evaluate, CommandsBefore, Runnable, WellFormed;
    ItemsShape(p, 0, ".");
    NodeAt(p, i);
    CommandRunsInCwd(p, i);
    EvaluateAt(Items(p, 0, "."), CommandsBefore(p, i), exits);
    if i + 1 < |p| {
      CommandsStep(p, i);
      ItemsFrom(p, i + 2);
    }
  }

  lemma {:induction false} EvaluateStops(p: seq<Node>, i: nat, exits: nat -> int)
    requires Runnable(p) && i < |p| && i % 2 == 0
    ensures Terminated(Items(p, 0, ".")) && CommandsBefore(p, i) < |Items(p, 0, ".")|
    ensures var k := CommandsBefore(p, StopAt(p, i, exits));
      Evaluate(Items(p, 0, "."), CommandsBefore(p, i), exits) == (k + 1, exits(k))
    decreases |p| - i
  {
    hide Items, Evaluate, CommandsBefore, Runnable, Terminated, CutsShort, KindOf;
    NodeAt(p, i);
    if p[i].Cmd? { EvaluateNode(p, i, exits); }
    if i + 1 < |p| {
      CommandsStep(p, i);
      EvaluateStops(p, i + 2, exits);
    }
  }

  lemma {:induction false} ListPrefix(p: seq<Node>, i: nat, j: nat, exits: nat -> int)
    requires i <= j <= |p|
    ensures OpsBefore(p, i) <= OpsBefore(p, j)
    ensures StatusesBefore(p, i, exits) <= StatusesBefore(p, j, exits)
  {
    if i < j { ListPrefix(p, i, j - 1, exits); }
  }

  /** The operator and the status of the pipeline that ends before list operator `i`. */
  lemma ListAt(p: seq<Node>, i: nat, exits: nat -> int)
    requires i < |p| && IsListOp(p[i])
    ensures var g := PipelineOf(p, i);
      && PipelineOf(p, i + 1) == g + 1 <= |Ops(p)|
      && Ops(p)[g] == KindOf(p[i]) && Codes(p, exits)[g] == StatusBefore(p, i, exits)
  {
    ListPrefix(p, i + 1, |p|, exits);
    assert OpsBefore(p, i + 1)[PipelineOf(p, i)] == KindOf(p[i]);
    assert StatusesBefore(p, i + 1, exits)[PipelineOf(p, i)] == StatusBefore(p, i, exits);
  }

  lemma PipelineGrows(p: seq<Node>, i: nat, j: nat)
    requires i <= j <= |p|
    ensures PipelineOf(p, i) <= PipelineOf(p, j) <= |Ops(p)|
    ensures i < j && IsListOp(p[i]) ==> PipelineOf(p, i) < PipelineOf(p, j)
  {
    ListPrefix(p, i, j, _ => 0);
    ListPrefix(p, j, |p|, _ => 0);
    if i < j { ListPrefix(p, i + 1, j, _ => 0); }
  }

  /** The next operand is in the same pipeline or, behind a list operator, in the next one. */
  lemma PipelineStep(p: seq<Node>, i: nat)
    requires i + 1 < |p| && !IsListOp(p[i])
    ensures PipelineOf(p, i + 1) == PipelineOf(p, i)
    ensures PipelineOf(p, i + 2) == PipelineOf(p, i) + Count(IsListOp(p[i + 1]))
  {
  }

  lemma LastPipeline(p: seq<Node>, exits: nat -> int)
    requires p != [] && p[|p| - 1].Cmd?
    ensures PipelineOf(p, |p| - 1) == |Ops(p)|
    ensures Codes(p, exits)[|Ops(p)|] == exits(CommandsBefore(p, |p| - 1))
  {
  }

  /** The run ends with the pipeline at which the list is cut short. */
  lemma {:induction false} CutIsStop(p: seq<Node>, i: nat, exits: nat -> int)
    requires Runnable(p) && i < |p| && i % 2 == 0
    ensures PipelineOf(p, i) <= |Ops(p)|
    ensures var e := StopAt(p, i, exits); var k := CutAt(Ops(p), Codes(p, exits), PipelineOf(p, i));
      k == PipelineOf(p, e) && Codes(p, exits)[k] == exits(CommandsBefore(p, e))
    decreases |p| - i
  {
    hide Runnable, PipelineOf, Ops, Codes, CommandsBefore;
    PipelineGrows(p, i, |p|);
    NodeAt(p, i);
    if i + 1 == |p| {
      LastPipeline(p, exits);
    } else {
      PipelineStep(p, i);
      if IsListOp(p[i + 1]) {
        ListAt(p, i + 1, exits);
        PipelineGrows(p, i + 2, |p|);
        assert StatusBefore(p, i + 1, exits) == if p[i].Cmd? then exits(CommandsBefore(p, i)) else 0;
      }
      CutIsStop(p, i + 2, exits);
    }
  }

  /** The operands up to the end of the run are those of the pipelines up to its last one. */
  lemma UpToTheStop(p: seq<Node>, i: nat, exits: nat -> int)
    requires Runnable(p) && i < |p| && i % 2 == 0
    ensures var e := StopAt(p, 0, exits);
      && (i <= e <==> PipelineOf(p, i) <= PipelineOf(p, e))
      && (p[i].Cmd? ==> (i <= e <==> CommandsBefore(p, i) <= CommandsBefore(p, e)))
  {
    hide Runnable, PipelineOf, CommandsBefore;
    var e := StopAt(p, 0, exits);
    if i <= e {
      PipelineGrows(p, i, e);
      CommandsGrow(p, i, e);
    } else {
      CommandsGrow(p, e, i);
      PipelineStep(p, e);
      PipelineGrows(p, e + 2, i);
    }
  }

  /** A run launches the commands of the first pipelines and no others, and its result is the
      status of the last of these. */
  lemma RunIsRunList(p: seq<Node>, exits: nat -> int, r: Execution)
    requires Runnable(p) && RunsAs(Items(p, 0, "."), exits, r)
    ensures var ops, codes := Ops(p), Codes(p, exits); var cut := CutAt(ops, codes, 0);
      && |RunList(ops, codes, 0).0| == cut + 1 && (forall g :: g in RunList(ops, codes, 0).0 <==> 0 <= g <= cut)
      && r.status == RunList(ops, codes, 0).1 == codes[cut]
      && (forall i :: 0 <= i < |p| && p[i].Cmd? ==> (CommandsBefore(p, i) < |r.launched| <==> PipelineOf(p, i) <= cut))
  {
    hide Runnable, Items, Evaluate, PipelineOf, CommandsBefore, Ops, Codes, CutAt, RunList, Launched;
    RunStops(p, exits, r);
    RunsUpToTheCut(Ops(p), Codes(p, exits), 0);
    var groups, cut := RunList(Ops(p), Codes(p, exits), 0).0, CutAt(Ops(p), Codes(p, exits), 0);
    forall g ensures g in groups <==> 0 <= g <= cut {
      if 0 <= g <= cut { assert groups[g] == g; }
    }
    forall i | 0 <= i < |p| && p[i].Cmd? ensures CommandsBefore(p, i) < |r.launched| <==> PipelineOf(p, i) <= cut {
      if i % 2 == 1 { OperatorAt(p, i); }
      UpToTheStop(p, i, exits);
    }
  }

  lemma RunStops(p: seq<Node>, exits: nat -> int, r: Execution)
    requires Runnable(p) && RunsAs(Items(p, 0, "."), exits, r)
    ensures var e := StopAt(p, 0, exits);
      && |r.launched| == CommandsBefore(p, e) + 1
      && CutAt(Ops(p), Codes(p, exits), 0) == PipelineOf(p, e) <= |Ops(p)|
      && r.status == Codes(p, exits)[PipelineOf(p, e)]
  {
    hide Runnable, Items, Evaluate, Ops, Codes, CutAt;
    EndsInCommand(p);
    EvaluateStops(p, 0, exits);
    CutIsStop(p, 0, exits);
    PipelineGrows(p, StopAt(p, 0, exits), |p|);
  }

  // ---- directory changes behind a pipe sign ----

  /** The interpreter is still in its piping state at operand `i`: it does not leave it at a
      directory change. */
  predicate StaysPiped(p: seq<Node>, i: nat)
    requires i <= |p|
  {
    i >= 2 && (p[i - 1].Pipe? || (p[i - 2].Chdir? && StaysPiped(p, i - 2)))
  }

  lemma {:induction false} PipedIntoAt(p: seq<Node>, i: nat)
    requires Runnable(p) && i < |p| && i % 2 == 0
    ensures CommandsBefore(p, i) < |Items(p, 0, ".")|
    ensures PipedInto(Items(p, 0, "."), CommandsBefore(p, i)) <==> StaysPiped(p, i)
  {
    hide Items, CommandsBefore, Runnable;
    ItemsFrom(p, i);
    if i == 0 {
      NothingBefore(p);
    } else {
      NodeAt(p, i - 2);
      CommandsStep(p, i - 2);
      if p[i - 2].Cmd? {
        CommandRunsInCwd(p, i - 2);
      } else {
        PipedIntoAt(p, i - 2);
      }
    }
  }

  /** Behind the pipe signs of the pipelines up to number `k` stand only commands whose input is not
      redirected. */
  ghost predicate OnlyPipedInput(p: seq<Node>, k: nat) {
    forall c :: 0 < c < |p| && c % 2 == 0 && p[c - 1].Pipe? && PipelineOf(p, c) <= k ==>
      p[c].Cmd? && p[c].command.stdin.None?
  }

  /** Then only a pipe sign makes a command read from a pipe. */
  lemma {:induction false} PipedBySign(p: seq<Node>, i: nat, k: nat)
    requires Runnable(p) && i < |p| && i % 2 == 0 && OnlyPipedInput(p, k) && PipelineOf(p, i) <= k
    ensures StaysPiped(p, i) <==> i > 0 && p[i - 1].Pipe?
  {
    hide PipelineOf, Runnable;
    if i >= 2 { NodeAt(p, i - 2); }
    if i >= 2 && p[i - 2].Chdir? {
      PipelineGrows(p, i - 2, i);
      PipedBySign(p, i - 2, k);
    }
  }

  lemma {:induction false} SameCwd(p: seq<Node>, n: nat, groups: seq<nat>)
    requires n <= |p|
    requires forall c :: 0 <= c < n && p[c].Chdir? ==> PipelineOf(p, c) in groups && !(c > 0 && p[c - 1].Pipe?)
    ensures StandardCwd(p, n, groups) == CwdAfter(p[..n])
  {
    hide PipelineOf, JoinPath;
    if n > 0 {
      SameCwd(p, n - 1, groups);
      assert p[..n][..n - 1] == p[..n - 1];
    }
  }

  /** The command that the interpreter pipes into behind such a directory change. */
  lemma {:induction false} PipedBehindChange(p: seq<Node>, c: nat, e: nat)
    requires Runnable(p) && c < e < |p| && c % 2 == 0 && e % 2 == 0
    requires p[c].Chdir? && StaysPiped(p, c) && p[e].Cmd?
    ensures exists i :: 0 < i <= e && i % 2 == 0 && p[i].Cmd? && StaysPiped(p, i) && !p[i - 1].Pipe?
    decreases e - c
  {
    hide Runnable;
    NodeAt(p, c);
    NodeAt(p, c + 2);
    if p[c + 2].Chdir? { PipedBehindChange(p, c + 2, e); }
  }

  // ---- agreement with the standard ----

  /** The path the interpreter opens for a redirected output, seen from its own directory. */
  function OutputPath(name: string): string {
    if IsNullDevice(name) then "/dev/null" else JoinPath(".", name)
  }

  function LaunchedOutput(o: Output, names: string -> FileId): Stream {
    match o
    case Inherited => Unchanged
    case Piped => ThroughPipe
    case ToStdout => LikeStdout
    case ToFile(name) => OnFile(names(OutputPath(name)))
  }

  /** In its piping state the interpreter ignores a redirected input. */
  function LaunchedInput(p: seq<Node>, i: nat, names: string -> FileId): Stream
    requires i < |p| && p[i].Cmd?
  {
    if StaysPiped(p, i) then ThroughPipe
    else if p[i].command.stdin.Some? then OnFile(names(JoinPath(".", p[i].command.stdin.value)))
    else Unchanged
  }

  /** Each command is launched in the join of all the directory changes before it, but its
      redirections name files in the interpreter's own directory. */
  lemma LaunchedAt(p: seq<Node>, exits: nat -> int, r: Execution, i: nat, names: string -> FileId)
    requires Runnable(p) && RunsAs(Items(p, 0, "."), exits, r)
    requires i < |p| && p[i].Cmd? && CommandsBefore(p, i) < |r.launched|
    ensures i % 2 == 0
    ensures var l, c := r.launched[CommandsBefore(p, i)], p[i].command;
      && l.argv == c.argv && l.env == c.envVars && l.cwd == DirectoryFor(CwdAfter(p[..i]))
      && InputOf(l.stdin, names) == LaunchedInput(p, i, names)
      && OutputOf(l.stdout, names) == LaunchedOutput(c.stdout, names)
      && OutputOf(l.stderr, names) == LaunchedOutput(c.stderr, names)
  {
    hide Runnable, Items, Evaluate, CommandsBefore, CwdAfter, PipedInto, IsNullDevice, JoinPath,
      StaysPiped, OpenedBefore;
    CommandRunsInCwd(p, i);
    PipedIntoAt(p, i);
    assert r.launched[CommandsBefore(p, i)] == LaunchOf(Items(p, 0, "."), CommandsBefore(p, i));
  }

  /** The redirections of command node `i` name the same files in the interpreter's directory as in
      the current one. */
  ghost predicate SameFilesAt(p: seq<Node>, i: nat, names: string -> FileId)
    requires i < |p| && p[i].Cmd?
  {
    var c, cwd := p[i].command, CwdAfter(p[..i]);
    && (c.stdin.Some? ==> names(JoinPath(".", c.stdin.value)) == names(JoinPath(cwd, c.stdin.value)))
    && (c.stdout.ToFile? ==> names(OutputPath(c.stdout.name)) == names(JoinPath(cwd, c.stdout.name)))
    && (c.stderr.ToFile? ==> names(OutputPath(c.stderr.name)) == names(JoinPath(cwd, c.stderr.name)))
  }

  /** So do those of all commands in the pipelines up to number `k`. */
  ghost predicate SameFiles(p: seq<Node>, k: nat, names: string -> FileId) {
    forall i :: 0 <= i < |p| && p[i].Cmd? && PipelineOf(p, i) <= k ==> SameFilesAt(p, i, names)
  }

  lemma CwdAgrees(p: seq<Node>, i: nat, cut: nat, groups: seq<nat>)
    requires Runnable(p) && i < |p| && OnlyPipedInput(p, cut) && PipelineOf(p, i) <= cut
    requires forall g :: g in groups <==> 0 <= g <= cut
    ensures StandardCwd(p, i, groups) == CwdAfter(p[..i])
  {
    hide Runnable, PipelineOf, StandardCwd, CwdAfter;
    forall c | 0 <= c < i && p[c].Chdir? ensures PipelineOf(p, c) in groups && !(c > 0 && p[c - 1].Pipe?) {
      if c % 2 == 1 { OperatorAt(p, c); }
      PipelineGrows(p, c, i);
    }
    SameCwd(p, i, groups);
  }

  /** Where nothing else is in the way, a command follows the standard exactly if its redirections
      name the same files. */
  lemma FollowsIf(p: seq<Node>, exits: nat -> int, r: Execution, i: nat, names: string -> FileId)
    requires Runnable(p) && RunsAs(Items(p, 0, "."), exits, r) && i < |p| && p[i].Cmd?
    requires var cut := CutAt(Ops(p), Codes(p, exits), 0); AllLike(Ops(p), cut) && OnlyPipedInput(p, cut)
    ensures r.status == PosixList(Ops(p), Codes(p, exits)).1
    ensures CommandFollows(p, i, PosixList(Ops(p), Codes(p, exits)).0, r.launched, names) <==>
            (PipelineOf(p, i) <= CutAt(Ops(p), Codes(p, exits), 0) ==> SameFilesAt(p, i, names))
  {
    hide Runnable, Items, RunsAs, PipelineOf, CommandsBefore, Ops, Codes, CutAt, RunList, PosixList, StandardCwd,
      CwdAfter, AllLike, OnlyPipedInput, JoinPath, OutputPath, InputOf, OutputOf, StaysPiped;
    var ops, codes := Ops(p), Codes(p, exits);
    var cut, groups := CutAt(ops, codes, 0), PosixList(ops, codes).0;
    RunIsRunList(p, exits, r);
    MatchesPosixIff(ops, codes);
    if CommandsBefore(p, i) < |r.launched| {
      LaunchedAt(p, exits, r, i, names);
      PipedBySign(p, i, cut);
      InputBySign(p, i, cut);
      CwdAgrees(p, i, cut, groups);
    }
  }

  lemma InputBySign(p: seq<Node>, i: nat, k: nat)
    requires i < |p| && i % 2 == 0 && p[i].Cmd? && OnlyPipedInput(p, k) && PipelineOf(p, i) <= k
    ensures i > 0 && p[i - 1].Pipe? ==> p[i].command.stdin.None?
  {
  }

  /** Some command behind a directory change is run along with it. */
  lemma {:induction false} CommandInGroup(p: seq<Node>, j: nat, exits: nat -> int)
    requires Runnable(p) && j < |p| && j % 2 == 0
    requires PipelineOf(p, j) in PosixList(Ops(p), Codes(p, exits)).0 && PipelineOf(p, j) > 0
    ensures exists i :: j <= i < |p| && p[i].Cmd? && PipelineOf(p, i) in PosixList(Ops(p), Codes(p, exits)).0
    decreases |p| - j
  {
    hide Runnable, PipelineOf, Ops, Codes, PosixRest;
    NodeAt(p, j);
    if p[j].Chdir? {
      ListAt(p, j + 1, exits);
      PipelineStep(p, j);
      assert PipelineOf(p, j) in PosixRest(Ops(p), Codes(p, exits), 0, Codes(p, exits)[0]).0;
      NextIsRun(Ops(p), Codes(p, exits), 0, Codes(p, exits)[0], PipelineOf(p, j));
      CommandInGroup(p, j + 2, exits);
    }
  }

  /** Every pipeline begins somewhere. */
  lemma {:induction false} OperandOf(p: seq<Node>, g: nat, n: nat)
    requires Runnable(p) && n < |p| && n % 2 == 0 && g <= PipelineOf(p, n)
    ensures exists j :: 0 <= j <= n && j % 2 == 0 && PipelineOf(p, j) == g
  {
    hide Runnable, PipelineOf;
    if g < PipelineOf(p, n) {
      if n == 0 { NothingBefore(p); }
      NodeAt(p, n - 2);
      PipelineStep(p, n - 2);
      OperandOf(p, g, n - 2);
    }
  }

  /** A run does what the standard prescribes, in the commands that are run, their arguments, streams
      and directories and in the result, exactly when from the operator that ends the run on all
      operators are of one kind, the and-operators behind directory changes included, and when up
      to there no directory change and no command with redirected input stands behind a pipe sign
      and every redirection names the same file as in the directory where the interpreter started. */
  lemma RunIsPosixIff(p: seq<Node>, exits: nat -> int, r: Execution, names: string -> FileId)
    requires Runnable(p) && RunsAs(Items(p, 0, "."), exits, r)
    ensures var cut := CutAt(Ops(p), Codes(p, exits), 0);
      FollowsStandard(p, exits, r, names) <==>
        AllLike(Ops(p), cut) && OnlyPipedInput(p, cut) && SameFiles(p, cut, names)
  {
    hide Runnable, Items, RunsAs, PipelineOf, Ops, Codes, CutAt, PosixList, AllLike, OnlyPipedInput, CommandFollows,
      SameFilesAt;
    var cut := CutAt(Ops(p), Codes(p, exits), 0);
    if !AllLike(Ops(p), cut) {
      RunsMore(p, exits, r, names);
    } else if !OnlyPipedInput(p, cut) {
      PipesElsewhere(p, exits, r, names);
    } else {
      EndsInCommand(p);
      FollowsIf(p, exits, r, |p| - 1, names);
      forall i | 0 <= i < |p| && p[i].Cmd?
        ensures CommandFollows(p, i, PosixList(Ops(p), Codes(p, exits)).0, r.launched, names) <==>
                (PipelineOf(p, i) <= cut ==> SameFilesAt(p, i, names))
      {
        FollowsIf(p, exits, r, i, names);
      }
    }
  }

  lemma RunsMore(p: seq<Node>, exits: nat -> int, r: Execution, names: string -> FileId)
    requires Runnable(p) && RunsAs(Items(p, 0, "."), exits, r)
    requires !AllLike(Ops(p), CutAt(Ops(p), Codes(p, exits), 0))
    ensures !FollowsStandard(p, exits, r, names)
  {
    hide Runnable, Items, RunsAs, PipelineOf, CommandsBefore, Ops, Codes, CutAt, RunList,
      PosixRest, StandardCwd, AllLike;
    GoesOn(Ops(p), Codes(p, exits), 0);
    var g :| g in PosixRest(Ops(p), Codes(p, exits), 0, Codes(p, exits)[0]).0 && g > CutAt(Ops(p), Codes(p, exits), 0);
    assert g in PosixList(Ops(p), Codes(p, exits)).0;
    EndsInCommand(p);
    LastPipeline(p, exits);
    OperandOf(p, g, |p| - 1);
    var j :| 0 <= j < |p| && j % 2 == 0 && PipelineOf(p, j) == g;
    CommandInGroup(p, j, exits);
    var i :| j <= i < |p| && p[i].Cmd? && PipelineOf(p, i) in PosixList(Ops(p), Codes(p, exits)).0;
    PipelineGrows(p, j, i);
    RunIsRunList(p, exits, r);
    assert !CommandFollows(p, i, PosixList(Ops(p), Codes(p, exits)).0, r.launched, names);
  }

  lemma PipesElsewhere(p: seq<Node>, exits: nat -> int, r: Execution, names: string -> FileId)
    requires Runnable(p) && RunsAs(Items(p, 0, "."), exits, r)
    requires !OnlyPipedInput(p, CutAt(Ops(p), Codes(p, exits), 0))
    ensures !FollowsStandard(p, exits, r, names)
  {
    hide Runnable, Items, RunsAs, PipelineOf, CommandsBefore, Ops, Codes, CutAt, RunList, PosixList, StandardCwd;
    var cut := CutAt(Ops(p), Codes(p, exits), 0);
    var c :| 0 < c < |p| && c % 2 == 0 && p[c - 1].Pipe? && PipelineOf(p, c) <= cut
      && !(p[c].Cmd? && p[c].command.stdin.None?);
    RunStops(p, exits, r);
    UpToTheStop(p, c, exits);
    NodeAt(p, c);
    if p[c].Chdir? {
      PipedBehindChange(p, c, StopAt(p, 0, exits));
      var i :| 0 < i <= StopAt(p, 0, exits) && i % 2 == 0 && p[i].Cmd? && StaysPiped(p, i) && !p[i - 1].Pipe?;
      OtherInput(p, exits, r, i, names);
    } else {
      OtherInput(p, exits, r, c, names);
    }
  }

  /** A command that the interpreter lets read from a pipe and the standard does not. */
  lemma OtherInput(p: seq<Node>, exits: nat -> int, r: Execution, i: nat, names: string -> FileId)
    requires Runnable(p) && RunsAs(Items(p, 0, "."), exits, r) && i % 2 == 0
    requires i <= StopAt(p, 0, exits) && p[i].Cmd? && StaysPiped(p, i)
    requires p[i].command.stdin.Some? || !(i > 0 && p[i - 1].Pipe?)
    ensures !FollowsStandard(p, exits, r, names)
  {
    hide Runnable, Items, RunsAs, PipelineOf, CommandsBefore, Ops, Codes, InputOf, OutputOf, PosixList, StandardCwd,
      StaysPiped, JoinPath, OutputPath;
    RunStops(p, exits, r);
    UpToTheStop(p, i, exits);
    LaunchedAt(p, exits, r, i, names);
    assert !CommandFollows(p, i, PosixList(Ops(p), Codes(p, exits)).0, r.launched, names);
  }

  // ---- agreement whatever the exit codes ----

  /** The first command from operand `i` on; only directory changes are passed over. */
  ghost function FirstCommand(p: seq<Node>, i: nat): (f: nat)
    requires Runnable(p) && i < |p| && i % 2 == 0
    ensures i <= f < |p| && f % 2 == 0 && p[f].Cmd?
    ensures forall c :: i <= c < f && c % 2 == 0 ==> p[c].Chdir?
    decreases |p| - i
  {
    NodeAt(p, i);
    if p[i].Cmd? then i else FirstCommand(p, i + 2)
  }

  ghost function TheRun(items: seq<Item>, exits: nat -> int): (r: Execution)
    requires Terminated(items)
    ensures RunsAs(items, exits, r)
  {
    var (n, status) := Evaluate(items, 0, exits);
    var opens := OpenedBefore(items, n);
    Execution(status, seq(n, k requires 0 <= k < n => LaunchOf(items, k)), opens, Numbers(opens))
  }

  /** Exit codes with which no operator cuts the list short. */
  function Proceeding(items: seq<Item>): nat -> int {
    (n: nat) => if n < |items| && items[n].next.ThenOr? then 1 else 0
  }

  lemma ProceedsToTheEnd(p: seq<Node>)
    requires Runnable(p)
    ensures CutAt(Ops(p), Codes(p, Proceeding(Items(p, 0, "."))), 0) == |Ops(p)|
  {
    hide Runnable, Items, Ops, Codes, CutAt, PipelineOf, CommandsBefore;
    EndsInCommand(p);
    var exits := Proceeding(Items(p, 0, "."));
    CutIsStop(p, 0, exits);
    NothingBefore(p);
    CommandRunsInCwd(p, StopAt(p, 0, exits));
    LastPipeline(p, exits);
  }

  /** Exit codes with which every list operator cuts the list short. */
  function Stopping(items: seq<Item>): nat -> int {
    (n: nat) => if n < |items| && items[n].next.ThenAnd? then 1 else 0
  }

  lemma {:induction false} StopsAtOnce(p: seq<Node>, i: nat)
    requires Runnable(p) && i < |p| && i % 2 == 0 && OnlyPipedInput(p, |Ops(p)|)
    ensures PipelineOf(p, StopAt(p, i, Stopping(Items(p, 0, ".")))) == PipelineOf(p, FirstCommand(p, i))
    decreases |p| - i
  {
    hide Runnable, Items, Ops, PipelineOf, CommandsBefore;
    NodeAt(p, i);
    if p[i].Cmd? { CommandRunsInCwd(p, i); }
    if i + 1 < |p| {
      PipelineGrows(p, i + 2, |p|);
      PipelineStep(p, i);
      NodeAt(p, i + 2);
      StopsAtOnce(p, i + 2);
    }
  }

  /** From the first command on all list operators are of one kind, no directory change and no command
      with redirected input stands behind a pipe sign, and every redirection names the same file as in
      the directory where the interpreter started. */
  ghost predicate AlwaysFollows(p: seq<Node>, names: string -> FileId)
    requires Runnable(p) && p != []
  {
    AllLike(Ops(p), PipelineOf(p, FirstCommand(p, 0))) && OnlyPipedInput(p, |Ops(p)|) && SameFiles(p, |Ops(p)|, names)
  }

  /** That is when a run does what the standard prescribes whatever the exit codes. */
  lemma AlwaysPosixIff(p: seq<Node>, names: string -> FileId)
    requires Runnable(p)
    ensures (forall exits: nat -> int, r: Execution ::
               RunsAs(Items(p, 0, "."), exits, r) ==> FollowsStandard(p, exits, r, names)) <==>
            AlwaysFollows(p, names)
  {
    hide Runnable, Items, RunsAs, FollowsStandard, Ops, Codes, CutAt, AlwaysFollows, AllLike, OnlyPipedInput, SameFiles,
      Terminated;
    EndsInCommand(p);
    if AlwaysFollows(p, names) {
      forall exits: nat -> int, r: Execution | RunsAs(Items(p, 0, "."), exits, r)
        ensures FollowsStandard(p, exits, r, names)
      {
        CutBehindFirst(p, exits, names);
        RunIsPosixIff(p, exits, r, names);
      }
    } else {
      SomeRunDiffers(p, names);
    }
  }

  lemma CutBehindFirst(p: seq<Node>, exits: nat -> int, names: string -> FileId)
    requires Runnable(p) && p != []
    requires AlwaysFollows(p, names)
    ensures var cut := CutAt(Ops(p), Codes(p, exits), 0);
      AllLike(Ops(p), cut) && OnlyPipedInput(p, cut) && SameFiles(p, cut, names)
  {
    hide Runnable, Ops, Codes, CutAt, PipelineOf, SameFilesAt;
    NothingBefore(p);
    CutIsStop(p, 0, exits);
    PipelineGrows(p, FirstCommand(p, 0), StopAt(p, 0, exits));
  }

  lemma SomeRunDiffers(p: seq<Node>, names: string -> FileId)
    requires Runnable(p) && p != []
    requires !AlwaysFollows(p, names)
    ensures exists exits: nat -> int, r: Execution ::
              RunsAs(Items(p, 0, "."), exits, r) && !FollowsStandard(p, exits, r, names)
  {
    hide Runnable, Items, RunsAs, FollowsStandard, Ops, Codes, CutAt, PipelineOf, AllLike, OnlyPipedInput, SameFiles,
      Terminated, StopAt, FirstCommand;
    var items := Items(p, 0, ".");
    ItemsShape(p, 0, ".");
    var fits := OnlyPipedInput(p, |Ops(p)|) && SameFiles(p, |Ops(p)|, names);
    var exits := if fits then Stopping(items) else Proceeding(items);
    var r := TheRun(items, exits);
    if fits {
      NothingBefore(p);
      CutIsStop(p, 0, exits);
      StopsAtOnce(p, 0);
    } else {
      ProceedsToTheEnd(p);
    }
    RunIsPosixIff(p, exits, r, names);
    assert RunsAs(items, exits, r) && !FollowsStandard(p, exits, r, names);
  }

  // ---- lists on which interpreter and standard part ----

  /** A word that is neither `cd` nor an operator nor an assignment. */
  predicate PlainWord(s: string) {
    s != "cd" && !IsOperator(s) && EnvMatch(s).None?
  }

  /** A command of one word, as it stands before operator `next`. */
  function Plain(name: string, next: Option<Node>): Node {
    Cmd(Command(name, [name], None, if next == Some(Pipe) then Piped else Inherited, Inherited, map[]))
  }

  lemma PlainOk(name: string, next: Option<Node>)
    requires PlainWord(name)
    ensures OperandOk(Plain(name, next), next) && OperandTokens(Plain(name, next)) == [name]
  {
  }

  lemma ChangeOk(x: string)
    requires x != "&&"
    ensures OperandOk(Chdir(Some(x)), Some(And)) && OperandTokens(Chdir(Some(x))) == ["cd", x]
  {
  }

  /** A command of one word with its input or its output redirected. */
  function Redirecting(name: string, sign: string, file: string): Node {
    if sign == "<" then Cmd(Command(name, [name], Some(file), Inherited, Inherited, map[]))
    else Cmd(Command(name, [name], None, ToFile(file), Inherited, map[]))
  }

  lemma RedirectingOk(name: string, sign: string, file: string, next: Option<Node>)
    requires PlainWord(name) && sign in ["<", ">"] && next != Some(Pipe)
    ensures OperandOk(Redirecting(name, sign, file), next)
    ensures OperandTokens(Redirecting(name, sign, file)) == [name, sign, file]
  {
  }

  lemma TokensStep(p: seq<Node>, n: nat)
    requires n < |p|
    ensures Tokens(p[..0]) == []
    ensures Tokens(p[..n + 1]) == Tokens(p[..n]) + if n % 2 == 0 then OperandTokens(p[n]) else [OpToken(p[n])]
  {
    hide OperandTokens, OpToken;
    assert p[..n + 1][..n] == p[..n];
  }

  lemma ThreeOperands(x: Node, s: Node, y: Node, t: Node, z: Node)
    requires OperandOk(x, Some(s)) && IsOp(s) && OperandOk(y, Some(t)) && IsOp(t) && OperandOk(z, None)
    ensures WellFormed([x, s, y, t, z])
    ensures Parsed(OperandTokens(x) + [OpToken(s)] + OperandTokens(y) + [OpToken(t)] + OperandTokens(z)) ==
              Some([x, s, y, t, z])
  {
    hide OperandOk, IsOp, OperandTokens, OpToken, Tokens, Parsed;
    var p := [x, s, y, t, z];
    forall i | 0 <= i < |p| ensures if i % 2 == 0 then OperandOk(p[i], NextOf(p, i)) else IsOp(p[i]) {
      assert p[i] == if i == 0 then x else if i == 1 then s else if i == 2 then y else if i == 3 then t else z;
    }
    CanonicalTokensParse(p);
    TokensStep(p, 0);
    TokensStep(p, 1);
    TokensStep(p, 2);
    TokensStep(p, 3);
    TokensStep(p, 4);
    assert [] + OperandTokens(x) == OperandTokens(x) && p[..5] == p;
  }

  lemma TwoOperands(x: Node, s: Node, y: Node)
    requires OperandOk(x, Some(s)) && IsOp(s) && OperandOk(y, None)
    ensures WellFormed([x, s, y])
    ensures Parsed(OperandTokens(x) + [OpToken(s)] + OperandTokens(y)) == Some([x, s, y])
  {
    hide OperandOk, IsOp, OperandTokens, OpToken, Tokens, Parsed;
    var p := [x, s, y];
    forall i | 0 <= i < |p| ensures if i % 2 == 0 then OperandOk(p[i], NextOf(p, i)) else IsOp(p[i]) {
      assert p[i] == if i == 0 then x else if i == 1 then s else y;
    }
    CanonicalTokensParse(p);
    TokensStep(p, 0);
    TokensStep(p, 1);
    TokensStep(p, 2);
    assert [] + OperandTokens(x) == OperandTokens(x) && p[..3] == p;
  }

  /** To which pipelines three operands and the operators between them belong. */
  lemma ListOfThree(p: seq<Node>)
    requires |p| == 5 && !IsListOp(p[0]) && !IsListOp(p[2]) && p[4].Cmd?
    ensures PipelineOf(p, 0) == PipelineOf(p, 1) == 0
    ensures PipelineOf(p, 2) == PipelineOf(p, 3) == Count(IsListOp(p[1]))
    ensures PipelineOf(p, 4) == |Ops(p)| == Count(IsListOp(p[1])) + Count(IsListOp(p[3]))
  {
    assert OpsBefore(p, 0) == [] && OpsBefore(p, 1) == OpsBefore(p, 0) && OpsBefore(p, 3) == OpsBefore(p, 2);
  }

  /** `a && b || c` when `a` fails: the standard runs `c`. */
  lemma MixedListDiffers(a: string, b: string, c: string, exits: nat -> int, r: Execution,
      names: string -> FileId)
    requires PlainWord(a) && PlainWord(b) && PlainWord(c) && exits(0) != 0
    ensures exists p :: Parsed([a, "&&", b, "||", c]) == Some(p) && Runnable(p) &&
              (RunsAs(Items(p, 0, "."), exits, r) ==> !FollowsStandard(p, exits, r, names))
  {
    hide Parsed, WellFormed, OperandOk, PlainWord, Items, RunsAs, FollowsStandard, PipelineOf, Ops, Codes,
      OperandTokens;
    var p := [Plain(a, Some(And)), And, Plain(b, Some(Or)), Or, Plain(c, None)];
    PlainOk(a, Some(And));
    PlainOk(b, Some(Or));
    PlainOk(c, None);
    ThreeOperands(p[0], p[1], p[2], p[3], p[4]);
    assert [a] + [OpToken(And)] + [b] + [OpToken(Or)] + [c] == [a, "&&", b, "||", c];
    ListOfThree(p);
    ListAt(p, 1, exits);
    ListAt(p, 3, exits);
    assert CutAt(Ops(p), Codes(p, exits), 0) == 0;
    if RunsAs(Items(p, 0, "."), exits, r) {
      RunIsPosixIff(p, exits, r, names);
    }
    assert Runnable(p);
  }

  /** `a || cd x && b` when `a` succeeds: the standard runs `b`. */
  lemma ChangeInListDiffers(a: string, x: string, b: string, exits: nat -> int, r: Execution,
      names: string -> FileId)
    requires PlainWord(a) && PlainWord(b) && x != "&&" && exits(0) == 0
    ensures exists p :: Parsed([a, "||", "cd", x, "&&", b]) == Some(p) && Runnable(p) &&
              (RunsAs(Items(p, 0, "."), exits, r) ==> !FollowsStandard(p, exits, r, names))
  {
    hide Parsed, WellFormed, OperandOk, PlainWord, Items, RunsAs, FollowsStandard, PipelineOf, Ops, Codes,
      OperandTokens;
    var p := [Plain(a, Some(Or)), Or, Chdir(Some(x)), And, Plain(b, None)];
    PlainOk(a, Some(Or));
    ChangeOk(x);
    PlainOk(b, None);
    ThreeOperands(p[0], p[1], p[2], p[3], p[4]);
    assert [a] + [OpToken(Or)] + ["cd", x] + [OpToken(And)] + [b] == [a, "||", "cd", x, "&&", b];
    ListOfThree(p);
    ListAt(p, 1, exits);
    ListAt(p, 3, exits);
    assert CutAt(Ops(p), Codes(p, exits), 0) == 0;
    if RunsAs(Items(p, 0, "."), exits, r) {
      RunIsPosixIff(p, exits, r, names);
    }
    assert Runnable(p);
  }

  /** `a | cd x && b`: the interpreter lets `b` read what `a` writes. */
  lemma ChangeInPipeDiffers(a: string, x: string, b: string, exits: nat -> int, r: Execution,
      names: string -> FileId)
    requires PlainWord(a) && PlainWord(b) && x != "&&"
    ensures exists p :: Parsed([a, "|", "cd", x, "&&", b]) == Some(p) && Runnable(p) &&
              (RunsAs(Items(p, 0, "."), exits, r) ==> !FollowsStandard(p, exits, r, names))
  {
    hide Parsed, WellFormed, OperandOk, PlainWord, Items, RunsAs, FollowsStandard, PipelineOf, Ops, Codes,
      OperandTokens;
    var p := [Plain(a, Some(Pipe)), Pipe, Chdir(Some(x)), And, Plain(b, None)];
    PlainOk(a, Some(Pipe));
    ChangeOk(x);
    PlainOk(b, None);
    ThreeOperands(p[0], p[1], p[2], p[3], p[4]);
    assert [a] + [OpToken(Pipe)] + ["cd", x] + [OpToken(And)] + [b] == [a, "|", "cd", x, "&&", b];
    ListOfThree(p);
    assert !OnlyPipedInput(p, CutAt(Ops(p), Codes(p, exits), 0));
    if RunsAs(Items(p, 0, "."), exits, r) {
      RunIsPosixIff(p, exits, r, names);
    }
    assert Runnable(p);
  }

  /** `a | b < f && c`: by the standard `b` reads the file, in the interpreter what `a` writes. */
  lemma InputBehindPipeDiffers(a: string, b: string, f: string, c: string, exits: nat -> int, r: Execution,
      names: string -> FileId)
    requires PlainWord(a) && PlainWord(b) && PlainWord(c)
    ensures exists p :: Parsed([a, "|", b, "<", f, "&&", c]) == Some(p) && Runnable(p) &&
              (RunsAs(Items(p, 0, "."), exits, r) ==> !FollowsStandard(p, exits, r, names))
  {
    hide Parsed, WellFormed, OperandOk, PlainWord, Items, RunsAs, FollowsStandard, PipelineOf, Ops, Codes,
      OperandTokens;
    var p := [Plain(a, Some(Pipe)), Pipe, Redirecting(b, "<", f), And, Plain(c, None)];
    PlainOk(a, Some(Pipe));
    RedirectingOk(b, "<", f, Some(And));
    PlainOk(c, None);
    ThreeOperands(p[0], p[1], p[2], p[3], p[4]);
    assert [a] + [OpToken(Pipe)] + [b, "<", f] + [OpToken(And)] + [c] == [a, "|", b, "<", f, "&&", c];
    ListOfThree(p);
    assert !OnlyPipedInput(p, CutAt(Ops(p), Codes(p, exits), 0));
    if RunsAs(Items(p, 0, "."), exits, r) {
      RunIsPosixIff(p, exits, r, names);
    }
    assert Runnable(p);
  }

  /** `cd x && a < f` and `cd x && a > f`, where `f` and `x/f` are different files: by the standard
      `a` is given the one in `x`, by the interpreter the one in the directory it was started in. */
  lemma FileBehindChangeDiffers(x: string, a: string, sign: string, f: string, exits: nat -> int, r: Execution,
      names: string -> FileId)
    requires PlainWord(a) && x != "&&" && sign in ["<", ">"]
    requires names(if sign == "<" then JoinPath(".", f) else OutputPath(f)) != names(JoinPath(JoinPath(".", x), f))
    ensures exists p :: Parsed(["cd", x, "&&", a, sign, f]) == Some(p) && Runnable(p) &&
              (RunsAs(Items(p, 0, "."), exits, r) ==> !FollowsStandard(p, exits, r, names))
  {
    hide Parsed, WellFormed, OperandOk, PlainWord, Items, RunsAs, FollowsStandard, PipelineOf, Ops, Codes,
      OperandTokens, JoinPath, OutputPath;
    var p := [Chdir(Some(x)), And, Redirecting(a, sign, f)];
    ChangeOk(x);
    RedirectingOk(a, sign, f, None);
    TwoOperands(p[0], p[1], p[2]);
    assert ["cd", x] + [OpToken(And)] + [a, sign, f] == ["cd", x, "&&", a, sign, f];
    LastPipeline(p, exits);
    PipelineStep(p, 0);
    NothingBefore(p);
    ListAt(p, 1, exits);
    assert CutAt(Ops(p), Codes(p, exits), 0) == PipelineOf(p, 2);
    assert p[..2][..1][..0] == [] && p[..2][..1] == [p[0]];
    assert CwdAfter(p[..2]) == JoinPath(".", x);
    assert !SameFilesAt(p, 2, names);
    if RunsAs(Items(p, 0, "."), exits, r) {
      RunIsPosixIff(p, exits, r, names);
    }
    assert Runnable(p);
  }
}
