/** Running a pipeline: pipe groups, short circuits, directory changes and the files that are
    opened for redirections. `exits(k)` is the exit code of command number k, counted from 0 over
    the pipeline; commands are launched in that order. */
module ShellRun {
  import opened Wrappers
  import opened ShellParse
  import opened ShellGrammar

  /** `path` is what the file was opened with, in the interpreter's own directory. */
  datatype File = DevNull | Opened(handle: nat, path: string)

  datatype Source = NoStdin | FromProcess(process: nat) | FromFile(file: File)

  datatype Sink = NoSink | ToPipe | WithStdout | Into(file: File)

  datatype Launch = Launch(argv: seq<string>, stdin: Source, stdout: Sink, stderr: Sink,
                           env: map<string, string>, cwd: Option<string>)

  datatype Execution = Execution(status: int, launched: seq<Launch>, opens: nat, closed: seq<nat>)

  /** What the interpreter accepts without an exception of its own: it must not end in a
      directory change, and every directory change must name its directory. */
  ghost predicate Runnable(p: seq<Node>) {
    && WellFormed(p)
    && p[|p| - 1].Cmd?
    && forall i :: 0 <= i < |p| && p[i].Chdir? ==> p[i].dir.Some?
  }

  function JoinPath(a: string, b: string): string {
    if b != "" && b[0] == '/' then b
    else if a == "" || a[|a| - 1] == '/' then a + b
    else a + "/" + b
  }

  /** A path that begins with a slash stands for itself. Any other stands behind the directory, which a
      single slash ends unless it is empty or ends in one already. */
  lemma JoinPathIs(a: string, b: string)
    ensures "/" <= b ==> JoinPath(a, b) == b
    ensures !("/" <= b) ==>
              exists dir :: JoinPath(a, b) == dir + b && dir in [a, a + "/"] && (a != "" ==> dir[|dir| - 1] == '/') &&
                            (a == "" || a[|a| - 1] == '/' ==> dir == a)
  {
    var dir := if a == "" || a[|a| - 1] == '/' then a else a + "/";
    assert !("/" <= b) ==> JoinPath(a, b) == dir + b;
  }

  // ---- what is to be run, with the directory changes resolved ----

  datatype Next = End | ThenPipe | ThenAnd | ThenOr

  datatype Item = Item(command: Command, cwd: string, next: Next)

  ghost predicate Terminated(items: seq<Item>) {
    && items != [] && items[|items| - 1].next.End?
    && forall k :: 0 <= k < |items| - 1 ==> !items[k].next.End?
  }

  function NextFor(node: Node): Next {
    if node.Pipe? then ThenPipe else if node.And? then ThenAnd else ThenOr
  }

  /** The commands from node `i` on, when the current directory is `cwd` there. */
  ghost function Items(p: seq<Node>, i: nat, cwd: string): (r: seq<Item>)
    requires Runnable(p) && i < |p| && i % 2 == 0
    ensures r != []
    decreases |p| - i
  {
    NodeAt(p, i);
    if p[i].Chdir? then Items(p, i + 2, JoinPath(cwd, p[i].dir.value))
    else if i + 1 == |p| then [Item(p[i].command, cwd, End)]
    else [Item(p[i].command, cwd, NextFor(p[i + 1]))] + Items(p, i + 2, cwd)
  }

  /** Only the last command ends the list, and a command writes to a pipe exactly when the next one
      is joined to it by a pipe sign. */
  lemma {:induction false} ItemsShape(p: seq<Node>, i: nat, cwd: string)
    requires Runnable(p) && i < |p| && i % 2 == 0
    ensures Terminated(Items(p, i, cwd))
    ensures forall k :: 0 <= k < |Items(p, i, cwd)| ==>
              (Items(p, i, cwd)[k].command.stdout.Piped? <==> Items(p, i, cwd)[k].next.ThenPipe?)
    decreases |p| - i
  {
    NodeAt(p, i);
    assert p[i].Cmd? ==> OperandOk(p[i], NextOf(p, i));
    hide WellFormed, Alternates, CommandOk, Runnable;
    if i + 1 < |p| {
      ItemsShape(p, i + 2, if p[i].Chdir? then JoinPath(cwd, p[i].dir.value) else cwd);
    }
  }

  predicate IsNullDevice(name: string) {
    name in ["NUL:", "/dev/null"]
  }

  predicate PipedInto(items: seq<Item>, k: nat)
    requires k <= |items|
  {
    k > 0 && items[k - 1].next.ThenPipe?
  }

  predicate OpensStdin(items: seq<Item>, k: nat)
    requires k < |items|
  {
    !PipedInto(items, k) && items[k].command.stdin.Some?
  }

  predicate OpensFile(o: Output) {
    o.ToFile? && !IsNullDevice(o.name)
  }

  function Count(b: bool): nat { if b then 1 else 0 }

  /** How many files the first `k` commands open. */
  function OpenedBefore(items: seq<Item>, k: nat): nat
    requires k <= |items|
  {
    if k == 0 then 0
    else
      OpenedBefore(items, k - 1) + Count(OpensStdin(items, k - 1))
        + Count(OpensFile(items[k - 1].command.stdout)) + Count(OpensFile(items[k - 1].command.stderr))
  }

  function SinkFor(o: Output, handle: nat): Sink {
    match o
    case Inherited => NoSink
    case Piped => ToPipe
    case ToStdout => WithStdout
    case ToFile(name) => Into(if IsNullDevice(name) then DevNull else Opened(handle, name))
  }

  /** How the command number `k` is launched; files are numbered in the order of opening. */
  function LaunchOf(items: seq<Item>, k: nat): Launch
    requires k < |items|
  {
    var c, h := items[k].command, OpenedBefore(items, k);
    var h1 := h + Count(OpensStdin(items, k));
    var h2 := h1 + Count(OpensFile(c.stdout));
    Launch(c.argv,
           if PipedInto(items, k) then FromProcess(k - 1)
           else if c.stdin.Some? then FromFile(Opened(h, c.stdin.value)) else NoStdin,
           SinkFor(c.stdout, h1), SinkFor(c.stderr, h2), c.envVars,
           if items[k].cwd == "." then None else Some(items[k].cwd))
  }

  // ---- groups ----

  /** The last command of the pipe group that command `k` belongs to. */
  function GroupEnd(items: seq<Item>, k: nat): (j: nat)
    requires k < |items| && !items[|items| - 1].next.ThenPipe?
    ensures k <= j < |items| && !items[j].next.ThenPipe?
    ensures forall l :: k <= l < j ==> items[l].next.ThenPipe?
    decreases |items| - k
  {
    if items[k].next.ThenPipe? then GroupEnd(items, k + 1) else k
  }

  /** The operator cuts the list short after a group with this status. */
  predicate Stops(next: Next, status: int) {
    next.End? || (next.ThenAnd? && status != 0) || (next.ThenOr? && status == 0)
  }

  /** Recursive evaluation, group by group, from the group that starts with command `g`: how many
      commands have been launched in all when it is over, and the result. */
  function Evaluate(items: seq<Item>, g: nat, exits: nat -> int): (r: (nat, int))
    requires g < |items| && items[|items| - 1].next.End?
    ensures g < r.0 <= |items|
    decreases |items| - g
  {
    var j := GroupEnd(items, g);
    if Stops(items[j].next, exits(j)) || j + 1 == |items| then (j + 1, exits(j)) else Evaluate(items, j + 1, exits)
  }

  ghost function Numbers(n: nat): (r: seq<nat>)
    ensures |r| == n && forall i :: 0 <= i < n ==> r[i] == i
  {
    seq(n, i => i)
  }

  /** The opened files among those to be closed, in order. */
  function Handles(files: seq<File>): seq<nat> {
    if files == [] then []
    else Handles(files[..|files| - 1]) + if files[|files| - 1].Opened? then [files[|files| - 1].handle] else []
  }

  /** Waits for every process of a group. */
  method ExecPipedCommands(commands: seq<nat>, exits: nat -> int) returns (retval: int)
    requires commands != []
    ensures retval == exits(commands[|commands| - 1])
  {
    var retvals: seq<int> := [];
    for i := 0 to |commands|
      invariant |retvals| == i && forall k :: 0 <= k < i ==> retvals[k] == exits(commands[k])
    {
      retvals := retvals + [exits(commands[i])];
    }
    retval := 0;
    for i := 0 to |retvals|
      invariant retval == 0 && forall k :: 0 <= k < i ==> retvals[k] == 0
    {
      if retvals[i] != 0 {
        retval := retvals[|retvals| - 1];
        break;
      }
    }
  }

  /** Closes the files of a group, but never the null device. */
  method CloseFiles(files: seq<File>, closed0: seq<nat>) returns (closed: seq<nat>)
    ensures closed == closed0 + Handles(files)
  {
    closed := closed0;
    for i := 0 to |files|
      invariant closed == closed0 + Handles(files[..i])
    {
      assert files[..i + 1][..i] == files[..i];
      match files[i]
      case DevNull =>
      case Opened(h, _) => closed := closed + [h];
    }
    assert files[..|files|] == files;
  }

  method OpenOutFile(name: string, opens0: nat) returns (file: File, opens: nat)
    ensures file == if IsNullDevice(name) then DevNull else Opened(opens0, name)
    ensures opens == opens0 + Count(!IsNullDevice(name))
  {
    if IsNullDevice(name) {
      file, opens := DevNull, opens0;
    } else {
      file, opens := Opened(opens0, name), opens0 + 1;
    }
  }

  /** The files opened so far, each either closed or among those to be closed. */
  ghost predicate Accounted(closed: seq<nat>, files: seq<File>, opens: nat) {
    closed + Handles(files) == Numbers(opens)
  }

  lemma AccountOpen(closed: seq<nat>, files: seq<File>, opens: nat, path: string)
    requires Accounted(closed, files, opens)
    ensures Accounted(closed, files + [Opened(opens, path)], opens + 1)
    ensures Accounted(closed, files + [DevNull], opens)
  {
    assert Handles(files + [Opened(opens, path)]) == Handles(files) + [opens];
    assert Handles(files + [DevNull]) == Handles(files) + [];
    assert Numbers(opens + 1) == Numbers(opens) + [opens];
  }

  /** What has been launched so far is launched as it should be. */
  ghost predicate Launched(items: seq<Item>, launched: seq<Launch>, opens: nat) {
    && |launched| <= |items| && opens == OpenedBefore(items, |launched|)
    && forall k :: 0 <= k < |launched| ==> launched[k] == LaunchOf(items, k)
  }

  method OpenSink(o: Output, opens0: nat, files0: seq<File>, ghost closed: seq<nat>)
    returns (sink: Sink, opens: nat, files: seq<File>)
    requires Accounted(closed, files0, opens0)
    ensures sink == SinkFor(o, opens0) && opens == opens0 + Count(OpensFile(o))
    ensures Accounted(closed, files, opens)
  {
    opens, files := opens0, files0;
    match o {
      case Inherited => sink := NoSink;
      case Piped => sink := ToPipe;
      case ToStdout => sink := WithStdout;
      case ToFile(name) =>
        AccountOpen(closed, files, opens, name);
        var f;
        f, opens := OpenOutFile(name, opens);
        files := files + [f];
        sink := Into(f);
    }
  }

  /** Opens what command `c` needs and launches it. */
  method LaunchCommand(c: Command, piped: bool, pipedCommands: seq<nat>, cwd: string, opens0: nat,
                       files0: seq<File>, ghost closed: seq<nat>, ghost items: seq<Item>, launched0: seq<Launch>)
    returns (launched: seq<Launch>, opens: nat, files: seq<File>)
    requires var k := |launched0|; k < |items| && items[k].command == c && items[k].cwd == cwd
    requires piped == PipedInto(items, |launched0|) && Launched(items, launched0, opens0)
    requires piped ==> pipedCommands != [] && pipedCommands[|pipedCommands| - 1] == |launched0| - 1
    requires Accounted(closed, files0, opens0)
    ensures |launched| == |launched0| + 1 && Launched(items, launched, opens)
    ensures Accounted(closed, files, opens)
  {
    hide Accounted;
    opens, files := opens0, files0;
    var stdin: Source, stdout: Sink, stderr: Sink;
    if piped {
      stdin := FromProcess(pipedCommands[|pipedCommands| - 1]);
    } else if c.stdin.Some? {
      var file := Opened(opens, c.stdin.value);
      AccountOpen(closed, files, opens, file.path);
      stdin := FromFile(file);
      files := files + [file];
      opens := opens + 1;
    } else {
      stdin := NoStdin;
    }
    stdout, opens, files := OpenSink(c.stdout, opens, files, closed);
    stderr, opens, files := OpenSink(c.stderr, opens, files, closed);
    var launch := Launch(c.argv, stdin, stdout, stderr, c.envVars, if cwd == "." then None else Some(cwd));
    assert launch == LaunchOf(items, |launched0|);
    launched := launched0 + [launch];
  }

  // ---- the interpreter ----

  /** Every directory change has been joined on, starting from the current directory. */
  function CwdAfter(p: seq<Node>): string {
    if p == [] then "."
    else
      var node, before := p[|p| - 1], CwdAfter(p[..|p| - 1]);
      if node.Chdir? && node.dir.Some? then JoinPath(before, node.dir.value) else before
  }

  /** The interpreter before node `i`: `n` commands have been launched, those from `g` on wait in
      the current group. */
  ghost predicate Running(p: seq<Node>, i: nat, cwd: string, items: seq<Item>, n: nat, g: nat) {
    && Runnable(p) && i < |p| && i % 2 == 0
    && g <= n < |items| && items == Items(p, 0, ".")
    && Items(p, i, cwd) == items[n..]
    && cwd == CwdAfter(p[..i])
    && (PipedInto(items, n) <==> g < n)
    && (n > 0 && g < n ==> forall k :: g <= k < n ==> items[k].next.ThenPipe?)
  }

  method Run(pipeline: seq<Node>, exits: nat -> int) returns (r: Execution)
    requires Runnable(pipeline)
    ensures RunsAs(Items(pipeline, 0, "."), exits, r)
  {
    hide Running, Items, Evaluate, GroupEnd, Accounted, Launched, PipedInto, Numbers, JoinPath, OperandOk, Alternates;
    ghost var items := Items(pipeline, 0, ".");
    RunStart(pipeline);
    var launched: seq<Launch> := [];
    var filesToClose: seq<File>, closed: seq<nat>, opens := [], [], 0;
    var pipedCommands: seq<nat> := [];
    var inPipe, cwd, i := false, ".", 0;
    ghost var g: nat := 0;
    NothingOpened(items);
    while true
      invariant i < |pipeline|
      invariant g <= |launched| && Running(pipeline, i, cwd, items, |launched|, g)
      invariant Launched(items, launched, opens)
      invariant inPipe <==> g < |launched|
      invariant |pipedCommands| == |launched| - g && forall k :: 0 <= k < |pipedCommands| ==> pipedCommands[k] == g + k
      invariant Accounted(closed, filesToClose, opens)
      invariant g < |items| && Evaluate(items, g, exits) == Evaluate(items, 0, exits)
      decreases |pipeline| - i
    {
      var node := pipeline[i];
      if node.Chdir? {
        ChdirStep(pipeline, i, cwd, items, |launched|, g);
        cwd := JoinPath(cwd, node.dir.value);
        i := i + 2;
        continue;
      }
      var n := |launched|;
      CommandStep(pipeline, i, cwd, items, n, g);
      if !items[n].next.ThenPipe? {
        EvaluateStep(pipeline, i, cwd, items, n, g, exits);
      }
      launched, opens, filesToClose :=
        LaunchCommand(node.command, inPipe, pipedCommands, cwd, opens, filesToClose, closed, items, launched);
      pipedCommands := pipedCommands + [n];
      if i + 1 == |pipeline| {
        var retval;
        retval, closed, filesToClose := FinishGroup(pipedCommands, exits, filesToClose, closed, opens);
        return Execution(retval, launched, opens, closed);
      }
      var nextNode := pipeline[i + 1];
      i := i + 2;
      if nextNode.Pipe? {
        inPipe := true;
      } else {
        var thisRetval;
        thisRetval, closed, filesToClose := FinishGroup(pipedCommands, exits, filesToClose, closed, opens);
        if nextNode.Or? && thisRetval == 0 {
          return Execution(thisRetval, launched, opens, closed);
        }
        if nextNode.And? && thisRetval != 0 {
          return Execution(thisRetval, launched, opens, closed);
        }
        inPipe, pipedCommands, g := false, [], n + 1;
      }
    }
  }

  /** Waits for the group, then closes its files; the same at the end of the list and at both
      kinds of list operator. */
  method FinishGroup(commands: seq<nat>, exits: nat -> int, files0: seq<File>, closed0: seq<nat>, ghost opens: nat)
    returns (retval: int, closed: seq<nat>, files: seq<File>)
    requires commands != [] && Accounted(closed0, files0, opens)
    ensures retval == exits(commands[|commands| - 1])
    ensures closed == Numbers(opens) && files == [] && Accounted(closed, files, opens)
  {
    retval := ExecPipedCommands(commands, exits);
    closed := CloseFiles(files0, closed0);
    files := [];
  }

  /** The run follows the recursive evaluation: the same commands launched, each in its way, the
      same result; and every file opened is closed exactly once. */
  ghost predicate RunsAs(items: seq<Item>, exits: nat -> int, r: Execution) {
    && items != [] && items[|items| - 1].next.End?
    && Evaluate(items, 0, exits) == (|r.launched|, r.status)
    && Launched(items, r.launched, r.opens)
    && r.closed == Numbers(r.opens)
  }

  lemma NothingOpened(items: seq<Item>)
    ensures Launched(items, [], 0) && Accounted([], [], 0)
  {
  }

  lemma NodeAt(p: seq<Node>, i: nat)
    requires Runnable(p) && i < |p|
    ensures i % 2 == 0 ==> p[i].Cmd? || (p[i].Chdir? && p[i].dir.Some? && i + 2 < |p| && p[i + 1].And?)
    ensures i % 2 == 0 && i + 1 < |p| ==> i + 2 < |p| && IsOp(p[i + 1])
  {
    hide CommandOk;
    if i % 2 == 0 {
      assert OperandOk(p[i], NextOf(p, i));
      if i + 1 < |p| { assert IsOp(p[i + 1]); }
    }
  }

  lemma ChdirStep(p: seq<Node>, i: nat, cwd: string, items: seq<Item>, n: nat, g: nat)
    requires Running(p, i, cwd, items, n, g) && i < |p| && p[i].Chdir?
    ensures i + 2 < |p| && p[i].dir.Some? && Running(p, i + 2, JoinPath(cwd, p[i].dir.value), items, n, g)
  {
    NodeAt(p, i);
    CwdStep(p, i);
  }

  lemma CwdStep(p: seq<Node>, i: nat)
    requires i + 1 < |p| && IsOp(p[i + 1])
    ensures CwdAfter(p[..i + 2]) ==
              if p[i].Chdir? && p[i].dir.Some? then JoinPath(CwdAfter(p[..i]), p[i].dir.value) else CwdAfter(p[..i])
  {
    assert p[..i + 2][..i + 1] == p[..i + 1] && p[..i + 1][..i] == p[..i];
  }

  lemma CommandStep(p: seq<Node>, i: nat, cwd: string, items: seq<Item>, n: nat, g: nat)
    requires Running(p, i, cwd, items, n, g) && i < |p| && !p[i].Chdir?
    ensures g <= n < |items| && p[i].Cmd?
    ensures PipedInto(items, n) <==> g < n
    ensures items[n] == Item(p[i].command, cwd, if i + 1 == |p| then End else NextFor(p[i + 1]))
    ensures i + 1 == |p| ==> n + 1 == |items|
    ensures i + 1 < |p| ==> (
              && i + 2 < |p| && IsOp(p[i + 1]) && n + 1 < |items|
              && Running(p, i + 2, cwd, items, n + 1, if p[i + 1].Pipe? then g else n + 1))
  {
    hide Items, CwdAfter, Alternates, WellFormed;
    NodeAt(p, i);
    ItemsHere(p, i, cwd);
    assert items[n..][0] == items[n];
    if i + 1 == |p| {
      assert |items[n..]| == 1;
    } else {
      CwdStep(p, i);
      ItemsStep(p, i, cwd);
      assert items[n..][1..] == items[n + 1..];
    }
  }

  lemma ItemsHere(p: seq<Node>, i: nat, cwd: string)
    requires Runnable(p) && i < |p| && i % 2 == 0 && p[i].Cmd?
    ensures Items(p, i, cwd)[0] == Item(p[i].command, cwd, if i + 1 == |p| then End else NextFor(p[i + 1]))
    ensures i + 1 == |p| ==> |Items(p, i, cwd)| == 1
  {
  }

  lemma ItemsStep(p: seq<Node>, i: nat, cwd: string)
    requires Runnable(p) && i + 2 < |p| && i % 2 == 0
    ensures p[i].Cmd? ==> |Items(p, i, cwd)| > 1 && Items(p, i + 2, cwd) == Items(p, i, cwd)[1..]
    ensures p[i].Chdir? ==> p[i].dir.Some? && Items(p, i + 2, JoinPath(cwd, p[i].dir.value)) == Items(p, i, cwd)
    ensures p[i].Cmd? || p[i].Chdir?
    ensures IsOp(p[i + 1])
  {
    hide Runnable, WellFormed, JoinPath, IsOp;
    NodeAt(p, i);
  }

  /** A group is over: either the list ends here or evaluation goes on behind it. */
  lemma EvaluateStep(p: seq<Node>, i: nat, cwd: string, items: seq<Item>, n: nat, g: nat, exits: nat -> int)
    requires Running(p, i, cwd, items, n, g)
    requires n < |items| && g < |items| && !items[n].next.ThenPipe? && items[|items| - 1].next.End?
    ensures Evaluate(items, g, exits) ==
              if Stops(items[n].next, exits(n)) || n + 1 == |items| then (n + 1, exits(n))
              else Evaluate(items, n + 1, exits)
  {
    hide Items, CwdAfter, WellFormed;
    assert GroupEnd(items, g) == n;
  }

  lemma RunStart(p: seq<Node>)
    requires Runnable(p)
    ensures p != [] && Running(p, 0, ".", Items(p, 0, "."), 0, 0) && Terminated(Items(p, 0, "."))
  {
    ItemsShape(p, 0, ".");
  }
}
