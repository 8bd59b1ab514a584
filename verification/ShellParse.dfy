/** The mini-shell's parser: a token state machine that fills a pipeline of commands, directory
    changes and operators. */
module ShellParse {
  import opened Wrappers

  datatype Output = Inherited | Piped | ToStdout | ToFile(name: string)

  datatype Command = Command(name: string, argv: seq<string>, stdin: Option<string>, stdout: Output,
                             stderr: Output, envVars: map<string, string>)

  datatype Node = Cmd(command: Command) | Chdir(dir: Option<string>) | Pipe | And | Or

  datatype Mode = InBegin | InCommand | InChdir | InStderr | InStdout | InStdin

  /** The parser between two tokens. */
  datatype Parser = Parser(mode: Mode, envVars: map<string, string>, current: Option<Node>, pipeline: seq<Node>)

  // ---- tokens ----

  predicate IsNameChar(c: char) {
    'a' <= c <= 'z' || 'A' <= c <= 'Z' || '0' <= c <= '9' || c == '_'
  }

  predicate IsSpace(c: char) {
    c == ' ' || '\t' <= c <= '\r'
  }

  function NameLength(s: string): (n: nat)
    ensures n <= |s| && (forall i :: 0 <= i < n ==> IsNameChar(s[i]))
    ensures n < |s| ==> !IsNameChar(s[n])
  {
    if s == "" || !IsNameChar(s[0]) then 0 else 1 + NameLength(s[1..])
  }

  predicate IsValue(s: string) {
    s != "" && forall i :: 0 <= i < |s| ==> !IsSpace(s[i])
  }

  /** NAME=value with a value free of blanks; one newline at the end is not part of it. */
  function EnvMatch(token: string): Option<(string, string)> {
    var n := NameLength(token);
    if n == 0 || n == |token| || token[n] != '=' then None
    else
      var rest := token[n + 1..];
      var value := if rest != "" && rest[|rest| - 1] == '\n' then rest[..|rest| - 1] else rest;
      if IsValue(value) then Some((token[..n], value)) else None
  }

  predicate IsOperator(token: string) {
    token in [">", "2>", "2>&1", "<", "|", "&&", "||"]
  }

  // ---- one token ----

  /** None where the source's assertion fails. */
  function Commit(p: Parser, op: Node): Option<Parser> {
    if p.current.None? then None
    else Some(p.(mode := InBegin, current := None, pipeline := p.pipeline + [p.current.value] + [op]))
  }

  function WithCommand(p: Parser, c: Command): Parser {
    p.(mode := InCommand, current := Some(Cmd(c)))
  }

  function BeginToken(p: Parser, token: string): Option<Parser> {
    var env := EnvMatch(token);
    if env.Some? then Some(p.(envVars := p.envVars[env.value.0 := env.value.1]))
    else if p.current.Some? then None
    else if token == "cd" then
      if p.envVars != map[] then None else Some(p.(mode := InChdir, current := Some(Chdir(None))))
    else
      var c := Command(token, [token], None, Inherited, Inherited, p.envVars);
      Some(WithCommand(p.(envVars := map[]), c))
  }

  function CommandToken(p: Parser, c: Command, token: string): Option<Parser> {
    if token == ">" then Some(p.(mode := InStdout))
    else if token == "2>" then Some(p.(mode := InStderr))
    else if token == "2>&1" then
      if c.stderr.Inherited? then Some(WithCommand(p, c.(stderr := ToStdout))) else None
    else if token == "<" then Some(p.(mode := InStdin))
    else if token == "|" then
      if c.stdout.Inherited? then Commit(WithCommand(p, c.(stdout := Piped)), Pipe) else None
    else if token == "&&" then Commit(p, And)
    else if token == "||" then Commit(p, Or)
    else Some(WithCommand(p, c.(argv := c.argv + [token])))
  }

  function ChdirToken(p: Parser, dir: Option<string>, token: string): Option<Parser> {
    if token == "&&" then Commit(p, And)
    else if dir.None? then Some(p.(current := Some(Chdir(Some(token)))))
    else None
  }

  function Accept(p: Parser, token: string): Option<Parser> {
    match (p.mode, p.current)
    case (InBegin, _) => BeginToken(p, token)
    case (InChdir, Some(Chdir(dir))) => ChdirToken(p, dir, token)
    case (InCommand, Some(Cmd(c))) => CommandToken(p, c, token)
    case (InStdout, Some(Cmd(c))) =>
      if c.stdout.Inherited? then Some(WithCommand(p, c.(stdout := ToFile(token)))) else None
    case (InStderr, Some(Cmd(c))) =>
      if c.stderr.Inherited? then Some(WithCommand(p, c.(stderr := ToFile(token)))) else None
    case (InStdin, Some(Cmd(c))) =>
      if c.stdin.None? then Some(WithCommand(p, c.(stdin := Some(token)))) else None
    case _ => None
  }

  const START := Parser(InBegin, map[], None, [])

  function AcceptAll(p: Parser, tokens: seq<string>): Option<Parser> {
    if tokens == [] then Some(p)
    else
      var q := AcceptAll(p, tokens[..|tokens| - 1]);
      if q.None? then None else Accept(q.value, tokens[|tokens| - 1])
  }

  /** The pipeline a token list stands for; None if an assertion fails on the way. */
  function Parsed(tokens: seq<string>): Option<seq<Node>> {
    var p := AcceptAll(START, tokens);
    if p.None? || p.value.current.None? then None else Some(p.value.pipeline + [p.value.current.value])
  }

  // ---- the class ----

  class Pipeline {
    var currentCommand: Option<Node>
    var pipeline: seq<Node>

    constructor ()
      ensures currentCommand == None && pipeline == []
    {
      currentCommand, pipeline := None, [];
    }

    method CommitCommand() returns (ok: bool)
      modifies this
      ensures ok == old(currentCommand).Some?
      ensures ok ==> currentCommand == None && pipeline == old(pipeline) + [old(currentCommand).value]
      ensures !ok ==> currentCommand == old(currentCommand) && pipeline == old(pipeline)
    {
      ok := currentCommand.Some?;
      if ok {
        pipeline := pipeline + [currentCommand.value];
        currentCommand := None;
      }
    }

    method Parse(tokens: seq<string>) returns (r: Option<seq<Node>>)
      modifies this
      ensures r == Parsed(tokens)
      ensures r.Some? ==> pipeline == r.value && currentCommand == None
    {
      currentCommand, pipeline := None, [];
      var mode, envVars: map<string, string> := InBegin, map[];
      for i := 0 to |tokens|
        invariant AcceptAll(START, tokens[..i]) == Some(Parser(mode, envVars, currentCommand, pipeline))
        invariant mode.InBegin? <==> currentCommand.None?
        invariant mode.InChdir? ==> currentCommand.value.Chdir?
        invariant !mode.InChdir? && !mode.InBegin? ==> currentCommand.value.Cmd?
      {
        var token := tokens[i];
        ParsedFails(tokens, i + 1);
        assert tokens[..i + 1][..i] == tokens[..i];
        match mode
        case InBegin =>
          var env := EnvMatch(token);
          if env.Some? {
            envVars := envVars[env.value.0 := env.value.1];
          } else if token == "cd" {
            currentCommand := Some(Chdir(None));
            if envVars != map[] { return None; }
            mode := InChdir;
          } else {
            currentCommand := Some(Cmd(Command(token, [token], None, Inherited, Inherited, envVars)));
            envVars := map[];
            mode := InCommand;
          }
        case InCommand =>
          var c := currentCommand.value.command;
          if token == ">" {
            mode := InStdout;
          } else if token == "2>" {
            mode := InStderr;
          } else if token == "2>&1" {
            if !c.stderr.Inherited? { return None; }
            currentCommand := Some(Cmd(c.(stderr := ToStdout)));
          } else if token == "<" {
            mode := InStdin;
          } else if token == "|" {
            if !c.stdout.Inherited? { return None; }
            currentCommand := Some(Cmd(c.(stdout := Piped)));
            var ok := CommitCommand();
            pipeline := pipeline + [Pipe];
            mode := InBegin;
          } else if token == "&&" {
            var ok := CommitCommand();
            pipeline := pipeline + [And];
            mode := InBegin;
          } else if token == "||" {
            var ok := CommitCommand();
            pipeline := pipeline + [Or];
            mode := InBegin;
          } else {
            currentCommand := Some(Cmd(c.(argv := c.argv + [token])));
          }
        case InChdir =>
          if token == "&&" {
            var ok := CommitCommand();
            pipeline := pipeline + [And];
            mode := InBegin;
          } else {
            if currentCommand.value.dir.Some? { return None; }
            currentCommand := Some(Chdir(Some(token)));
          }
        case InStdout =>
          var c := currentCommand.value.command;
          if !c.stdout.Inherited? { return None; }
          currentCommand := Some(Cmd(c.(stdout := ToFile(token))));
          mode := InCommand;
        case InStderr =>
          var c := currentCommand.value.command;
          if !c.stderr.Inherited? { return None; }
          currentCommand := Some(Cmd(c.(stderr := ToFile(token))));
          mode := InCommand;
        case InStdin =>
          var c := currentCommand.value.command;
          if c.stdin.Some? { return None; }
          currentCommand := Some(Cmd(c.(stdin := Some(token))));
          mode := InCommand;
      }
      assert tokens[..|tokens|] == tokens;
      var ok := CommitCommand();
      r := if ok then Some(pipeline) else None;
    }
  }

  lemma {:induction false} ParsedFails(tokens: seq<string>, i: nat)
    requires i <= |tokens|
    ensures AcceptAll(START, tokens[..i]).None? ==> Parsed(tokens).None?
    decreases |tokens| - i
  {
    if i < |tokens| {
      assert tokens[..i + 1][..i] == tokens[..i];
      ParsedFails(tokens, i + 1);
    } else {
      assert tokens[..i] == tokens;
    }
  }
}
