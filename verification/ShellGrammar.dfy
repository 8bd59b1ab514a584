/** Which pipelines the parser can produce: exactly the well-formed ones. */
module ShellGrammar {
  import opened Wrappers
  import opened ShellParse

  predicate IsOp(node: Node) {
    node.Pipe? || node.And? || node.Or?
  }

  ghost predicate EnvOk(vars: map<string, string>) {
    forall k :: k in vars ==> EnvMatch(k + "=" + vars[k]) == Some((k, vars[k]))
  }

  ghost predicate CommandOk(c: Command) {
    && c.argv != [] && c.argv[0] == c.name
    && c.name != "cd" && EnvMatch(c.name).None?
    && (forall i :: 1 <= i < |c.argv| ==> !IsOperator(c.argv[i]))
    && !c.stdout.ToStdout? && !c.stderr.Piped?
    && EnvOk(c.envVars)
  }

  /** `next` is the node behind the operand, if there is one. */
  ghost predicate OperandOk(node: Node, next: Option<Node>) {
    match node
    case Cmd(c) => CommandOk(c) && (c.stdout.Piped? <==> next == Some(Pipe))
    case Chdir(dir) => dir != Some("&&") && (next.None? || next == Some(And))
    case _ => false
  }

  function NextOf(p: seq<Node>, i: nat): Option<Node> {
    if i + 1 < |p| then Some(p[i + 1]) else None
  }

  /** Operands at the even places, operators at the odd ones. */
  ghost predicate Alternates(p: seq<Node>) {
    forall i :: 0 <= i < |p| ==> if i % 2 == 0 then OperandOk(p[i], NextOf(p, i)) else IsOp(p[i])
  }

  /** An alternation that starts and ends with an operand. */
  ghost predicate WellFormed(p: seq<Node>) {
    |p| % 2 == 1 && Alternates(p)
  }

  // ---- every accepted token list gives a well-formed pipeline ----

  ghost predicate ParserOk(ps: Parser) {
    && |ps.pipeline| % 2 == 0 && Alternates(ps.pipeline)
    && EnvOk(ps.envVars)
    && match (ps.mode, ps.current)
       case (InBegin, None) => true
       case (InChdir, Some(Chdir(dir))) => dir != Some("&&")
       case (InBegin, _) => false
       case (InChdir, _) => false
       case (_, Some(Cmd(c))) => CommandOk(c) && !c.stdout.Piped?
       case _ => false
  }

  lemma AppendPair(p: seq<Node>, node: Node, op: Node)
    requires |p| % 2 == 0 && Alternates(p) && OperandOk(node, Some(op)) && IsOp(op)
    ensures Alternates(p + [node] + [op])
  {
    var q := p + [node] + [op];
    forall i | 0 <= i < |q| ensures if i % 2 == 0 then OperandOk(q[i], NextOf(q, i)) else IsOp(q[i]) {
      if i < |p| && i % 2 == 0 { assert NextOf(q, i) == NextOf(p, i); }
    }
  }

  lemma AppendLast(p: seq<Node>, node: Node)
    requires |p| % 2 == 0 && Alternates(p) && OperandOk(node, None)
    ensures WellFormed(p + [node])
  {
    var q := p + [node];
    forall i | 0 <= i < |q| ensures if i % 2 == 0 then OperandOk(q[i], NextOf(q, i)) else IsOp(q[i]) {
      if i < |p| && i % 2 == 0 { assert NextOf(q, i) == NextOf(p, i); }
    }
  }

  lemma {:induction false} NameThenEquals(name: string, rest: string)
    requires forall i :: 0 <= i < |name| ==> IsNameChar(name[i])
    ensures NameLength(name + "=" + rest) == |name|
  {
    if name != "" {
      assert (name + "=" + rest)[1..] == name[1..] + "=" + rest;
      NameThenEquals(name[1..], rest);
    }
  }

  lemma EnvMatchStable(token: string)
    requires EnvMatch(token).Some?
    ensures var (k, v) := EnvMatch(token).value; EnvMatch(k + "=" + v) == Some((k, v))
  {
    var (k, v) := EnvMatch(token).value;
    NameThenEquals(k, v);
    var t := k + "=" + v;
    assert IsValue(v) && !IsSpace(v[|v| - 1]);
    assert t[|k| + 1..] == v && t[..|k|] == k;
  }

  /** A token is an assignment exactly if it is a name of letters, digits and underscores, an equals
      sign, and a value without blanks; a newline may follow. */
  lemma EnvMatchIff(token: string, name: string, value: string)
    ensures EnvMatch(token) == Some((name, value)) <==>
      && name != "" && value != ""
      && (forall c :: c in name ==> 'a' <= c <= 'z' || 'A' <= c <= 'Z' || '0' <= c <= '9' || c == '_')
      && (forall c :: c in value ==> c !in " \t\n\U{000B}\U{000C}\r")
      && token in [name + "=" + value, name + "=" + value + "\n"]
  {
    hide EnvMatch, IsNameChar, IsSpace;
    CharSets();
    if EnvMatch(token) == Some((name, value)) {
      MatchIsAssignment(token);
    }
    if IsValue(value) && name != "" && (forall c :: c in name ==> IsNameChar(c)) {
      AssignmentMatches(name, value, value);
      AssignmentMatches(name, value, value + "\n");
      assert name + "=" + (value + "\n") == name + "=" + value + "\n";
    }
  }

  lemma CharSets()
    ensures forall c :: IsNameChar(c) <==> 'a' <= c <= 'z' || 'A' <= c <= 'Z' || '0' <= c <= '9' || c == '_'
    ensures forall c :: IsSpace(c) <==> c in " \t\n\U{000B}\U{000C}\r"
  {
  }

  lemma MatchIsAssignment(token: string)
    requires EnvMatch(token).Some?
    ensures var (name, value) := EnvMatch(token).value;
      && name != "" && (forall c :: c in name ==> IsNameChar(c)) && IsValue(value)
      && token in [name + "=" + value, name + "=" + value + "\n"]
  {
    hide IsNameChar, IsSpace, NameLength;
    var n := NameLength(token);
    var rest := token[n + 1..];
    var value := EnvMatch(token).value.1;
    var name := token[..n];
    assert token == name + "=" + rest && (rest == value || rest == value + "\n");
    assert name + "=" + (value + "\n") == name + "=" + value + "\n";
  }

  lemma AssignmentMatches(name: string, value: string, rest: string)
    requires name != "" && (forall c :: c in name ==> IsNameChar(c))
    requires IsValue(value) && rest in [value, value + "\n"]
    ensures EnvMatch(name + "=" + rest) == Some((name, value))
  {
    var t := name + "=" + rest;
    NameThenEquals(name, rest);
    assert t[|name|] == '=' && t[..|name|] == name && t[|name| + 1..] == rest;
    assert !IsSpace(value[|value| - 1]);
  }

  lemma BeginKeepsOk(ps: Parser, token: string)
    requires ParserOk(ps) && ps.mode.InBegin? && Accept(ps, token).Some?
    ensures ParserOk(Accept(ps, token).value)
  {
    hide EnvMatch, Alternates;
    if EnvMatch(token).Some? { EnvMatchStable(token); }
  }

  lemma OperatorKeepsOk(ps: Parser, node: Node, op: Node)
    requires ParserOk(ps) && OperandOk(node, Some(op)) && IsOp(op)
    ensures ParserOk(ps.(mode := InBegin, current := None, pipeline := ps.pipeline + [node] + [op]))
  {
    AppendPair(ps.pipeline, node, op);
  }

  lemma ChdirKeepsOk(ps: Parser, token: string)
    requires ParserOk(ps) && ps.mode.InChdir? && Accept(ps, token).Some?
    ensures ParserOk(Accept(ps, token).value)
  {
    hide EnvMatch, Alternates;
    if token == "&&" { OperatorKeepsOk(ps, ps.current.value, And); }
  }

  lemma CommandKeepsOk(ps: Parser, token: string)
    requires ParserOk(ps) && ps.mode.InCommand? && Accept(ps, token).Some?
    ensures ParserOk(Accept(ps, token).value)
  {
    hide EnvMatch, Alternates;
    var c := ps.current.value.command;
    if token == "|" {
      OperatorKeepsOk(ps, Cmd(c.(stdout := Piped)), Pipe);
    } else if token == "&&" {
      OperatorKeepsOk(ps, Cmd(c), And);
    } else if token == "||" {
      OperatorKeepsOk(ps, Cmd(c), Or);
    }
  }

  lemma RedirectionKeepsOk(ps: Parser, token: string)
    requires ParserOk(ps) && Accept(ps, token).Some?
    requires ps.mode.InStdout? || ps.mode.InStderr? || ps.mode.InStdin?
    ensures ParserOk(Accept(ps, token).value)
  {
    hide EnvMatch, Alternates;
  }

  lemma AcceptKeepsOk(ps: Parser, token: string)
    requires ParserOk(ps) && Accept(ps, token).Some?
    ensures ParserOk(Accept(ps, token).value)
  {
    hide *;
    match ps.mode
    case InBegin => BeginKeepsOk(ps, token);
    case InChdir => ChdirKeepsOk(ps, token);
    case InCommand => CommandKeepsOk(ps, token);
    case _ => RedirectionKeepsOk(ps, token);
  }

  lemma {:induction false} AcceptAllKeepsOk(tokens: seq<string>)
    requires AcceptAll(START, tokens).Some?
    ensures ParserOk(AcceptAll(START, tokens).value)
  {
    if tokens != [] {
      AcceptAllKeepsOk(tokens[..|tokens| - 1]);
      AcceptKeepsOk(AcceptAll(START, tokens[..|tokens| - 1]).value, tokens[|tokens| - 1]);
    }
  }

  lemma ParsedIsWellFormed(tokens: seq<string>)
    requires Parsed(tokens).Some?
    ensures WellFormed(Parsed(tokens).value)
  {
    AcceptAllKeepsOk(tokens);
    var ps := AcceptAll(START, tokens).value;
    AppendLast(ps.pipeline, ps.current.value);
  }

  // ---- every well-formed pipeline is the parse of some token list ----

  ghost function EnvTokens(vars: map<string, string>): seq<string>
    decreases vars.Keys
  {
    if vars == map[] then []
    else
      var k :| k in vars;
      EnvTokens(vars - {k}) + [k + "=" + vars[k]]
  }

  function FileTokens(sign: string, o: Output): seq<string> {
    match o
    case ToFile(name) => [sign, name]
    case ToStdout => ["2>&1"]
    case _ => []
  }

  function StdinTokens(stdin: Option<string>): seq<string> {
    if stdin.Some? then ["<", stdin.value] else []
  }

  ghost function OperandTokens(node: Node): seq<string> {
    match node
    case Cmd(c) =>
      EnvTokens(c.envVars) + [c.name] + (if c.argv == [] then [] else c.argv[1..])
        + (StdinTokens(c.stdin) + FileTokens(">", c.stdout) + FileTokens("2>", c.stderr))
    case Chdir(dir) => ["cd"] + if dir.Some? then [dir.value] else []
    case _ => []
  }

  function OpToken(node: Node): string {
    match node
    case Pipe => "|"
    case And => "&&"
    case _ => "||"
  }

  /** The canonical token list of an alternation. */
  ghost function Tokens(p: seq<Node>): seq<string> {
    if p == [] then []
    else
      var n := |p| - 1;
      Tokens(p[..n]) + if n % 2 == 0 then OperandTokens(p[n]) else [OpToken(p[n])]
  }

  ghost predicate Accepts(ps: Parser, tokens: seq<string>, ps': Parser) {
    AcceptAll(ps, tokens) == Some(ps')
  }

  lemma {:induction false} AcceptsThen(ps: Parser, a: seq<string>, ps': Parser, b: seq<string>, ps'': Parser)
    requires Accepts(ps, a, ps') && Accepts(ps', b, ps'')
    ensures Accepts(ps, a + b, ps'')
  {
    if b == [] {
      assert a + b == a;
    } else {
      var n := |b| - 1;
      assert (a + b)[..|a + b| - 1] == a + b[..n];
      AcceptsThen(ps, a, ps', b[..n], AcceptAll(ps', b[..n]).value);
    }
  }

  lemma AcceptsNothing(ps: Parser)
    ensures Accepts(ps, [], ps)
  {
  }

  lemma AcceptsOne(ps: Parser, token: string, ps': Parser)
    requires Accept(ps, token) == Some(ps')
    ensures Accepts(ps, [token], ps')
  {
    assert [token][..0] == [];
  }

  lemma LastVariable(vars: map<string, string>)
    requires vars != map[]
    ensures exists k :: k in vars && EnvTokens(vars) == EnvTokens(vars - {k}) + [k + "=" + vars[k]]
  {
  }

  lemma {:induction false} AcceptsEnv(vars: map<string, string>, pl: seq<Node>)
    requires EnvOk(vars)
    ensures Accepts(Parser(InBegin, map[], None, pl), EnvTokens(vars), Parser(InBegin, vars, None, pl))
    decreases vars.Keys
  {
    hide EnvMatch, AcceptAll;
    if vars == map[] {
      AcceptsNothing(Parser(InBegin, map[], None, pl));
    } else {
      LastVariable(vars);
      var k :| k in vars && EnvTokens(vars) == EnvTokens(vars - {k}) + [k + "=" + vars[k]];
      var rest := vars - {k};
      assert rest.Keys == vars.Keys - {k};
      AcceptsEnv(rest, pl);
      AcceptsOneMore(rest, k, vars[k], pl);
      assert rest[k := vars[k]] == vars;
    }
  }

  lemma AcceptsOneMore(rest: map<string, string>, k: string, v: string, pl: seq<Node>)
    requires EnvMatch(k + "=" + v) == Some((k, v))
    requires Accepts(Parser(InBegin, map[], None, pl), EnvTokens(rest), Parser(InBegin, rest, None, pl))
    ensures Accepts(Parser(InBegin, map[], None, pl), EnvTokens(rest) + [k + "=" + v],
                    Parser(InBegin, rest[k := v], None, pl))
  {
    hide EnvTokens, EnvMatch, AcceptAll;
    AcceptsAssignment(rest, k, v, pl);
    AcceptsThen(Parser(InBegin, map[], None, pl), EnvTokens(rest), Parser(InBegin, rest, None, pl),
                [k + "=" + v], Parser(InBegin, rest[k := v], None, pl));
  }

  lemma AcceptsAssignment(vars: map<string, string>, k: string, v: string, pl: seq<Node>)
    requires EnvMatch(k + "=" + v) == Some((k, v))
    ensures Accepts(Parser(InBegin, vars, None, pl), [k + "=" + v], Parser(InBegin, vars[k := v], None, pl))
  {
    AcceptsOne(Parser(InBegin, vars, None, pl), k + "=" + v, Parser(InBegin, vars[k := v], None, pl));
  }

  function InCmd(c: Command, pl: seq<Node>): Parser {
    Parser(InCommand, map[], Some(Cmd(c)), pl)
  }

  lemma {:induction false} AcceptsArgs(c: Command, args: seq<string>, pl: seq<Node>)
    requires forall i :: 0 <= i < |args| ==> !IsOperator(args[i])
    ensures Accepts(InCmd(c, pl), args, InCmd(c.(argv := c.argv + args), pl))
  {
    if args == [] {
      assert c.argv + args == c.argv;
    } else {
      var n := |args| - 1;
      var c' := c.(argv := c.argv + args[..n]);
      AcceptsArgs(c, args[..n], pl);
      assert c.argv + args == c'.argv + [args[n]];
    }
  }

  lemma AcceptsRedirections(c: Command, stdin: Option<string>, stdout: Output, stderr: Output, pl: seq<Node>)
    requires c.stdin.None? && c.stdout.Inherited? && c.stderr.Inherited?
    requires !stdout.ToStdout? && !stdout.Piped? && !stderr.Piped?
    ensures Accepts(InCmd(c, pl), StdinTokens(stdin) + FileTokens(">", stdout) + FileTokens("2>", stderr),
                    InCmd(c.(stdin := stdin, stdout := stdout, stderr := stderr), pl))
  {
    var c1 := c.(stdin := stdin);
    var c2 := c1.(stdout := stdout);
    var c3 := c2.(stderr := stderr);
    assert Accepts(InCmd(c, pl), StdinTokens(stdin), InCmd(c1, pl)) by {
      if stdin.Some? { AcceptsPair(InCmd(c, pl), "<", stdin.value); }
    }
    assert Accepts(InCmd(c1, pl), FileTokens(">", stdout), InCmd(c2, pl)) by {
      if stdout.ToFile? { AcceptsPair(InCmd(c1, pl), ">", stdout.name); }
    }
    assert Accepts(InCmd(c2, pl), FileTokens("2>", stderr), InCmd(c3, pl)) by {
      if stderr.ToFile? { AcceptsPair(InCmd(c2, pl), "2>", stderr.name); }
      if stderr.ToStdout? { AcceptsOne(InCmd(c2, pl), "2>&1", InCmd(c3, pl)); }
    }
    AcceptsThen(InCmd(c, pl), StdinTokens(stdin), InCmd(c1, pl), FileTokens(">", stdout), InCmd(c2, pl));
    AcceptsThen(InCmd(c, pl), StdinTokens(stdin) + FileTokens(">", stdout), InCmd(c2, pl),
                FileTokens("2>", stderr), InCmd(c3, pl));
  }

  lemma AcceptsPair(ps: Parser, a: string, b: string)
    requires Accept(ps, a).Some? && Accept(Accept(ps, a).value, b).Some?
    ensures Accepts(ps, [a, b], Accept(Accept(ps, a).value, b).value)
  {
    var ps' := Accept(ps, a).value;
    AcceptsOne(ps, a, ps');
    AcceptsOne(ps', b, Accept(ps', b).value);
    AcceptsThen(ps, [a], ps', [b], Accept(ps', b).value);
    assert [a] + [b] == [a, b];
  }

  /** The operand as it stands before its operator has been read. */
  function Pending(node: Node): Node {
    if node.Cmd? && node.command.stdout.Piped? then Cmd(node.command.(stdout := Inherited)) else node
  }

  function PendingParser(node: Node, pl: seq<Node>): Parser {
    Parser(if node.Cmd? then InCommand else InChdir, map[], Some(Pending(node)), pl)
  }

  lemma AcceptsCommand(c: Command, pl: seq<Node>)
    requires CommandOk(c)
    ensures Accepts(Parser(InBegin, map[], None, pl), OperandTokens(Cmd(c)), PendingParser(Cmd(c), pl))
  {
    var ps := Parser(InBegin, map[], None, pl);
    var ps1 := Parser(InBegin, c.envVars, None, pl);
    var c2 := Command(c.name, [c.name], None, Inherited, Inherited, c.envVars);
    var c3 := c2.(argv := c.argv);
    var stdout := if c.stdout.Piped? then Inherited else c.stdout;
    AcceptsEnv(c.envVars, pl);
    AcceptsOne(ps1, c.name, InCmd(c2, pl));
    AcceptsThen(ps, EnvTokens(c.envVars), ps1, [c.name], InCmd(c2, pl));
    AcceptsArgs(c2, c.argv[1..], pl);
    assert [c.name] + c.argv[1..] == c.argv;
    AcceptsThen(ps, EnvTokens(c.envVars) + [c.name], InCmd(c2, pl), c.argv[1..], InCmd(c3, pl));
    AcceptsRedirections(c3, c.stdin, stdout, c.stderr, pl);
    AcceptsThen(ps, EnvTokens(c.envVars) + [c.name] + c.argv[1..], InCmd(c3, pl),
                StdinTokens(c.stdin) + FileTokens(">", c.stdout) + FileTokens("2>", c.stderr),
                PendingParser(Cmd(c), pl));
  }

  lemma AcceptsChdir(dir: Option<string>, pl: seq<Node>)
    requires dir != Some("&&")
    ensures Accepts(Parser(InBegin, map[], None, pl), OperandTokens(Chdir(dir)), PendingParser(Chdir(dir), pl))
  {
    var ps := Parser(InBegin, map[], None, pl);
    var ps1 := Parser(InChdir, map[], Some(Chdir(None)), pl);
    assert EnvMatch("cd").None?;
    AcceptsOne(ps, "cd", ps1);
    if dir.Some? {
      AcceptsOne(ps1, dir.value, PendingParser(Chdir(dir), pl));
      AcceptsThen(ps, ["cd"], ps1, [dir.value], PendingParser(Chdir(dir), pl));
    } else {
      assert ["cd"] + [] == ["cd"];
    }
  }

  lemma AcceptsOperand(node: Node, next: Option<Node>, pl: seq<Node>)
    requires OperandOk(node, next)
    ensures Accepts(Parser(InBegin, map[], None, pl), OperandTokens(node), PendingParser(node, pl))
  {
    match node
    case Cmd(c) => AcceptsCommand(c, pl);
    case Chdir(dir) => AcceptsChdir(dir, pl);
  }

  lemma AcceptsOp(node: Node, op: Node, pl: seq<Node>)
    requires OperandOk(node, Some(op)) && IsOp(op)
    ensures Accepts(PendingParser(node, pl), [OpToken(op)], Parser(InBegin, map[], None, pl + [node] + [op]))
  {
    AcceptsOne(PendingParser(node, pl), OpToken(op), Parser(InBegin, map[], None, pl + [node] + [op]));
  }

  /** An even part of the pipeline leaves the parser at the beginning of an operand. */
  lemma {:induction false} AcceptsPairs(p: seq<Node>, n: nat)
    requires Alternates(p) && n <= |p| && n % 2 == 0
    ensures Accepts(START, Tokens(p[..n]), Parser(InBegin, map[], None, p[..n]))
  {
    hide AcceptAll, OperandTokens, OpToken, OperandOk;
    if n == 0 {
      AcceptsNothing(START);
    } else {
      var pl, node, op := p[..n - 2], p[n - 2], p[n - 1];
      var ps := Parser(InBegin, map[], None, pl);
      assert pl + [node] + [op] == p[..n];
      assert p[..n][..n - 1] == pl + [node] && (pl + [node])[..n - 2] == pl;
      AcceptsPairs(p, n - 2);
      AcceptsOperand(node, Some(op), pl);
      AcceptsOp(node, op, pl);
      AcceptsThen(START, Tokens(pl), ps, OperandTokens(node), PendingParser(node, pl));
      AcceptsThen(START, Tokens(pl) + OperandTokens(node), PendingParser(node, pl), [OpToken(op)],
                  Parser(InBegin, map[], None, p[..n]));
    }
  }

  lemma CanonicalTokensParse(p: seq<Node>)
    requires WellFormed(p)
    ensures Parsed(Tokens(p)) == Some(p)
  {
    hide AcceptAll, OperandTokens, Accept, OperandOk;
    var n := |p| - 1;
    assert OperandOk(p[n], NextOf(p, n));
    AcceptsPairs(p, n);
    AcceptsOperand(p[n], None, p[..n]);
    AcceptsThen(START, Tokens(p[..n]),
                Parser(InBegin, map[], None, p[..n]), OperandTokens(p[n]), PendingParser(p[n], p[..n]));
    LastIsWhole(p);
  }

  lemma LastIsWhole(p: seq<Node>)
    requires WellFormed(p)
    ensures var n := |p| - 1; Pending(p[n]) == p[n] && p[..n] + [Pending(p[n])] == p
  {
    assert OperandOk(p[|p| - 1], NextOf(p, |p| - 1));
  }

  /** The parser produces exactly the well-formed pipelines. */
  lemma ParsedIffWellFormed(p: seq<Node>)
    ensures (exists tokens :: Parsed(tokens) == Some(p)) <==> WellFormed(p)
  {
    if tokens :| Parsed(tokens) == Some(p) {
      ParsedIsWellFormed(tokens);
    }
    if WellFormed(p) {
      CanonicalTokensParse(p);
    }
  }
}
