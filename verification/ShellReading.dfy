/** What an accepted token list stands for, in whatever order its parts are written: each operand is
    read off its own tokens, up to the operator that ends it. */
module ShellReading {
  import opened Wrappers
  import opened ShellParse

  // ---- the parts of one operand ----

  /** How many assignments stand in front. */
  function Lead(ts: seq<string>): (n: nat)
    ensures n <= |ts| && (forall i :: 0 <= i < n ==> EnvMatch(ts[i]).Some?)
    ensures n < |ts| ==> EnvMatch(ts[n]).None?
  {
    if ts == [] || EnvMatch(ts[0]).None? then 0 else 1 + Lead(ts[1..])
  }

  /** The last assignment to a name counts. */
  function Assigned(ts: seq<string>, n: nat): map<string, string>
    requires n <= |ts| && forall i :: 0 <= i < n ==> EnvMatch(ts[i]).Some?
  {
    if n == 0 then map[]
    else
      var (name, value) := EnvMatch(ts[n - 1]).value;
      Assigned(ts, n - 1)[name := value]
  }

  /** Place `i` stands behind a redirection sign, which itself does not. The name has place `name`. */
  predicate Behind(ts: seq<string>, name: nat, i: nat)
    requires i <= |ts|
  {
    i >= name + 2 && ts[i - 1] in ["<", ">", "2>"] && !Behind(ts, name, i - 1)
  }

  /** The arguments before place `n`, in order: what is neither an operator nor behind a sign. */
  function Words(ts: seq<string>, name: nat, n: nat): seq<string>
    requires name < n <= |ts|
  {
    if n == name + 1 then []
    else Words(ts, name, n - 1) + if !Behind(ts, name, n - 1) && !IsOperator(ts[n - 1]) then [ts[n - 1]] else []
  }

  /** What stands behind the signs `sign` before place `n`, in order. */
  function Targets(ts: seq<string>, name: nat, sign: string, n: nat): seq<string>
    requires name < n <= |ts|
  {
    if n == name + 1 then []
    else
      Targets(ts, name, sign, n - 1) + if Behind(ts, name, n - 1) && ts[n - 2] == sign then [ts[n - 1]] else []
  }

  /** How often the error output is joined to the output before place `n`. */
  function Joins(ts: seq<string>, name: nat, n: nat): nat
    requires name < n <= |ts|
  {
    if n == name + 1 then 0
    else Joins(ts, name, n - 1) + if !Behind(ts, name, n - 1) && ts[n - 1] == "2>&1" then 1 else 0
  }

  /** No stream is redirected twice. */
  predicate RedirectedOnce(ts: seq<string>, name: nat, n: nat)
    requires name < n <= |ts|
  {
    && |Targets(ts, name, "<", n)| <= 1 && |Targets(ts, name, ">", n)| <= 1
    && |Targets(ts, name, "2>", n)| + Joins(ts, name, n) <= 1
  }

  function FileOrInherited(targets: seq<string>): Output {
    if targets == [] then Inherited else ToFile(targets[0])
  }

  /** The command that the tokens before place `n` stand for. */
  function CommandOf(ts: seq<string>, name: nat, n: nat): Command
    requires name < n <= |ts| && forall i :: 0 <= i < name ==> EnvMatch(ts[i]).Some?
  {
    var inputs := Targets(ts, name, "<", n);
    Command(ts[name], [ts[name]] + Words(ts, name, n), if inputs == [] then None else Some(inputs[0]),
            FileOrInherited(Targets(ts, name, ">", n)),
            if Joins(ts, name, n) > 0 then ToStdout else FileOrInherited(Targets(ts, name, "2>", n)),
            Assigned(ts, name))
  }

  /** The operand ends at place `i`: at a list operator or pipe sign that is not behind a redirection
      sign. A directory change takes everything but an and-operator for its directory. */
  predicate EndsAt(ts: seq<string>, name: nat, i: nat)
    requires name < |ts| && i < |ts|
  {
    i > name && if ts[name] == "cd" then ts[i] == "&&" else !Behind(ts, name, i) && ts[i] in ["|", "&&", "||"]
  }

  /** The first such place from `i` on. */
  function EndFrom(ts: seq<string>, name: nat, i: nat): (e: nat)
    requires name < i <= |ts|
    ensures i <= e <= |ts| && (forall k :: i <= k < e ==> !EndsAt(ts, name, k))
    ensures e < |ts| ==> EndsAt(ts, name, e)
    decreases |ts| - i
  {
    if i == |ts| || EndsAt(ts, name, i) then i else EndFrom(ts, name, i + 1)
  }

  /** The operand before place `e`; None if a stream is redirected twice, the output of a piped command
      is redirected, or a directory change has assignments or a second directory. */
  function OperandAt(ts: seq<string>, name: nat, e: nat): Option<Node>
    requires name < e <= |ts| && forall i :: 0 <= i < name ==> EnvMatch(ts[i]).Some?
  {
    if ts[name] == "cd" then
      if name > 0 || e > 2 then None else Some(Chdir(if e == 2 then Some(ts[1]) else None))
    else
      var c, piped := CommandOf(ts, name, e), e < |ts| && ts[e] == "|";
      if !RedirectedOnce(ts, name, e) || (piped && !c.stdout.Inherited?) then None
      else Some(Cmd(if piped then c.(stdout := Piped) else c))
  }

  function OperatorFor(token: string): Node {
    if token == "|" then Pipe else if token == "&&" then And else Or
  }

  /** The pipeline: operand by operand, each with the operator that ends it. */
  function Reading(ts: seq<string>): Option<seq<Node>>
    decreases |ts|
  {
    var name := Lead(ts);
    if name == |ts| then None
    else
      var e := EndFrom(ts, name, name + 1);
      var operand := OperandAt(ts, name, e);
      if operand.None? then None
      else if e == |ts| then Some([operand.value])
      else
        var rest := Reading(ts[e + 1..]);
        if rest.None? then None else Some([operand.value, OperatorFor(ts[e])] + rest.value)
  }

  // ---- the parser reads so ----

  function Begin(pl: seq<Node>): Parser {
    Parser(InBegin, map[], None, pl)
  }

  lemma {:induction false} AcceptAllConcat(ps: Parser, a: seq<string>, b: seq<string>)
    ensures AcceptAll(ps, a + b) ==
              if AcceptAll(ps, a).None? then None else AcceptAll(AcceptAll(ps, a).value, b)
  {
    if b == [] {
      assert a + b == a;
    } else {
      var n := |b| - 1;
      assert (a + b)[..|a + b| - 1] == a + b[..n];
      AcceptAllConcat(ps, a, b[..n]);
    }
  }

  lemma AcceptAllSnoc(ps: Parser, ts: seq<string>, n: nat)
    requires n < |ts|
    ensures AcceptAll(ps, ts[..n + 1]) ==
              if AcceptAll(ps, ts[..n]).None? then None else Accept(AcceptAll(ps, ts[..n]).value, ts[n])
  {
    hide Accept;
    assert ts[..n + 1][..n] == ts[..n];
  }

  lemma {:induction false} LeadAccepted(ts: seq<string>, n: nat, pl: seq<Node>)
    requires n <= |ts| && forall i :: 0 <= i < n ==> EnvMatch(ts[i]).Some?
    ensures AcceptAll(Begin(pl), ts[..n]) == Some(Parser(InBegin, Assigned(ts, n), None, pl))
  {
    hide EnvMatch;
    if n > 0 {
      LeadAccepted(ts, n - 1, pl);
      assert ts[..n][..n - 1] == ts[..n - 1];
    }
  }

  lemma {:induction false} SomeAssigned(ts: seq<string>, n: nat)
    requires n <= |ts| && forall i :: 0 <= i < n ==> EnvMatch(ts[i]).Some?
    ensures Assigned(ts, n) == map[] <==> n == 0
  {
    if n > 0 {
      var (name, value) := EnvMatch(ts[n - 1]).value;
      assert name in Assigned(ts, n);
    }
  }

  function ModeAt(ts: seq<string>, name: nat, n: nat): Mode
    requires name < n <= |ts|
  {
    if !Behind(ts, name, n) then InCommand
    else if ts[n - 1] == "<" then InStdin
    else if ts[n - 1] == ">" then InStdout
    else InStderr
  }

  function StateAt(ts: seq<string>, name: nat, n: nat, pl: seq<Node>): Option<Parser>
    requires name < n <= |ts| && forall i :: 0 <= i < name ==> EnvMatch(ts[i]).Some?
  {
    if RedirectedOnce(ts, name, n) then Some(Parser(ModeAt(ts, name, n), map[], Some(Cmd(CommandOf(ts, name, n))), pl))
    else None
  }

  /** What one more token adds to the parts of a command. */
  lemma PartsStep(ts: seq<string>, name: nat, n: nat)
    requires name < n < |ts|
    ensures Words(ts, name, n + 1) ==
              Words(ts, name, n) + if !Behind(ts, name, n) && !IsOperator(ts[n]) then [ts[n]] else []
    ensures forall sign :: Targets(ts, name, sign, n + 1) ==
              if Behind(ts, name, n) && ts[n - 1] == sign then Targets(ts, name, sign, n) + [ts[n]]
              else Targets(ts, name, sign, n)
    ensures Joins(ts, name, n + 1) == Joins(ts, name, n) + if !Behind(ts, name, n) && ts[n] == "2>&1" then 1 else 0
    ensures Behind(ts, name, n + 1) <==> !Behind(ts, name, n) && ts[n] in ["<", ">", "2>"]
  {
    hide IsOperator, Behind;
    assert forall sign :: Targets(ts, name, sign, n) + [] == Targets(ts, name, sign, n);
    NextBehind(ts, name, n);
  }

  lemma NextBehind(ts: seq<string>, name: nat, n: nat)
    requires name < n < |ts|
    ensures Behind(ts, name, n + 1) <==> !Behind(ts, name, n) && ts[n] in ["<", ">", "2>"]
  {
  }

  lemma BehindSign(ts: seq<string>, name: nat, n: nat)
    requires n <= |ts| && Behind(ts, name, n)
    ensures n >= name + 2 && ts[n - 1] in ["<", ">", "2>"]
  {
  }

  lemma TargetStep(ts: seq<string>, name: nat, n: nat, pl: seq<Node>)
    requires name < n < |ts| && forall i :: 0 <= i < name ==> EnvMatch(ts[i]).Some?
    requires Behind(ts, name, n)
    ensures StateAt(ts, name, n + 1, pl) ==
              if StateAt(ts, name, n, pl).None? then None else Accept(StateAt(ts, name, n, pl).value, ts[n])
  {
    hide EnvMatch, Assigned, Words, Targets, Joins, Behind, IsOperator, BeginToken, CommandToken, ChdirToken;
    PartsStep(ts, name, n);
    BehindSign(ts, name, n);
    assert Words(ts, name, n) + [] == Words(ts, name, n);
  }

  lemma PlainStep(ts: seq<string>, name: nat, n: nat, pl: seq<Node>)
    requires name < n < |ts| && forall i :: 0 <= i < name ==> EnvMatch(ts[i]).Some?
    requires !Behind(ts, name, n) && ts[n] !in ["|", "&&", "||"]
    ensures StateAt(ts, name, n + 1, pl) ==
              if StateAt(ts, name, n, pl).None? then None
              else CommandToken(StateAt(ts, name, n, pl).value, CommandOf(ts, name, n), ts[n])
  {
    hide EnvMatch, Assigned, Words, Targets, Joins, Behind, Commit;
    PartsStep(ts, name, n);
    var words := Words(ts, name, n);
    assert [ts[name]] + (words + [ts[n]]) == [ts[name]] + words + [ts[n]];
    assert words + [] == words;
  }

  lemma StateStep(ts: seq<string>, name: nat, n: nat, pl: seq<Node>)
    requires name < n < |ts| && forall i :: 0 <= i < name ==> EnvMatch(ts[i]).Some?
    requires ts[name] != "cd" && !EndsAt(ts, name, n)
    ensures StateAt(ts, name, n + 1, pl) ==
              if StateAt(ts, name, n, pl).None? then None else Accept(StateAt(ts, name, n, pl).value, ts[n])
  {
    hide EnvMatch, Assigned, Words, Targets, Joins, Behind, CommandToken, BeginToken, ChdirToken, CommandOf,
      RedirectedOnce;
    if Behind(ts, name, n) {
      TargetStep(ts, name, n, pl);
    } else {
      PlainStep(ts, name, n, pl);
    }
  }

  lemma {:induction false} CommandAccepted(ts: seq<string>, name: nat, n: nat, pl: seq<Node>)
    requires name < n <= |ts| && name == Lead(ts) && ts[name] != "cd"
    requires forall i :: name < i < n ==> !EndsAt(ts, name, i)
    ensures AcceptAll(Begin(pl), ts[..n]) == StateAt(ts, name, n, pl)
  {
    hide EnvMatch, Accept, StateAt, EndsAt;
    assert ts[..n][..n - 1] == ts[..n - 1];
    if n == name + 1 {
      LeadAccepted(ts, name, pl);
      FirstState(ts, name, pl);
    } else {
      CommandAccepted(ts, name, n - 1, pl);
      StateStep(ts, name, n - 1, pl);
    }
  }

  lemma FirstState(ts: seq<string>, name: nat, pl: seq<Node>)
    requires name < |ts| && name == Lead(ts) && ts[name] != "cd"
    ensures Accept(Parser(InBegin, Assigned(ts, name), None, pl), ts[name]) == StateAt(ts, name, name + 1, pl)
  {
    hide EnvMatch, Assigned;
    assert [ts[name]] + [] == [ts[name]];
  }

  lemma {:induction false} ChangeAccepted(ts: seq<string>, name: nat, n: nat, pl: seq<Node>)
    requires name < n <= |ts| && name == Lead(ts) && ts[name] == "cd"
    requires forall i :: name < i < n ==> !EndsAt(ts, name, i)
    ensures AcceptAll(Begin(pl), ts[..n]) ==
              if name > 0 || n > 2 then None
              else Some(Parser(InChdir, map[], Some(Chdir(if n == 2 then Some(ts[1]) else None)), pl))
  {
    hide EnvMatch;
    assert ts[..n][..n - 1] == ts[..n - 1];
    if n == name + 1 {
      LeadAccepted(ts, name, pl);
      SomeAssigned(ts, name);
    } else {
      ChangeAccepted(ts, name, n - 1, pl);
      assert !EndsAt(ts, name, n - 1);
    }
  }

  lemma CommandEnds(ts: seq<string>, name: nat, e: nat, pl: seq<Node>)
    requires name < e < |ts| && name == Lead(ts) && ts[name] != "cd" && EndsAt(ts, name, e)
    ensures var state, operand := StateAt(ts, name, e, pl), OperandAt(ts, name, e);
      (if state.None? then None else Accept(state.value, ts[e])) ==
        if operand.None? then None else Some(Begin(pl + [operand.value] + [OperatorFor(ts[e])]))
  {
    hide EnvMatch, Words, Targets, Joins, Assigned, Behind, BeginToken, ChdirToken, RedirectedOnce, IsOperator, Lead;
  }

  lemma ChangeEnds(ts: seq<string>, name: nat, e: nat, pl: seq<Node>)
    requires name < e < |ts| && name == Lead(ts) && ts[name] == "cd"
    requires forall i :: name < i < e ==> !EndsAt(ts, name, i)
    requires EndsAt(ts, name, e)
    ensures var operand := OperandAt(ts, name, e);
      AcceptAll(Begin(pl), ts[..e + 1]) ==
        if operand.None? then None else Some(Begin(pl + [operand.value] + [OperatorFor(ts[e])]))
  {
    hide EnvMatch;
    ChangeAccepted(ts, name, e, pl);
    assert ts[..e + 1][..e] == ts[..e];
  }

  /** The first operand with the operator behind it. */
  lemma OperandAccepted(ts: seq<string>, e: nat, pl: seq<Node>)
    requires Lead(ts) < |ts| && e == EndFrom(ts, Lead(ts), Lead(ts) + 1) < |ts|
    ensures var operand := OperandAt(ts, Lead(ts), e);
      AcceptAll(Begin(pl), ts[..e + 1]) ==
        if operand.None? then None else Some(Begin(pl + [operand.value] + [OperatorFor(ts[e])]))
  {
    hide EnvMatch, OperandAt, StateAt, Accept, AcceptAll, EndsAt, OperatorFor, Begin, Lead;
    var name := Lead(ts);
    if ts[name] == "cd" {
      ChangeEnds(ts, name, e, pl);
    } else {
      CommandAccepted(ts, name, e, pl);
      CommandEnds(ts, name, e, pl);
      AcceptAllSnoc(Begin(pl), ts, e);
    }
  }

  lemma LastOperand(ts: seq<string>, name: nat, pl: seq<Node>)
    requires name < |ts| && name == Lead(ts)
    ensures ts[name] != "cd" ==>
              Finish(StateAt(ts, name, |ts|, pl)) ==
                if OperandAt(ts, name, |ts|).None? then None else Some(pl + [OperandAt(ts, name, |ts|).value])
  {
    hide EnvMatch, CommandOf, RedirectedOnce, ModeAt, Lead;
  }

  lemma LastChange(ts: seq<string>, name: nat, pl: seq<Node>)
    requires name < |ts| && name == Lead(ts) && ts[name] == "cd"
    requires forall i :: name < i < |ts| ==> !EndsAt(ts, name, i)
    ensures Finish(AcceptAll(Begin(pl), ts[..|ts|])) ==
              if OperandAt(ts, name, |ts|).None? then None else Some(pl + [OperandAt(ts, name, |ts|).value])
  {
    hide EnvMatch, AcceptAll, EndsAt, Begin, Lead;
    ChangeAccepted(ts, name, |ts|, pl);
  }

  /** The only operand left. */
  lemma LastOperandAccepted(ts: seq<string>, pl: seq<Node>)
    requires Lead(ts) < |ts| && EndFrom(ts, Lead(ts), Lead(ts) + 1) == |ts|
    ensures var operand := OperandAt(ts, Lead(ts), |ts|);
      Finish(AcceptAll(Begin(pl), ts)) == if operand.None? then None else Some(pl + [operand.value])
  {
    hide EnvMatch, EndsAt, AcceptAll, Begin, StateAt, Lead, OperandAt, Finish;
    var name := Lead(ts);
    assert ts[..|ts|] == ts;
    if ts[name] == "cd" {
      LastChange(ts, name, pl);
    } else {
      CommandAccepted(ts, name, |ts|, pl);
      LastOperand(ts, name, pl);
    }
  }

  /** What is returned once all tokens are read. */
  function Finish(ps: Option<Parser>): Option<seq<Node>> {
    if ps.None? || ps.value.current.None? then None else Some(ps.value.pipeline + [ps.value.current.value])
  }

  lemma {:induction false} ReadingAccepted(ts: seq<string>, pl: seq<Node>)
    ensures Finish(AcceptAll(Begin(pl), ts)) == if Reading(ts).None? then None else Some(pl + Reading(ts).value)
    decreases |ts|
  {
    hide EnvMatch, AcceptAll, OperandAt, Finish, OperatorFor, Begin;
    var name := Lead(ts);
    if name == |ts| {
      OnlyAssignments(ts, pl);
    } else {
      var e := EndFrom(ts, name, name + 1);
      var operand := OperandAt(ts, name, e);
      if e == |ts| {
        LastOperandAccepted(ts, pl);
      } else {
        OperandAccepted(ts, e, pl);
        var tail := ts[e + 1..];
        assert ts == ts[..e + 1] + tail;
        AcceptAllConcat(Begin(pl), ts[..e + 1], tail);
        NothingReturned();
        if operand.Some? {
          ReadingAccepted(tail, pl + [operand.value] + [OperatorFor(ts[e])]);
          if Reading(tail).Some? { JoinParts(pl, operand.value, OperatorFor(ts[e]), Reading(tail).value); }
        }
      }
    }
  }

  lemma OnlyAssignments(ts: seq<string>, pl: seq<Node>)
    requires Lead(ts) == |ts|
    ensures Finish(AcceptAll(Begin(pl), ts)).None?
  {
    LeadAccepted(ts, |ts|, pl);
    assert ts[..|ts|] == ts;
  }

  lemma NothingReturned()
    ensures Finish(None).None?
  {
  }

  lemma JoinParts(pl: seq<Node>, x: Node, op: Node, rest: seq<Node>)
    ensures pl + [x] + [op] + rest == pl + ([x, op] + rest)
  {
  }

  /** The parser accepts exactly the token lists that can be read so, and returns that pipeline. */
  lemma ParsedIsReading(tokens: seq<string>)
    ensures Parsed(tokens) == Reading(tokens)
  {
    hide EnvMatch, AcceptAll, Reading;
    ReadingAccepted(tokens, []);
    assert Reading(tokens).Some? ==> [] + Reading(tokens).value == Reading(tokens).value;
  }
}
