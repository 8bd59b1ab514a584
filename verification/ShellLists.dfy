/** And/or lists by themselves: leaving a list at the first short circuit, as the interpreter does,
    against section 2.9.3 of the POSIX.1-2017 Shell Command Language. Group `i` has the status
    `codes[i]` if it is run, and operator `i` stands behind it. */
module ShellLists {
  datatype ListOp = AndIf | OrIf

  ghost predicate IsList(ops: seq<ListOp>, codes: seq<int>) {
    |codes| == |ops| + 1
  }

  predicate CutsShort(op: ListOp, status: int) {
    (op.AndIf? && status != 0) || (op.OrIf? && status == 0)
  }

  /** The groups the interpreter runs from group `i` on, and its result: it leaves the list at the
      first short circuit. */
  function RunList(ops: seq<ListOp>, codes: seq<int>, i: nat): (r: (seq<nat>, int))
    requires |codes| == |ops| + 1 && i <= |ops|
    decreases |ops| - i
  {
    if i == |ops| || CutsShort(ops[i], codes[i]) then ([i], codes[i])
    else
      var rest := RunList(ops, codes, i + 1);
      ([i] + rest.0, rest.1)
  }

  /** Section 2.9.3: the operators associate to the left with equal precedence, so a group that is
      passed over leaves the status as it is for the next operator. */
  function PosixRest(ops: seq<ListOp>, codes: seq<int>, i: nat, status: int): (r: (seq<nat>, int))
    requires |codes| == |ops| + 1 && i <= |ops|
    ensures forall g :: g in r.0 ==> i < g <= |ops|
    decreases |ops| - i
  {
    if i == |ops| then ([], status)
    else if CutsShort(ops[i], status) then PosixRest(ops, codes, i + 1, status)
    else
      var rest := PosixRest(ops, codes, i + 1, codes[i + 1]);
      ([i + 1] + rest.0, rest.1)
  }

  function PosixList(ops: seq<ListOp>, codes: seq<int>): (seq<nat>, int)
    requires |codes| == |ops| + 1
  {
    var rest := PosixRest(ops, codes, 0, codes[0]);
    ([0] + rest.0, rest.1)
  }

  /** The operator at which the interpreter leaves the list, or the end of the list. */
  function CutAt(ops: seq<ListOp>, codes: seq<int>, i: nat): (k: nat)
    requires |codes| == |ops| + 1 && i <= |ops|
    ensures i <= k <= |ops|
    decreases |ops| - i
  {
    if i == |ops| || CutsShort(ops[i], codes[i]) then i else CutAt(ops, codes, i + 1)
  }

  ghost predicate AllLike(ops: seq<ListOp>, i: nat) {
    forall j, k :: i <= j < |ops| && i <= k < |ops| ==> ops[j] == ops[k]
  }

  lemma {:induction false} SkipsToTheEnd(ops: seq<ListOp>, codes: seq<int>, i: nat, status: int)
    requires IsList(ops, codes) && i <= |ops| && AllLike(ops, i)
    requires i < |ops| ==> CutsShort(ops[i], status)
    ensures PosixRest(ops, codes, i, status) == ([], status)
    decreases |ops| - i
  {
    if i < |ops| {
      SkipsToTheEnd(ops, codes, i + 1, status);
    }
  }

  lemma StillMixed(ops: seq<ListOp>, i: nat)
    requires i + 1 < |ops| && ops[i] == ops[i + 1] && !AllLike(ops, i)
    ensures !AllLike(ops, i + 1)
  {
    var j, k :| i <= j < |ops| && i <= k < |ops| && ops[j] != ops[k];
    assert ops[if j == i then i + 1 else j] != ops[if k == i then i + 1 else k];
  }

  /** A later operator of the other kind makes the standard run one more group. */
  lemma {:induction false} SkipsToTheOtherKind(ops: seq<ListOp>, codes: seq<int>, i: nat, status: int)
    requires IsList(ops, codes) && i < |ops| && CutsShort(ops[i], status) && !AllLike(ops, i)
    ensures PosixRest(ops, codes, i, status).0 != []
    decreases |ops| - i
  {
    if CutsShort(ops[i + 1], status) {
      StillMixed(ops, i);
      SkipsToTheOtherKind(ops, codes, i + 1, status);
    }
  }

  /** So the standard goes on behind the short circuit when there is such an operator. */
  lemma {:induction false} GoesOn(ops: seq<ListOp>, codes: seq<int>, i: nat)
    requires IsList(ops, codes) && i <= |ops| && !AllLike(ops, CutAt(ops, codes, i))
    ensures exists g :: g in PosixRest(ops, codes, i, codes[i]).0 && g > CutAt(ops, codes, i)
    decreases |ops| - i
  {
    if CutsShort(ops[i], codes[i]) {
      SkipsToTheOtherKind(ops, codes, i, codes[i]);
      assert PosixRest(ops, codes, i, codes[i]).0[0] in PosixRest(ops, codes, i, codes[i]).0;
    } else {
      GoesOn(ops, codes, i + 1);
      var rest := PosixRest(ops, codes, i + 1, codes[i + 1]).0;
      var g :| g in rest && g > CutAt(ops, codes, i + 1);
      assert g in [i + 1] + rest;
    }
  }

  /** Behind a group that is run with status 0 an and-operator lets the next one run. */
  lemma {:induction false} NextIsRun(ops: seq<ListOp>, codes: seq<int>, i: nat, status: int, g: nat)
    requires IsList(ops, codes) && i <= |ops| && g in PosixRest(ops, codes, i, status).0
    requires g < |ops| && ops[g].AndIf? && codes[g] == 0
    ensures g + 1 in PosixRest(ops, codes, i, status).0
    decreases |ops| - i
  {
    if CutsShort(ops[i], status) {
      NextIsRun(ops, codes, i + 1, status, g);
    } else if g == i + 1 {
      assert ([g] + PosixRest(ops, codes, g, 0).0)[1..][0] == g + 1;
    } else {
      NextIsRun(ops, codes, i + 1, codes[i + 1], g);
    }
  }

  lemma {:induction false} AgreesFrom(ops: seq<ListOp>, codes: seq<int>, i: nat)
    requires IsList(ops, codes) && i <= |ops|
    ensures RunList(ops, codes, i) == (var rest := PosixRest(ops, codes, i, codes[i]); ([i] + rest.0, rest.1))
       <==> AllLike(ops, CutAt(ops, codes, i))
    decreases |ops| - i
  {
    assert [i] + [] == [i];
    if i < |ops| {
      if CutsShort(ops[i], codes[i]) {
        if AllLike(ops, i) {
          SkipsToTheEnd(ops, codes, i, codes[i]);
        } else {
          SkipsToTheOtherKind(ops, codes, i, codes[i]);
          assert |[i] + PosixRest(ops, codes, i, codes[i]).0| > 1;
        }
      } else {
        AgreesFrom(ops, codes, i + 1);
        var rest := PosixRest(ops, codes, i, codes[i]);
        var run := RunList(ops, codes, i + 1);
        assert ([i] + run.0)[1..] == run.0 && ([i] + rest.0)[1..] == rest.0;
      }
    }
  }

  /** For given statuses the interpreter does what the standard says, in the groups it runs and in
      its result, exactly when all operators from the short circuit on are of one kind. */
  lemma MatchesPosixIff(ops: seq<ListOp>, codes: seq<int>)
    requires IsList(ops, codes)
    ensures RunList(ops, codes, 0) == PosixList(ops, codes) <==> AllLike(ops, CutAt(ops, codes, 0))
  {
    AgreesFrom(ops, codes, 0);
  }

  /** The groups that are run are those up to the short circuit, and the result is the status of
      the last of them. */
  lemma {:induction false} RunsUpToTheCut(ops: seq<ListOp>, codes: seq<int>, i: nat)
    requires IsList(ops, codes) && i <= |ops|
    ensures var cut := CutAt(ops, codes, i); var (groups, status) := RunList(ops, codes, i);
      && status == codes[cut]
      && |groups| == cut + 1 - i && forall k :: 0 <= k < |groups| ==> groups[k] == i + k
    decreases |ops| - i
  {
    if i < |ops| && !CutsShort(ops[i], codes[i]) { RunsUpToTheCut(ops, codes, i + 1); }
  }
}
