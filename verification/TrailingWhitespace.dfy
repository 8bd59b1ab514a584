/** What the removal of trailing-whitespace changes does to the lines of a chunk, stated on values:
    a context line is one line that both the source view and the target view contain. */
module TrailingWhitespace {
  import opened Wrappers
  import opened PatchText

  predicate IsBlank(c: char) { c == ' ' || c == '\t' }

  /** All but the last blank, and the last blank, of a line that ends in one. */
  function TrailingBlank(s: string): Option<(string, string)> {
    var t := StripNewline(s);
    if t != "" && IsBlank(t[|t| - 1]) && '\n' !in t then Some((t[..|t| - 1], [t[|t| - 1]])) else None
  }

  predicate InSrc(kind: Kind) { kind.Src? || kind.Both? }

  predicate InDst(kind: Kind) { kind.Dst? || kind.Both? }

  /** The places of the lines the source view shows. */
  function SrcAt(lines: seq<Line>): (r: seq<nat>)
    ensures forall i :: 0 <= i < |r| ==> r[i] < |lines| && InSrc(lines[r[i]].kind)
    ensures forall i, j :: 0 <= i < j < |r| ==> r[i] < r[j]
  {
    if lines == [] then []
    else
      var n := |lines| - 1;
      SrcAt(lines[..n]) + if InSrc(lines[n].kind) then [n] else []
  }

  function DstAt(lines: seq<Line>): (r: seq<nat>)
    ensures forall i :: 0 <= i < |r| ==> r[i] < |lines| && InDst(lines[r[i]].kind)
    ensures forall i, j :: 0 <= i < j < |r| ==> r[i] < r[j]
  {
    if lines == [] then []
    else
      var n := |lines| - 1;
      DstAt(lines[..n]) + if InDst(lines[n].kind) then [n] else []
  }

  lemma ViewsSnoc(lines: seq<Line>, k: nat)
    requires k <= |lines|
    ensures SrcAt(lines[..0]) == [] && DstAt(lines[..0]) == []
    ensures k < |lines| ==>
              && SrcAt(lines[..k + 1]) == SrcAt(lines[..k]) + (if InSrc(lines[k].kind) then [k] else [])
              && DstAt(lines[..k + 1]) == DstAt(lines[..k]) + (if InDst(lines[k].kind) then [k] else [])
  {
    if k < |lines| { assert lines[..k + 1][..k] == lines[..k]; }
  }

  /** The counts in a chunk header are the lengths of the two views. */
  lemma {:induction false} ViewLengths(lines: seq<Line>)
    ensures |SrcAt(lines)| == SrcLen(lines) && |DstAt(lines)| == DstLen(lines)
  {
    if lines != [] { ViewLengths(lines[..|lines| - 1]); }
  }

  ghost predicate SameKinds(a: seq<Line>, b: seq<Line>) {
    |a| == |b| && forall k :: 0 <= k < |a| ==> a[k].kind == b[k].kind
  }

  lemma {:induction false} ViewsOfSameKinds(a: seq<Line>, b: seq<Line>)
    requires SameKinds(a, b)
    ensures SrcAt(a) == SrcAt(b) && DstAt(a) == DstAt(b)
  {
    if a != [] { ViewsOfSameKinds(a[..|a| - 1], b[..|b| - 1]); }
  }

  function Fixed(source: string, target: string): string {
    var m := TrailingBlank(source);
    if m.Some? && m.value.0 == target then target + m.value.1 else target
  }

  /** After the first `n` pairs of source and target lines have been compared. */
  function FixUpTo(lines: seq<Line>, n: nat): (r: seq<Line>)
    requires n <= |SrcAt(lines)| && n <= |DstAt(lines)|
    ensures SameKinds(r, lines)
  {
    if n == 0 then lines
    else
      var before := FixUpTo(lines, n - 1);
      var s, d := SrcAt(lines)[n - 1], DstAt(lines)[n - 1];
      before[d := before[d].(text := Fixed(before[s].text, before[d].text))]
  }

  predicate ShortTarget(lines: seq<Line>) {
    |DstAt(lines)| < |SrcAt(lines)|
  }

  function Pairs(lines: seq<Line>): nat {
    if ShortTarget(lines) then |DstAt(lines)| else |SrcAt(lines)|
  }

  /** A chunk after its turn; a target that is too short ends the turn early. */
  function FixLines(lines: seq<Line>): seq<Line> {
    FixUpTo(lines, Pairs(lines))
  }

  function FixChunk(c: Chunk): Chunk {
    c.(lines := FixLines(c.lines))
  }

  /** No chunk before this one, in reading order, has a target that is too short. */
  ghost predicate Reached(patches: seq<Patch>, i: nat, j: nat) {
    forall a, b :: 0 <= a < |patches| && 0 <= b < |patches[a].chunks| && (a < i || (a == i && b < j)) ==>
      !ShortTarget(patches[a].chunks[b].lines)
  }

  /** The whole patch set: the first target that is too short is the last chunk that is touched. */
  ghost function Cleaned(patches: seq<Patch>): seq<Patch> {
    seq(|patches|, i requires 0 <= i < |patches| =>
      patches[i].(chunks := seq(|patches[i].chunks|, j requires 0 <= j < |patches[i].chunks| =>
        if Reached(patches, i, j) then FixChunk(patches[i].chunks[j]) else patches[i].chunks[j])))
  }

  predicate Before(a: nat, b: nat, i: nat, j: nat) {
    a < i || (a == i && b < j)
  }

  /** The chunks before this one have been cleaned. */
  ghost function CleanedTo(patches: seq<Patch>, i: nat, j: nat): seq<Patch> {
    seq(|patches|, a requires 0 <= a < |patches| =>
      patches[a].(chunks := seq(|patches[a].chunks|, b requires 0 <= b < |patches[a].chunks| =>
        if Before(a, b, i, j) then FixChunk(patches[a].chunks[b]) else patches[a].chunks[b])))
  }

  lemma NothingCleaned(patches: seq<Patch>)
    ensures CleanedTo(patches, 0, 0) == patches
  {
    forall a | 0 <= a < |patches| ensures CleanedTo(patches, 0, 0)[a] == patches[a] {
      assert CleanedTo(patches, 0, 0)[a].chunks == patches[a].chunks;
    }
  }

  lemma CleanOne(patches: seq<Patch>, i: nat, j: nat)
    requires i < |patches| && j < |patches[i].chunks|
    ensures var now := CleanedTo(patches, i, j);
      && |now| == |patches| && |now[i].chunks| == |patches[i].chunks|
      && now[i].chunks[j] == patches[i].chunks[j]
      && now[i := now[i].(chunks := now[i].chunks[j := FixChunk(now[i].chunks[j])])] == CleanedTo(patches, i, j + 1)
  {
    var now, then' := CleanedTo(patches, i, j), CleanedTo(patches, i, j + 1);
    var p := now[i].(chunks := now[i].chunks[j := FixChunk(now[i].chunks[j])]);
    forall a | 0 <= a < |patches| ensures now[i := p][a] == then'[a] {
      assert now[i := p][a].chunks == then'[a].chunks;
    }
  }

  lemma NextPatch(patches: seq<Patch>, i: nat)
    requires i < |patches|
    ensures CleanedTo(patches, i, |patches[i].chunks|) == CleanedTo(patches, i + 1, 0)
    ensures Reached(patches, i, |patches[i].chunks|) ==> Reached(patches, i + 1, 0)
  {
    var now, then' := CleanedTo(patches, i, |patches[i].chunks|), CleanedTo(patches, i + 1, 0);
    forall a | 0 <= a < |patches| ensures now[a] == then'[a] {
      assert now[a].chunks == then'[a].chunks;
    }
  }

  /** Stopping behind the first chunk with a short target, or at the end. */
  lemma CleaningOver(patches: seq<Patch>, i: nat, j: nat)
    requires Reached(patches, i, j)
    requires (i == |patches| && j == 0) ||
             (i < |patches| && j < |patches[i].chunks| && ShortTarget(patches[i].chunks[j].lines))
    ensures CleanedTo(patches, i, if i == |patches| then 0 else j + 1) == Cleaned(patches)
  {
    var now := CleanedTo(patches, i, if i == |patches| then 0 else j + 1);
    forall a | 0 <= a < |patches| ensures now[a] == Cleaned(patches)[a] {
      forall b | 0 <= b < |patches[a].chunks| ensures now[a].chunks[b] == Cleaned(patches)[a].chunks[b] {
        if Before(a, b, i, j) || (a == i && b == j) {
          assert Reached(patches, a, b);
        } else {
          assert !Reached(patches, a, b);
        }
      }
      assert now[a].chunks == Cleaned(patches)[a].chunks;
    }
  }

  // ---- properties ----

  lemma OnePair(lines: seq<Line>, i: nat, k: nat)
    requires i < |SrcAt(lines)| && i < |DstAt(lines)| && k < |lines|
    ensures var s, d := SrcAt(lines)[i], DstAt(lines)[i]; var before := FixUpTo(lines, i);
      FixUpTo(lines, i + 1)[k] ==
          if k == d then before[d].(text := Fixed(before[s].text, before[d].text)) else before[k]
  {
  }

  lemma {:induction false} LaterPairsLeaveIt(lines: seq<Line>, m: nat, n: nat, k: nat)
    requires m <= n <= |SrcAt(lines)| && n <= |DstAt(lines)| && k < |lines|
    requires forall i :: m <= i < n ==> DstAt(lines)[i] != k
    ensures FixUpTo(lines, n)[k] == FixUpTo(lines, m)[k]
  {
    hide SrcAt, DstAt, FixUpTo, Fixed;
    if m < n {
      LaterPairsLeaveIt(lines, m, n - 1, k);
      OnePair(lines, n - 1, k);
    }
  }

  lemma NothingFixed(lines: seq<Line>)
    ensures FixUpTo(lines, 0) == lines
  {
  }

  /** The exact effect: the target line of pair `i` is compared, as it was at first, with the source
      line as the earlier pairs have left it. */
  lemma PairEffect(lines: seq<Line>, n: nat, i: nat)
    requires i < n <= |SrcAt(lines)| && n <= |DstAt(lines)|
    ensures var s, d := SrcAt(lines)[i], DstAt(lines)[i];
      FixUpTo(lines, n)[d].text == Fixed(FixUpTo(lines, i)[s].text, lines[d].text)
  {
    hide SrcAt, DstAt, Fixed, FixUpTo;
    var d := DstAt(lines)[i];
    LaterPairsLeaveIt(lines, 0, i, d);
    LaterPairsLeaveIt(lines, i + 1, n, d);
    OnePair(lines, i, d);
    NothingFixed(lines);
  }

  /** What a target text becomes beside a source text: the blank or tab that the source has more, its
      newline not counting, is put back; any other target stays. */
  ghost predicate Restores(source: string, target: string, result: string) {
    if '\n' !in target && source in [target + " ", target + " \n"] then result == target + " "
    else if '\n' !in target && source in [target + "\t", target + "\t\n"] then result == target + "\t"
    else result == target
  }

  lemma TrailingBlankIs(s: string)
    requires TrailingBlank(s).Some?
    ensures var (head, blank) := TrailingBlank(s).value;
      '\n' !in head && blank in [" ", "\t"] && s in [head + blank, head + blank + "\n"]
  {
    var t := StripNewline(s);
    assert t == t[..|t| - 1] + [t[|t| - 1]];
    assert s == t || s == t + "\n";
  }

  lemma FixedRestores(source: string, target: string)
    ensures Restores(source, target, Fixed(source, target))
  {
    hide TrailingBlank;
    if TrailingBlank(source).Some? { TrailingBlankIs(source); }
    if '\n' !in target {
      BlankTaken(target, " ");
      BlankTaken(target, "\t");
    }
    var m := TrailingBlank(source);
    if m.Some? && m.value.0 == target {
      assert source[|target|] == m.value.1[0];
      assert target + " \n" == target + " " + "\n" && target + "\t\n" == target + "\t" + "\n";
    } else {
      assert target + " \n" == target + " " + "\n" && target + "\t\n" == target + "\t" + "\n";
    }
  }

  lemma BlankTaken(target: string, blank: string)
    requires '\n' !in target && blank in [" ", "\t"]
    ensures Fixed(target + blank, target) == Fixed(target + blank + "\n", target) == target + blank
  {
    var s := target + blank;
    assert StripNewline(s) == s && s[..|s| - 1] == target && [s[|s| - 1]] == blank;
    assert StripNewline(s + "\n") == s;
  }

  /** The effect of pair `i`: its target line gets back what its source line, as the earlier pairs have
      left it, has more; otherwise it stays as it was at first. */
  lemma PairRestores(lines: seq<Line>, n: nat, i: nat)
    requires i < n <= |SrcAt(lines)| && n <= |DstAt(lines)|
    ensures var s, d := SrcAt(lines)[i], DstAt(lines)[i];
      Restores(FixUpTo(lines, i)[s].text, lines[d].text, FixUpTo(lines, n)[d].text)
  {
    hide SrcAt, DstAt, Fixed, FixUpTo, Restores;
    PairEffect(lines, n, i);
    FixedRestores(FixUpTo(lines, i)[SrcAt(lines)[i]].text, lines[DstAt(lines)[i]].text);
  }

  /** The views show exactly the lines of their kinds, in order. */
  lemma {:induction false} ViewsExact(lines: seq<Line>, k: nat)
    requires k < |lines|
    ensures k in SrcAt(lines) <==> lines[k].kind == Src || lines[k].kind == Both
    ensures k in DstAt(lines) <==> lines[k].kind == Dst || lines[k].kind == Both
  {
    var n := |lines| - 1;
    if k < n {
      ViewsExact(lines[..n], k);
      assert SrcAt(lines)[..|SrcAt(lines[..n])|] == SrcAt(lines[..n]);
      assert DstAt(lines)[..|DstAt(lines[..n])|] == DstAt(lines[..n]);
    }
  }

  /** Count, order and kinds of the lines stay; only target lines change, each by at most one blank
      at its end. */
  lemma AtMostOneBlank(lines: seq<Line>, k: nat)
    requires k < |lines|
    ensures SameKinds(FixLines(lines), lines)
    ensures var text, text' := lines[k].text, FixLines(lines)[k].text;
      || text' == text
      || (InDst(lines[k].kind) && (text' == text + " " || text' == text + "\t"))
  {
    hide SrcAt, DstAt, FixUpTo;
    var n := Pairs(lines);
    NothingFixed(lines);
    if i :| 0 <= i < n && DstAt(lines)[i] == k {
      PairEffect(lines, n, i);
    } else {
      LaterPairsLeaveIt(lines, 0, n, k);
    }
  }

  /** A context line that is paired with itself never changes. */
  lemma SelfPairedUnchanged(lines: seq<Line>, i: nat)
    requires i < Pairs(lines) && SrcAt(lines)[i] == DstAt(lines)[i]
    ensures FixLines(lines)[DstAt(lines)[i]] == lines[DstAt(lines)[i]]
  {
    hide SrcAt, DstAt, Fixed, FixUpTo;
    var n, d := Pairs(lines), DstAt(lines)[i];
    PairEffect(lines, n, i);
    LaterPairsLeaveIt(lines, 0, i, d);
    NothingFixed(lines);
    NothingFromItself(lines[d].text);
  }

  /** A line is changed by at most one pair, so at any time it is as at first or as at the end. */
  lemma FirstOrFinal(lines: seq<Line>, i: nat, n: nat, k: nat)
    requires i <= n <= |SrcAt(lines)| && n <= |DstAt(lines)| && k < |lines|
    ensures FixUpTo(lines, i)[k] in {lines[k], FixUpTo(lines, n)[k]}
  {
    hide SrcAt, DstAt, Fixed, FixUpTo;
    NothingFixed(lines);
    if j :| 0 <= j < i && DstAt(lines)[j] == k {
      LaterPairsLeaveIt(lines, i, n, k);
    } else {
      LaterPairsLeaveIt(lines, 0, i, k);
    }
  }

  ghost predicate SourceViewKept(before: seq<Line>, after: seq<Line>) {
    |after| == |before| && forall k :: 0 <= k < |before| && InSrc(before[k].kind) ==> after[k] == before[k]
  }

  /** The source line of pair `i` gives its target line nothing to take over. */
  predicate NothingToTake(lines: seq<Line>, i: nat)
    requires i < |SrcAt(lines)| && i < |DstAt(lines)|
  {
    var target := lines[DstAt(lines)[i]].text;
    Fixed(lines[SrcAt(lines)[i]].text, target) == target
  }

  /** No context line is paired with a source line that is the same but for a blank at its end. */
  predicate NothingLeaks(lines: seq<Line>) {
    forall i :: 0 <= i < Pairs(lines) && lines[DstAt(lines)[i]].kind.Both? ==> NothingToTake(lines, i)
  }

  lemma {:induction false} NothingTaken(lines: seq<Line>, n: nat)
    requires n <= |SrcAt(lines)| && n <= |DstAt(lines)|
    requires forall i :: 0 <= i < n && lines[DstAt(lines)[i]].kind.Both? ==> NothingToTake(lines, i)
    ensures SourceViewKept(lines, FixUpTo(lines, n))
  {
    hide SrcAt, DstAt, Fixed, FixUpTo;
    if n == 0 {
      NothingFixed(lines);
    } else {
      NothingTaken(lines, n - 1);
      forall k | 0 <= k < |lines| && InSrc(lines[k].kind) ensures FixUpTo(lines, n)[k] == lines[k] {
        OnePair(lines, n - 1, k);
      }
    }
  }

  /** The source view stays as it was exactly when no context line is paired with a source line
      that ends in a blank and equals it otherwise. */
  lemma SourceViewUnchangedIff(lines: seq<Line>)
    ensures SourceViewKept(lines, FixLines(lines)) <==> NothingLeaks(lines)
  {
    hide SrcAt, DstAt, Fixed, FixUpTo;
    var n := Pairs(lines);
    if SourceViewKept(lines, FixUpTo(lines, n)) {
      forall i | 0 <= i < n && lines[DstAt(lines)[i]].kind.Both? ensures NothingToTake(lines, i) {
        PairEffect(lines, n, i);
        FirstOrFinal(lines, i, n, SrcAt(lines)[i]);
      }
    }
    if NothingLeaks(lines) {
      NothingTaken(lines, n);
    }
  }

  /** In particular when no context line is paired with another source line. */
  lemma SourceViewUnchanged(lines: seq<Line>)
    requires forall i :: 0 <= i < Pairs(lines) && lines[DstAt(lines)[i]].kind.Both? ==>
               SrcAt(lines)[i] == DstAt(lines)[i]
    ensures SourceViewKept(lines, FixLines(lines))
  {
    hide SrcAt, DstAt, Fixed, FixUpTo;
    forall i | 0 <= i < Pairs(lines) && lines[DstAt(lines)[i]].kind.Both? ensures NothingToTake(lines, i) {
      NothingFromItself(lines[SrcAt(lines)[i]].text);
    }
    SourceViewUnchangedIff(lines);
  }

  lemma NothingFromItself(s: string)
    ensures Fixed(s, s) == s
  {
    var t := StripNewline(s);
    assert |t| <= |s|;
  }

  lemma TwoLineViews(x: Line, y: Line)
    requires x.kind.Src? && y.kind.Both?
    ensures SrcAt([x, y]) == [0, 1] && DstAt([x, y]) == [1]
  {
    assert [x, y][..1] == [x] && [x][..0] == [];
    assert SrcAt([x]) == SrcAt([]) + [0] && DstAt([x]) == DstAt([]) + [];
    assert SrcAt([x, y]) == SrcAt([x]) + [1] && DstAt([x, y]) == DstAt([x]) + [1];
  }

  /** A chunk that fails the condition: here the context line takes over the blank of the removed
      line above it, and so the source view changes. */
  lemma SourceViewCanChange()
    ensures FixLines([Line(Src, "x "), Line(Both, "x")])[1] == Line(Both, "x ")
  {
    hide SrcAt, DstAt;
    var lines := [Line(Src, "x "), Line(Both, "x")];
    TwoLineViews(lines[0], lines[1]);
    assert Fixed("x ", "x") == "x " by {
      assert StripNewline("x ") == "x " && "x "[..1] == "x" && "x" + [' '] == "x ";
    }
    PairEffect(lines, 1, 0);
  }

  /** The result has the same patches and chunks at the same positions. */
  lemma CleanedKeepsShape(patches: seq<Patch>, i: nat, j: nat)
    requires i < |patches| && j < |patches[i].chunks|
    ensures var p := Cleaned(patches)[i];
      && |Cleaned(patches)| == |patches|
      && p.src == patches[i].src && p.dst == patches[i].dst && |p.chunks| == |patches[i].chunks|
      && p.chunks[j].srcPos == patches[i].chunks[j].srcPos && p.chunks[j].dstPos == patches[i].chunks[j].dstPos
      && SameKinds(p.chunks[j].lines, patches[i].chunks[j].lines)
  {
  }

  /** A line is left alone where the early return has kept its chunk from being reached; elsewhere a
      target line grows by at most one blank and any other line stays. */
  lemma CleanedAtMostOneBlank(patches: seq<Patch>, i: nat, j: nat, k: nat)
    requires i < |patches| && j < |patches[i].chunks| && k < |patches[i].chunks[j].lines|
    ensures var line, line' := patches[i].chunks[j].lines[k], Cleaned(patches)[i].chunks[j].lines[k];
      || line' == line
      || (&& Reached(patches, i, j) && InDst(line.kind) && line'.kind == line.kind
          && (line'.text == line.text + " " || line'.text == line.text + "\t"))
  {
    hide FixLines, Reached;
    AtMostOneBlank(patches[i].chunks[j].lines, k);
  }

  /** The source views of the whole patch set stay exactly when in every chunk that is reached no
      context line has a blank to take over. */
  lemma CleanedSourceViewIff(patches: seq<Patch>)
    ensures
      (forall i, j :: 0 <= i < |patches| && 0 <= j < |patches[i].chunks| ==>
         SourceViewKept(patches[i].chunks[j].lines, Cleaned(patches)[i].chunks[j].lines)) <==>
      (forall i, j :: 0 <= i < |patches| && 0 <= j < |patches[i].chunks| && Reached(patches, i, j) ==>
         NothingLeaks(patches[i].chunks[j].lines))
  {
    hide FixLines, Reached, NothingLeaks;
    forall i, j | 0 <= i < |patches| && 0 <= j < |patches[i].chunks|
      ensures SourceViewKept(patches[i].chunks[j].lines, Cleaned(patches)[i].chunks[j].lines) <==>
              (Reached(patches, i, j) ==> NothingLeaks(patches[i].chunks[j].lines))
    {
      SourceViewUnchangedIff(patches[i].chunks[j].lines);
    }
  }

  /** The whole patch set, pair by pair. Chunks behind the first one with fewer target than source lines
      stay as they are; in the others the pairs are restored one after another, as many as there are,
      and lines that are the target of no pair stay. */
  lemma CleanedExact(patches: seq<Patch>, i: nat, j: nat, k: nat)
    requires i < |patches| && j < |patches[i].chunks| && k < |patches[i].chunks[j].lines|
    ensures var lines, lines' := patches[i].chunks[j].lines, Cleaned(patches)[i].chunks[j].lines;
      var late := exists a, b :: 0 <= a < |patches| && 0 <= b < |patches[a].chunks| && Before(a, b, i, j) &&
                    DstLen(patches[a].chunks[b].lines) < SrcLen(patches[a].chunks[b].lines);
      && (late ==> lines'[k] == lines[k])
      && (!late ==> forall m :: 0 <= m < SrcLen(lines) && m < DstLen(lines) ==>
            && m < |SrcAt(lines)| && m < |DstAt(lines)|
            && Restores(FixUpTo(lines, m)[SrcAt(lines)[m]].text, lines[DstAt(lines)[m]].text,
                        lines'[DstAt(lines)[m]].text))
      && (!late && (forall m :: 0 <= m < SrcLen(lines) && m < |DstAt(lines)| ==> DstAt(lines)[m] != k) ==>
            lines'[k] == lines[k])
  {
    hide SrcAt, DstAt, FixUpTo, Restores, SrcLen, DstLen;
    forall a, b | 0 <= a < |patches| && 0 <= b < |patches[a].chunks|
      ensures ShortTarget(patches[a].chunks[b].lines) <==>
              DstLen(patches[a].chunks[b].lines) < SrcLen(patches[a].chunks[b].lines)
    {
      ViewLengths(patches[a].chunks[b].lines);
    }
    var lines := patches[i].chunks[j].lines;
    ViewLengths(lines);
    var n := Pairs(lines);
    forall m | 0 <= m < n
      ensures Restores(FixUpTo(lines, m)[SrcAt(lines)[m]].text, lines[DstAt(lines)[m]].text,
                       FixLines(lines)[DstAt(lines)[m]].text)
    {
      PairRestores(lines, n, m);
    }
    NothingFixed(lines);
    if forall m :: 0 <= m < n ==> DstAt(lines)[m] != k {
      LaterPairsLeaveIt(lines, 0, n, k);
    }
  }
}
