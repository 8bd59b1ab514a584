/** The diff objects of the style checker: lines, chunks and patches that are filled in place, the
    parser that builds them, and the in-place removal of trailing-whitespace changes. */
module CheckStyle {
  import opened Wrappers
  import T = PatchText
  import W = TrailingWhitespace

  class PatchChunkLine {
    var kind: Option<T.Kind>
    var line: string
    ghost var owner: PatchChunk?
    ghost var index: nat

    constructor ()
      ensures kind == None && line == "" && owner == null
    {
      kind, line, owner, index := None, "", null, 0;
    }

    method SetSrc(line: string)
      modifies this`kind, this`line
      ensures kind == Some(T.Src) && this.line == line
    {
      kind := Some(T.Src);
      this.line := line;
    }

    method SetDst(line: string)
      modifies this`kind, this`line
      ensures kind == Some(T.Dst) && this.line == line
    {
      kind := Some(T.Dst);
      this.line := line;
    }

    method SetBoth(line: string)
      modifies this`kind, this`line
      ensures kind == Some(T.Both) && this.line == line
    {
      kind := Some(T.Both);
      this.line := line;
    }

    method AppendToLine(s: string)
      modifies this`line
      ensures line == old(line) + s
    {
      line := line + s;
    }

    predicate IsSrc()
      reads this
    {
      kind == Some(T.Src) || kind == Some(T.Both)
    }

    predicate IsDst()
      reads this
    {
      kind == Some(T.Dst) || kind == Some(T.Both)
    }

    ghost predicate Shows(v: T.Line)
      reads this
    {
      kind == Some(v.kind) && line == v.text
    }

    /** None where the source raises: a line that has not been set. */
    method Write() returns (r: Option<string>)
      ensures forall v :: Shows(v) ==> r == Some(T.LineText(v))
      ensures kind.None? ==> r.None?
    {
      match kind {
        case Some(Src) => r := Some("-" + line + "\n");
        case Some(Dst) => r := Some("+" + line + "\n");
        case Some(Both) => r := Some(" " + line + "\n");
        case None => r := None;
      }
    }
  }

  class PatchChunk {
    var lines: seq<PatchChunkLine>
    const srcPos: nat
    const dstPos: nat
    ghost var owner: Patch?
    ghost var index: nat

    constructor (srcPos: nat, dstPos: nat)
      ensures Shows(T.Chunk(srcPos, dstPos, [])) && lines == [] && owner == null
    {
      this.srcPos, this.dstPos := srcPos, dstPos;
      lines, owner, index := [], null, 0;
    }

    /** The chunk reads as `v`, and its lines are its own, each at its place. */
    ghost predicate Shows(v: T.Chunk)
      reads this, set l | l in lines :: l
    {
      && srcPos == v.srcPos && dstPos == v.dstPos && |lines| == |v.lines|
      && forall k :: 0 <= k < |lines| ==>
           (assert lines[k] in lines;
            lines[k].owner == this && lines[k].index == k && lines[k].Shows(v.lines[k]))
    }

    method AddLine(line: PatchChunkLine, ghost v: T.Chunk, ghost l: T.Line)
      requires Shows(v) && line.Shows(l) && line.owner == null
      modifies this`lines, line`owner, line`index
      ensures lines == old(lines) + [line] && line.owner == this
      ensures Shows(v.(lines := v.lines + [l]))
    {
      line.owner, line.index := this, |lines|;
      lines := lines + [line];
    }

    /** The header with the line counts as they are now, then the lines. */
    method Write(ghost v: T.Chunk) returns (out: seq<string>)
      requires Shows(v)
      ensures out == T.ChunkText(v)
    {
      hide T.HeaderText, T.LineText, T.Decimal;
      var src := Src(v);
      var dst := Dst(v);
      W.ViewLengths(v.lines);
      out := [];
      for k := 0 to |lines|
        invariant out == T.LinesText(v.lines[..k])
      {
        assert v.lines[..k + 1][..k] == v.lines[..k];
        var s := lines[k].Write();
        match s {
          case Some(text) => out := out + [text];
          case None =>
        }
      }
      assert v.lines[..|lines|] == v.lines;
      var header := ChunkHeaderText(srcPos, |src|, dstPos, |dst|, v);
      out := [header] + out;
    }

    /** The lines of the source view; context lines are the same objects as in the target view. */
    method Src(ghost v: T.Chunk) returns (src: seq<PatchChunkLine>)
      requires Shows(v)
      ensures |src| == |W.SrcAt(v.lines)| && forall i :: 0 <= i < |src| ==> src[i] == lines[W.SrcAt(v.lines)[i]]
    {
      hide W.SrcAt, W.DstAt;
      W.ViewsSnoc(v.lines, 0);
      src := [];
      for k := 0 to |lines|
        invariant |src| == |W.SrcAt(v.lines[..k])|
        invariant forall i :: 0 <= i < |src| ==> src[i] == lines[W.SrcAt(v.lines[..k])[i]]
      {
        W.ViewsSnoc(v.lines, k);
        if lines[k].IsSrc() {
          src := src + [lines[k]];
        }
      }
      assert v.lines[..|lines|] == v.lines;
    }

    method Dst(ghost v: T.Chunk) returns (dst: seq<PatchChunkLine>)
      requires Shows(v)
      ensures |dst| == |W.DstAt(v.lines)| && forall i :: 0 <= i < |dst| ==> dst[i] == lines[W.DstAt(v.lines)[i]]
    {
      hide W.SrcAt, W.DstAt;
      W.ViewsSnoc(v.lines, 0);
      dst := [];
      for k := 0 to |lines|
        invariant |dst| == |W.DstAt(v.lines[..k])|
        invariant forall i :: 0 <= i < |dst| ==> dst[i] == lines[W.DstAt(v.lines[..k])[i]]
      {
        W.ViewsSnoc(v.lines, k);
        if lines[k].IsDst() {
          dst := dst + [lines[k]];
        }
      }
      assert v.lines[..|lines|] == v.lines;
    }
  }

  method ChunkHeaderText(srcPos: nat, srcLen: nat, dstPos: nat, dstLen: nat, ghost v: T.Chunk) returns (s: string)
    requires srcPos == v.srcPos && dstPos == v.dstPos && srcLen == T.SrcLen(v.lines) && dstLen == T.DstLen(v.lines)
    ensures s == T.HeaderText(v)
  {
    s := "@@ -" + T.Decimal(srcPos) + "," + T.Decimal(srcLen)
         + " +" + T.Decimal(dstPos) + "," + T.Decimal(dstLen) + " @@\n";
  }

  class Patch {
    var src: string
    var dst: string
    var chunks: seq<PatchChunk>
    ghost var index: nat

    constructor ()
      ensures src == "" && dst == "" && chunks == []
    {
      src, dst, chunks, index := "", "", [], 0;
    }

    ghost predicate Shows(v: T.Patch)
      reads this, set c | c in chunks :: c, set c, l | c in chunks && l in c.lines :: l
    {
      && src == v.src && dst == v.dst && |chunks| == |v.chunks|
      && forall j :: 0 <= j < |chunks| ==>
           (assert chunks[j] in chunks;
            chunks[j].owner == this && chunks[j].index == j && chunks[j].Shows(v.chunks[j]))
    }

    method SetSrc(src: string)
      modifies this`src
      ensures this.src == src
    {
      this.src := src;
    }

    method SetDst(dst: string)
      modifies this`dst
      ensures this.dst == dst
    {
      this.dst := dst;
    }

    method Write(ghost v: T.Patch) returns (out: seq<string>)
      requires Shows(v)
      ensures out == T.PatchText(v)
    {
      hide T.ChunkText;
      out := [];
      for j := 0 to |chunks|
        invariant out == T.ChunksText(v.chunks[..j])
      {
        assert v.chunks[..j + 1][..j] == v.chunks[..j];
        var text := chunks[j].Write(v.chunks[j]);
        out := out + text;
      }
      assert v.chunks[..|chunks|] == v.chunks;
      out := ["--- " + src + "\n"] + ["+++ " + dst + "\n"] + out;
    }

    method AddChunk(chunk: PatchChunk, ghost v: T.Patch, ghost c: T.Chunk)
      requires Shows(v) && chunk.Shows(c) && chunk.owner == null
      modifies this`chunks, chunk`owner, chunk`index
      ensures chunks == old(chunks) + [chunk] && chunk.owner == this
      ensures Shows(v.(chunks := v.chunks + [c]))
    {
      chunk.owner, chunk.index := this, |chunks|;
      chunks := chunks + [chunk];
    }
  }

  /** All the objects a patch set consists of. */
  ghost function Objects(ps: seq<Patch>): set<object>
    reads set p | p in ps :: p, set p, c | p in ps && c in p.chunks :: c
  {
    (set p | p in ps) + (set p, c | p in ps && c in p.chunks :: c)
      + (set p, c, l | p in ps && c in p.chunks && l in c.lines :: l)
  }

  /** The patch objects read as `vs`, each at its place. */
  ghost predicate ShowSet(ps: seq<Patch>, vs: seq<T.Patch>)
    reads set p | p in ps :: p, set p, c | p in ps && c in p.chunks :: c
    reads set p, c, l | p in ps && c in p.chunks && l in c.lines :: l
  {
    |ps| == |vs| && forall i :: 0 <= i < |ps| ==> (assert ps[i] in ps; ps[i].index == i && ps[i].Shows(vs[i]))
  }

  // ---- the inner loop of the cleaning ----

  /** The effect of one comparison on the values. */
  lemma FixStep(v: T.Chunk, n: nat)
    requires n < |W.SrcAt(v.lines)| && n < |W.DstAt(v.lines)|
    ensures var lines, lines' := W.FixUpTo(v.lines, n), W.FixUpTo(v.lines, n + 1);
      var s, d := W.SrcAt(v.lines)[n], W.DstAt(v.lines)[n];
      lines' == lines[d := lines[d].(text := W.Fixed(lines[s].text, lines[d].text))]
  {
  }

  lemma NothingFixed(v: T.Chunk)
    ensures v.(lines := W.FixUpTo(v.lines, 0)) == v
  {
  }

  method ComparePair(s: PatchChunkLine, d: PatchChunkLine, ghost c: PatchChunk, ghost v: T.Chunk, ghost n: nat)
    requires n < |W.SrcAt(v.lines)| && n < |W.DstAt(v.lines)|
    requires c.Shows(v.(lines := W.FixUpTo(v.lines, n)))
    requires s == c.lines[W.SrcAt(v.lines)[n]] && d == c.lines[W.DstAt(v.lines)[n]]
    modifies d`line
    ensures c.Shows(v.(lines := W.FixUpTo(v.lines, n + 1)))
  {
    hide W.SrcAt, W.DstAt, W.FixUpTo, W.TrailingBlank;
    FixStep(v, n);
    var m := W.TrailingBlank(s.line);
    if m.Some? && m.value.0 == d.line {
      d.AppendToLine(m.value.1);
    }
  }

  lemma LinesOfChunk(c: PatchChunk, v: T.Chunk)
    requires c.Shows(v)
    ensures |c.lines| == |v.lines|
  {
  }

  method CleanChunk(c: PatchChunk, ghost v: T.Chunk) returns (ok: bool)
    requires c.Shows(v)
    modifies set l | l in c.lines :: l`line
    ensures c.Shows(W.FixChunk(v))
    ensures ok <==> !W.ShortTarget(v.lines)
  {
    hide W.SrcAt, W.DstAt, W.FixUpTo, PatchChunk.Shows;
    LinesOfChunk(c, v);
    var src := c.Src(v);
    var dst := c.Dst(v);
    NothingFixed(v);
    var i := 0;
    while i < |src|
      invariant 0 <= i <= |src| && i <= |dst|
      invariant c.Shows(v.(lines := W.FixUpTo(v.lines, i)))
    {
      var s := src[i];
      if i >= |dst| {
        return false;
      }
      var d := dst[i];
      assert d in c.lines;
      ComparePair(s, d, c, v, i);
      i := i + 1;
    }
    return true;
  }

  // ---- the parser's four ways of filling the patch set ----

  method NewPatch(ps0: seq<Patch>, name: string, ghost vs: seq<T.Patch>) returns (ps: seq<Patch>, patch: Patch)
    requires ShowSet(ps0, vs)
    ensures fresh(patch) && ps == ps0 + [patch]
    ensures ShowSet(ps, vs + [T.Patch(name, "", [])])
    ensures Objects(ps) <= Objects(ps0) + {patch}
  {
    hide ShowSet, Objects;
    patch := new Patch();
    patch.index := |ps0|;
    ps := ps0 + [patch];
    patch.SetSrc(name);
    ShowSetSnoc(ps0, vs, patch, T.Patch(name, "", []));
  }

  lemma ShowSetSnoc(ps: seq<Patch>, vs: seq<T.Patch>, p: Patch, v: T.Patch)
    requires ShowSet(ps, vs) && p.index == |ps| && p.Shows(v) && p.chunks == []
    ensures ShowSet(ps + [p], vs + [v])
    ensures Objects(ps + [p]) <= Objects(ps) + {p}
  {
  }

  method SetTarget(ghost ps: seq<Patch>, patch: Patch, name: string, ghost vs: seq<T.Patch>)
    requires ShowSet(ps, vs) && ps != [] && patch == ps[|ps| - 1]
    modifies patch`dst
    ensures ShowSet(ps, vs[|ps| - 1 := vs[|ps| - 1].(dst := name)])
    ensures Objects(ps) <= old(Objects(ps))
  {
    patch.SetDst(name);
  }

  method NewChunk(ghost ps: seq<Patch>, patch: Patch, srcPos: nat, dstPos: nat, ghost vs: seq<T.Patch>)
    returns (chunk: PatchChunk)
    requires ShowSet(ps, vs) && ps != [] && patch == ps[|ps| - 1]
    modifies patch`chunks
    ensures var n := |ps| - 1;
      && ShowSet(ps, vs[n := vs[n].(chunks := vs[n].chunks + [T.Chunk(srcPos, dstPos, [])])])
      && patch.Shows(vs[n].(chunks := vs[n].chunks + [T.Chunk(srcPos, dstPos, [])]))
    ensures fresh(chunk) && chunk.lines == [] && patch.chunks == old(patch.chunks) + [chunk]
  {
    chunk := new PatchChunk(srcPos, dstPos);
    patch.AddChunk(chunk, vs[|ps| - 1], T.Chunk(srcPos, dstPos, []));
  }

  method AddContent(ghost ps: seq<Patch>, chunk: PatchChunk, line: PatchChunkLine, ghost vs: seq<T.Patch>,
                    ghost i: nat, ghost j: nat, ghost l: T.Line)
    requires ShowSet(ps, vs) && i < |ps| && j < |ps[i].chunks| && chunk == ps[i].chunks[j]
    requires line.Shows(l) && line.owner == null
    modifies chunk`lines, line`owner, line`index
    ensures ShowSet(ps, T.AddContent(vs, i, j, l)) && ps[i].Shows(T.AddContent(vs, i, j, l)[i])
    ensures chunk.lines == old(chunk.lines) + [line]
  {
    chunk.AddLine(line, vs[i].chunks[j], l);
  }

  // ---- the parser ----

  /** The current patch is the last one; the current chunk is where the reader says it is, and it
      is not forgotten when a new patch begins. */
  ghost predicate Reading(ps: seq<Patch>, currentPatch: Patch?, currentChunk: PatchChunk?, r: T.Reader)
    reads set p | p in ps :: p, set p, c | p in ps && c in p.chunks :: c
    reads set p, c, l | p in ps && c in p.chunks && l in c.lines :: l
  {
    && ShowSet(ps, r.patches)
    && (if ps == [] then currentPatch == null else currentPatch == ps[|ps| - 1])
    && (r.at.None? <==> currentChunk == null)
    && (r.at.Some? ==>
          && r.at.value.0 < |ps| && r.at.value.1 < |r.patches[r.at.value.0].chunks|
          && (assert ps[r.at.value.0] in ps; ps[r.at.value.0].Shows(r.patches[r.at.value.0]))
          && ps[r.at.value.0].chunks[r.at.value.1] == currentChunk)
  }

  /** A line with its kind and text, as the three content branches make it. */
  method NewLine(kind: T.Kind, text: string) returns (l: PatchChunkLine)
    ensures fresh(l) && l.Shows(T.Line(kind, text)) && l.owner == null
  {
    l := new PatchChunkLine();
    match kind {
      case Src => l.SetSrc(text);
      case Dst => l.SetDst(text);
      case Both => l.SetBoth(text);
    }
  }

  method TakeSrcFile(ps0: seq<Patch>, currentPatch0: Patch?, currentChunk: PatchChunk?, name: string, ghost r: T.Reader)
    returns (ps: seq<Patch>, currentPatch: Patch)
    requires Reading(ps0, currentPatch0, currentChunk, r)
    ensures Reading(ps, currentPatch, currentChunk, r.(patches := r.patches + [T.Patch(name, "", [])]))
    ensures fresh(Objects(ps) - Objects(ps0))
  {
    ps, currentPatch := NewPatch(ps0, name, r.patches);
  }

  method TakeDstFile(ghost ps: seq<Patch>, currentPatch: Patch, ghost currentChunk: PatchChunk?, name: string,
                     ghost r: T.Reader)
    requires Reading(ps, currentPatch, currentChunk, r)
    modifies currentPatch`dst
    ensures r.patches != []
    ensures var n := |r.patches| - 1;
      Reading(ps, currentPatch, currentChunk, r.(patches := r.patches[n := r.patches[n].(dst := name)]))
    ensures fresh(Objects(ps) - old(Objects(ps)))
  {
    hide Patch.Shows, Objects;
    SetTarget(ps, currentPatch, name, r.patches);
  }

  method TakeHeader(ghost ps: seq<Patch>, currentPatch: Patch, ghost currentChunk0: PatchChunk?,
                    a: nat, b: nat, ghost r: T.Reader)
    returns (currentChunk: PatchChunk)
    requires Reading(ps, currentPatch, currentChunk0, r)
    modifies currentPatch`chunks
    ensures r.patches != []
    ensures var n := |r.patches| - 1; var p := r.patches[n];
      Reading(ps, currentPatch, currentChunk,
              T.Reader(r.patches[n := p.(chunks := p.chunks + [T.Chunk(a, b, [])])], Some((n, |p.chunks|))))
    ensures fresh(Objects(ps) - old(Objects(ps)))
  {
    hide ShowSet, Patch.Shows;
    LastShows(ps, r.patches);
    currentChunk := NewChunk(ps, currentPatch, a, b, r.patches);
  }

  lemma LastShows(ps: seq<Patch>, vs: seq<T.Patch>)
    requires ShowSet(ps, vs)
    ensures |ps| == |vs| && (ps != [] ==> |ps[|ps| - 1].chunks| == |vs[|ps| - 1].chunks|)
  {
  }

  /** Where the current chunk is, according to the reader. */
  lemma CurrentChunkAt(ps: seq<Patch>, currentPatch: Patch?, currentChunk: PatchChunk, r: T.Reader)
    requires Reading(ps, currentPatch, currentChunk, r)
    ensures r.at.Some? && r.at.value.0 < |r.patches| == |ps| && r.at.value.1 < |r.patches[r.at.value.0].chunks|
    ensures r.at.value.1 < |ps[r.at.value.0].chunks| && ps[r.at.value.0].chunks[r.at.value.1] == currentChunk
    ensures currentChunk in Objects(ps)
  {
    assert ps[r.at.value.0] in ps && currentChunk in ps[r.at.value.0].chunks;
  }

  method TakeContent(ghost ps: seq<Patch>, ghost currentPatch: Patch?, currentChunk: PatchChunk, line: PatchChunkLine,
                     ghost l: T.Line, ghost r: T.Reader)
    requires Reading(ps, currentPatch, currentChunk, r) && line.Shows(l) && line.owner == null
    modifies currentChunk`lines, line`owner, line`index
    ensures r.at.Some? && r.at.value.0 < |r.patches| && r.at.value.1 < |r.patches[r.at.value.0].chunks|
    ensures Reading(ps, currentPatch, currentChunk,
                    r.(patches := T.AddContent(r.patches, r.at.value.0, r.at.value.1, l)))
    ensures Objects(ps) <= old(Objects(ps)) + {line}
  {
    hide T.AddContent, ShowSet, Patch.Shows;
    CurrentChunkAt(ps, currentPatch, currentChunk, r);
    AddContent(ps, currentChunk, line, r.patches, r.at.value.0, r.at.value.1, l);
  }

  /** One round of the parser's loop. */
  method TakeLine(ps0: seq<Patch>, currentPatch0: Patch?, currentChunk0: PatchChunk?, s: string, ghost r: T.Reader)
    returns (ok: bool, ps: seq<Patch>, currentPatch: Patch?, currentChunk: PatchChunk?)
    requires Reading(ps0, currentPatch0, currentChunk0, r)
    modifies Objects(ps0)
    ensures ok <==> T.Step(r, s).Some?
    ensures ok ==> Reading(ps, currentPatch, currentChunk, T.Step(r, s).value)
    ensures ok ==> fresh(Objects(ps) - old(Objects(ps0)))
  {
    hide Reading, Objects, T.RestOfLine, T.ChunkHeader, T.AddContent;
    ok, ps, currentPatch, currentChunk := true, ps0, currentPatch0, currentChunk0;
    Current(ps, currentPatch, currentChunk, r);
    var m := T.RestOfLine(s, "--- ");
    if m.Some? {
      ps, currentPatch := TakeSrcFile(ps, currentPatch, currentChunk, m.value, r);
      return;
    }
    m := T.RestOfLine(s, "+++ ");
    if m.Some? {
      if currentPatch == null { return false, ps, currentPatch, currentChunk; }
      TakeDstFile(ps, currentPatch, currentChunk, m.value, r);
      return;
    }
    var h := T.ChunkHeader(s);
    if h.Some? {
      if currentPatch == null { return false, ps, currentPatch, currentChunk; }
      currentChunk := TakeHeader(ps, currentPatch, currentChunk, h.value.0, h.value.1, r);
      return;
    }
    var l: PatchChunkLine;
    ghost var v: T.Line;
    m := T.RestOfLine(s, "-");
    if m.Some? {
      l := NewLine(T.Src, m.value);
      v := T.Line(T.Src, m.value);
    } else {
      m := T.RestOfLine(s, "+");
      if m.Some? {
        l := NewLine(T.Dst, m.value);
        v := T.Line(T.Dst, m.value);
      } else {
        m := T.RestOfLine(s, " ");
        if m.Some? {
          l := NewLine(T.Both, m.value);
          v := T.Line(T.Both, m.value);
        } else {
          return false, ps, currentPatch, currentChunk;
        }
      }
    }
    if currentChunk == null { return false, ps, currentPatch, currentChunk; }
    TakeContent(ps, currentPatch, currentChunk, l, v, r);
  }

  lemma Current(ps: seq<Patch>, currentPatch: Patch?, currentChunk: PatchChunk?, r: T.Reader)
    requires Reading(ps, currentPatch, currentChunk, r)
    ensures currentPatch == null <==> r.patches == []
    ensures currentPatch != null ==> currentPatch in Objects(ps)
    ensures currentChunk == null <==> r.at.None?
    ensures currentChunk != null ==>
              && r.at.value.0 < |r.patches| && r.at.value.1 < |r.patches[r.at.value.0].chunks|
              && currentChunk in Objects(ps)
  {
    if currentPatch != null { assert currentPatch in ps; }
    if currentChunk != null { CurrentChunkAt(ps, currentPatch, currentChunk, r); }
  }

  /** Not ok where the source raises. */
  method ParsePatchset(lines: seq<string>) returns (ok: bool, patchset: seq<Patch>)
    ensures ok <==> T.Parsed(lines).Some?
    ensures ok ==> ShowSet(patchset, T.Parsed(lines).value) && fresh(Objects(patchset))
  {
    hide T.Step, ShowSet, Objects;
    patchset := [];
    var currentPatch: Patch?, currentChunk: PatchChunk? := null, null;
    ghost var r := T.Reader([], None);
    EmptySet(r);
    ok := true;
    for i := 0 to |lines|
      invariant T.StepAll(T.Reader([], None), lines[..i]) == Some(r)
      invariant Reading(patchset, currentPatch, currentChunk, r)
      invariant fresh(Objects(patchset))
    {
      assert lines[..i + 1][..i] == lines[..i];
      ParsedFails(lines, i + 1);
      ok, patchset, currentPatch, currentChunk := TakeLine(patchset, currentPatch, currentChunk, lines[i], r);
      if !ok {
        return;
      }
      r := T.Step(r, lines[i]).value;
    }
    assert lines[..|lines|] == lines;
    ok := true;
  }

  lemma EmptySet(r: T.Reader)
    requires r == T.Reader([], None)
    ensures Reading([], null, null, r) && Objects([]) == {}
  {
  }

  lemma {:induction false} ParsedFails(lines: seq<string>, i: nat)
    requires i <= |lines|
    ensures T.StepAll(T.Reader([], None), lines[..i]).None? ==> T.Parsed(lines).None?
    decreases |lines| - i
  {
    if i < |lines| {
      assert lines[..i + 1][..i] == lines[..i];
      ParsedFails(lines, i + 1);
    } else {
      assert lines[..i] == lines;
    }
  }

  // ---- the cleaning ----

  method CleanAt(ghost ps: seq<Patch>, chunk: PatchChunk, ghost vs: seq<T.Patch>, ghost i: nat, ghost j: nat)
    returns (ok: bool)
    requires ShowSet(ps, vs) && i < |ps| && j < |ps[i].chunks| && j < |vs[i].chunks| && chunk == ps[i].chunks[j]
    modifies set l | l in chunk.lines :: l`line
    ensures ShowSet(ps, vs[i := vs[i].(chunks := vs[i].chunks[j := W.FixChunk(vs[i].chunks[j])])])
    ensures ok <==> !W.ShortTarget(vs[i].chunks[j].lines)
    ensures Objects(ps) == old(Objects(ps))
  {
    hide W.FixChunk, W.ShortTarget, Objects;
    ok := CleanChunk(chunk, vs[i].chunks[j]);
  }

  lemma ChunkCount(ps: seq<Patch>, vs: seq<T.Patch>, i: nat)
    requires ShowSet(ps, vs) && i < |ps|
    ensures |vs| == |ps| && |ps[i].chunks| == |vs[i].chunks|
    ensures forall j, l :: 0 <= j < |ps[i].chunks| && l in ps[i].chunks[j].lines ==> l in Objects(ps)
  {
    assert ps[i] in ps;
    assert forall j :: 0 <= j < |ps[i].chunks| ==> ps[i].chunks[j] in ps[i].chunks;
  }

  lemma ShapeOfCleanedTo(vs: seq<T.Patch>, i: nat, j: nat)
    ensures |W.CleanedTo(vs, i, j)| == |vs|
    ensures forall a :: 0 <= a < |vs| ==> |W.CleanedTo(vs, i, j)[a].chunks| == |vs[a].chunks|
  {
  }

  /** The chunks of one patch in turn, until one with a target that is too short. */
  method CleanPatch(ps: seq<Patch>, ghost vs: seq<T.Patch>, i: nat) returns (more: bool)
    requires i < |ps| == |vs| && ShowSet(ps, W.CleanedTo(vs, i, 0)) && W.Reached(vs, i, 0)
    modifies Objects(ps)
    ensures Objects(ps) == old(Objects(ps))
    ensures more ==> ShowSet(ps, W.CleanedTo(vs, i + 1, 0)) && W.Reached(vs, i + 1, 0)
    ensures !more ==> ShowSet(ps, W.Cleaned(vs))
  {
    hide ShowSet, Objects, W.CleanedTo, W.Cleaned, W.FixChunk;
    var chunks := ps[i].chunks;
    for j := 0 to |chunks|
      invariant ps[i].chunks == chunks && Objects(ps) == old(Objects(ps))
      invariant ShowSet(ps, W.CleanedTo(vs, i, j)) && W.Reached(vs, i, j)
    {
      ShapeOfCleanedTo(vs, i, j);
      ChunkCount(ps, W.CleanedTo(vs, i, j), i);
      W.CleanOne(vs, i, j);
      more := CleanAt(ps, chunks[j], W.CleanedTo(vs, i, j), i, j);
      if !more {
        W.CleaningOver(vs, i, j);
        return;
      }
    }
    ShapeOfCleanedTo(vs, i, |chunks|);
    ChunkCount(ps, W.CleanedTo(vs, i, |chunks|), i);
    W.NextPatch(vs, i);
    more := true;
  }

  /** The patch set a diff stands for, with the target lines changed in place. */
  method RemoveTrailingWhitespaceChanges(lines: seq<string>) returns (ok: bool, patchset: seq<Patch>)
    ensures ok <==> T.Parsed(lines).Some?
    ensures ok ==> ShowSet(patchset, W.Cleaned(T.Parsed(lines).value)) && fresh(Objects(patchset))
  {
    hide ShowSet, Objects, W.CleanedTo, W.Cleaned, W.Reached;
    ok, patchset := ParsePatchset(lines);
    if !ok {
      return;
    }
    ghost var vs := T.Parsed(lines).value;
    W.NothingCleaned(vs);
    SetLength(patchset, vs);
    for i := 0 to |patchset|
      invariant ShowSet(patchset, W.CleanedTo(vs, i, 0)) && W.Reached(vs, i, 0)
      invariant fresh(Objects(patchset))
    {
      var more := CleanPatch(patchset, vs, i);
      if !more {
        return;
      }
    }
    W.CleaningOver(vs, |vs|, 0);
  }

  lemma SetLength(ps: seq<Patch>, vs: seq<T.Patch>)
    requires ShowSet(ps, vs)
    ensures |ps| == |vs| && W.Reached(vs, 0, 0)
  {
  }
}
