/** The text form of a unified diff: how a patch set is written and how its lines are read. */
module PatchText {
  import opened Wrappers

  datatype Kind = Src | Dst | Both

  datatype Line = Line(kind: Kind, text: string)

  datatype Chunk = Chunk(srcPos: nat, dstPos: nat, lines: seq<Line>)

  datatype Patch = Patch(src: string, dst: string, chunks: seq<Chunk>)

  // ---- decimal numbers ----

  predicate IsDigit(c: char) { '0' <= c <= '9' }

  function DigitChar(d: nat): (c: char)
    requires d < 10
    ensures IsDigit(c)
  {
    ['0', '1', '2', '3', '4', '5', '6', '7', '8', '9'][d]
  }

  function DigitValue(c: char): nat
    requires IsDigit(c)
  {
    c as int - '0' as int
  }

  function Decimal(n: nat): (s: string)
    ensures s != "" && forall i :: 0 <= i < |s| ==> IsDigit(s[i])
  {
    if n < 10 then [DigitChar(n)] else Decimal(n / 10) + [DigitChar(n % 10)]
  }

  function Value(s: string): nat
    requires forall i :: 0 <= i < |s| ==> IsDigit(s[i])
  {
    if s == "" then 0 else 10 * Value(s[..|s| - 1]) + DigitValue(s[|s| - 1])
  }

  lemma {:induction false} ValueOfDecimal(n: nat)
    ensures Value(Decimal(n)) == n
  {
    if n < 10 {
      assert Decimal(n)[..0] == "";
    } else {
      ValueOfDecimal(n / 10);
      assert Decimal(n)[..|Decimal(n)| - 1] == Decimal(n / 10);
    }
  }

  // ---- reading one line ----

  function Rest(s: string, prefix: string): Option<string> {
    if prefix <= s then Some(s[|prefix|..]) else None
  }

  function DigitsLength(s: string): (n: nat)
    ensures n <= |s| && forall i :: 0 <= i < n ==> IsDigit(s[i])
  {
    if s == "" || !IsDigit(s[0]) then 0 else 1 + DigitsLength(s[1..])
  }

  /** One or more digits, and what follows them. */
  function Number(s: string): Option<(nat, string)> {
    var n := DigitsLength(s);
    if n == 0 then None else Some((Value(s[..n]), s[n..]))
  }

  /** A number behind `prefix`. */
  function NumberAfter(s: string, prefix: string): Option<(nat, string)> {
    var rest := Rest(s, prefix);
    if rest.None? then None else Number(rest.value)
  }

  /** The two positions of a chunk header; whatever follows the second pair of signs is ignored. */
  function ChunkHeader(s: string): Option<(nat, nat)> {
    var a := NumberAfter(s, "@@ -");
    if a.None? then None else
    var b := NumberAfter(a.value.1, ",");
    if b.None? then None else
    var c := NumberAfter(b.value.1, " +");
    if c.None? then None else
    var d := NumberAfter(c.value.1, ",");
    if d.None? || Rest(d.value.1, " @@").None? then None else Some((a.value.0, c.value.0))
  }

  function StripNewline(s: string): string {
    if s != "" && s[|s| - 1] == '\n' then s[..|s| - 1] else s
  }

  /** What follows `prefix` up to the end of the line. */
  function RestOfLine(s: string, prefix: string): Option<string> {
    var rest := Rest(StripNewline(s), prefix);
    if rest.Some? && '\n' !in rest.value then rest else None
  }

  datatype Reading =
    | SrcFile(name: string)
    | DstFile(name: string)
    | Header(srcPos: nat, dstPos: nat)
    | Content(line: Line)
    | Unreadable

  /** The patterns are tried in this order. */
  function Read(s: string): Reading {
    if RestOfLine(s, "--- ").Some? then SrcFile(RestOfLine(s, "--- ").value)
    else if RestOfLine(s, "+++ ").Some? then DstFile(RestOfLine(s, "+++ ").value)
    else if ChunkHeader(s).Some? then Header(ChunkHeader(s).value.0, ChunkHeader(s).value.1)
    else if RestOfLine(s, "-").Some? then Content(Line(Src, RestOfLine(s, "-").value))
    else if RestOfLine(s, "+").Some? then Content(Line(Dst, RestOfLine(s, "+").value))
    else if RestOfLine(s, " ").Some? then Content(Line(Both, RestOfLine(s, " ").value))
    else Unreadable
  }

  // ---- reading a patch set ----

  /** `at` is the patch and the chunk that take the next content line. Starting a new patch leaves
      it where it is. */
  datatype Reader = Reader(patches: seq<Patch>, at: Option<(nat, nat)>)

  function AddContent(patches: seq<Patch>, i: nat, j: nat, line: Line): seq<Patch>
    requires i < |patches| && j < |patches[i].chunks|
  {
    var p := patches[i];
    var c := p.chunks[j];
    patches[i := p.(chunks := p.chunks[j := c.(lines := c.lines + [line])])]
  }

  /** None where the source raises: a line no pattern matches, a target name or a header before the
      first patch, content before the first header. */
  function Step(r: Reader, s: string): Option<Reader> {
    match Read(s)
    case SrcFile(name) => Some(r.(patches := r.patches + [Patch(name, "", [])]))
    case DstFile(name) =>
      if r.patches == [] then None
      else
        var n := |r.patches| - 1;
        Some(r.(patches := r.patches[n := r.patches[n].(dst := name)]))
    case Header(a, b) =>
      if r.patches == [] then None
      else
        var n := |r.patches| - 1;
        var p := r.patches[n];
        Some(Reader(r.patches[n := p.(chunks := p.chunks + [Chunk(a, b, [])])], Some((n, |p.chunks|))))
    case Content(line) =>
      if r.at.Some? && r.at.value.0 < |r.patches| && r.at.value.1 < |r.patches[r.at.value.0].chunks| then
        Some(r.(patches := AddContent(r.patches, r.at.value.0, r.at.value.1, line)))
      else None
    case Unreadable => None
  }

  function StepAll(r: Reader, lines: seq<string>): Option<Reader> {
    if lines == [] then Some(r)
    else
      var q := StepAll(r, lines[..|lines| - 1]);
      if q.None? then None else Step(q.value, lines[|lines| - 1])
  }

  function Parsed(lines: seq<string>): Option<seq<Patch>> {
    var r := StepAll(Reader([], None), lines);
    if r.None? then None else Some(r.value.patches)
  }

  // ---- where lines go, and when reading fails ----

  /** Between two headers every content line goes to the chunk of the first, also behind the file name
      lines of a further patch. */
  lemma {:induction false} LastHeaderTakes(r: Reader, lines: seq<string>, i: nat, j: nat)
    requires r.at == Some((i, j)) && i < |r.patches| && j < |r.patches[i].chunks|
    requires StepAll(r, lines).Some? && forall k :: 0 <= k < |lines| ==> !Read(lines[k]).Header?
    ensures var r' := StepAll(r, lines).value;
      && r'.at == r.at && i < |r'.patches| && j < |r'.patches[i].chunks|
      && r'.patches[i].chunks[j] == r.patches[i].chunks[j].(lines := r.patches[i].chunks[j].lines + Contents(lines))
  {
    hide Read;
    if lines == [] {
      assert r.patches[i].chunks[j].lines + [] == r.patches[i].chunks[j].lines;
    } else {
      var n := |lines| - 1;
      LastHeaderTakes(r, lines[..n], i, j);
      var q, before := StepAll(r, lines[..n]).value, r.patches[i].chunks[j].lines;
      assert before + Contents(lines[..n]) + [] == before + Contents(lines[..n]);
      if Read(lines[n]).Content? {
        var l := Read(lines[n]).line;
        assert before + (Contents(lines[..n]) + [l]) == before + Contents(lines[..n]) + [l];
      }
    }
  }

  /** The content lines, in order. */
  function Contents(lines: seq<string>): seq<Line> {
    if lines == [] then []
    else
      var last := Read(lines[|lines| - 1]);
      Contents(lines[..|lines| - 1]) + if last.Content? then [last.line] else []
  }

  /** A line that no pattern matches, a target name or a header before the first source name, or a
      content line before the first header. */
  ghost predicate Fails(lines: seq<string>, k: nat)
    requires k < |lines|
  {
    match Read(lines[k])
    case Unreadable => true
    case SrcFile(_) => false
    case Content(_) => forall m :: 0 <= m < k ==> !Read(lines[m]).Header?
    case _ => forall m :: 0 <= m < k ==> !Read(lines[m]).SrcFile?
  }

  ghost predicate SomeSource(lines: seq<string>) {
    exists k :: 0 <= k < |lines| && Read(lines[k]).SrcFile?
  }

  ghost predicate SomeHeader(lines: seq<string>) {
    exists k :: 0 <= k < |lines| && Read(lines[k]).Header?
  }

  /** What the reader knows after these lines. */
  ghost predicate ReadSoFar(lines: seq<string>, r: Reader) {
    && (r.patches != [] <==> SomeSource(lines)) && (r.at.Some? <==> SomeHeader(lines))
    && (r.at.Some? ==> r.at.value.0 < |r.patches| && r.at.value.1 < |r.patches[r.at.value.0].chunks|)
  }

  lemma MoreRead(lines: seq<string>, s: string)
    ensures SomeSource(lines + [s]) <==> SomeSource(lines) || Read(s).SrcFile?
    ensures SomeHeader(lines + [s]) <==> SomeHeader(lines) || Read(s).Header?
    ensures Fails(lines + [s], |lines|) <==>
              match Read(s)
              case Unreadable => true
              case SrcFile(_) => false
              case Content(_) => !SomeHeader(lines)
              case _ => !SomeSource(lines)
  {
    hide Read;
    var all, n := lines + [s], |lines|;
    assert forall k :: 0 <= k < n ==> all[k] == lines[k];
    assert all[n] == s;
  }

  lemma StepSoFar(lines: seq<string>, r: Reader, s: string)
    requires ReadSoFar(lines, r)
    ensures Step(r, s).None? <==> Fails(lines + [s], |lines|)
    ensures Step(r, s).Some? ==> ReadSoFar(lines + [s], Step(r, s).value)
  {
    hide Read, SomeSource, SomeHeader, Fails;
    MoreRead(lines, s);
  }

  /** Reading fails exactly if some line does. */
  lemma {:induction false} ParseFailsIff(lines: seq<string>)
    ensures Parsed(lines).None? <==> exists k :: 0 <= k < |lines| && Fails(lines, k)
    ensures var r := StepAll(Reader([], None), lines); r.Some? ==> ReadSoFar(lines, r.value)
  {
    hide Read, Step;
    if lines != [] {
      var n := |lines| - 1;
      ParseFailsIff(lines[..n]);
      forall k | 0 <= k < n ensures Fails(lines[..n], k) <==> Fails(lines, k) {
        assert forall m :: 0 <= m <= k ==> lines[..n][m] == lines[m];
      }
      var before := StepAll(Reader([], None), lines[..n]);
      assert lines[..n] + [lines[n]] == lines;
      if before.Some? { StepSoFar(lines[..n], before.value, lines[n]); }
    }
  }

  // ---- writing ----

  function LineText(l: Line): string {
    match l.kind
    case Src => "-" + l.text + "\n"
    case Dst => "+" + l.text + "\n"
    case Both => " " + l.text + "\n"
  }

  function SrcLen(lines: seq<Line>): nat {
    if lines == [] then 0 else SrcLen(lines[..|lines| - 1]) + if lines[|lines| - 1].kind in [Src, Both] then 1 else 0
  }

  function DstLen(lines: seq<Line>): nat {
    if lines == [] then 0 else DstLen(lines[..|lines| - 1]) + if lines[|lines| - 1].kind in [Dst, Both] then 1 else 0
  }

  function HeaderText(c: Chunk): string {
    "@@ -" + Decimal(c.srcPos) + "," + Decimal(SrcLen(c.lines))
      + " +" + Decimal(c.dstPos) + "," + Decimal(DstLen(c.lines)) + " @@\n"
  }

  function LinesText(lines: seq<Line>): seq<string> {
    if lines == [] then [] else LinesText(lines[..|lines| - 1]) + [LineText(lines[|lines| - 1])]
  }

  function ChunkText(c: Chunk): seq<string> {
    [HeaderText(c)] + LinesText(c.lines)
  }

  function ChunksText(chunks: seq<Chunk>): seq<string> {
    if chunks == [] then [] else ChunksText(chunks[..|chunks| - 1]) + ChunkText(chunks[|chunks| - 1])
  }

  function PatchText(p: Patch): seq<string> {
    ["--- " + p.src + "\n"] + ["+++ " + p.dst + "\n"] + ChunksText(p.chunks)
  }

  function Written(patches: seq<Patch>): seq<string> {
    if patches == [] then [] else Written(patches[..|patches| - 1]) + PatchText(patches[|patches| - 1])
  }

  // ---- which patch sets survive writing and reading ----

  /** No newline inside, and not a text that its sign would turn into a file name line. */
  predicate LineOk(l: Line) {
    && '\n' !in l.text
    && (l.kind.Src? ==> !("-- " <= l.text))
    && (l.kind.Dst? ==> !("++ " <= l.text))
  }

  ghost predicate LinesOk(lines: seq<Line>) {
    forall k :: 0 <= k < |lines| ==> LineOk(lines[k])
  }

  ghost predicate ChunksOk(chunks: seq<Chunk>) {
    forall j :: 0 <= j < |chunks| ==> LinesOk(chunks[j].lines)
  }

  ghost predicate PatchOk(p: Patch) {
    '\n' !in p.src && '\n' !in p.dst && ChunksOk(p.chunks)
  }

  ghost predicate Printable(patches: seq<Patch>) {
    forall i :: 0 <= i < |patches| ==> PatchOk(patches[i])
  }

  lemma MarkBehindSign(sign: string, mark: string, t: string)
    requires sign <= t
    ensures sign + mark <= t <==> mark <= t[|sign|..]
    ensures sign + mark <= t ==> t[|sign + mark|..] == t[|sign|..][|mark|..]
  {
    if sign + mark <= t {
      assert t[|sign|..][..|mark|] == t[..|sign + mark|][|sign|..] == mark;
    }
    if mark <= t[|sign|..] {
      assert t[..|sign + mark|] == sign + t[|sign|..][..|mark|];
    }
  }

  lemma ReadIsOk(s: string)
    ensures match Read(s)
      case SrcFile(name) => '\n' !in name
      case DstFile(name) => '\n' !in name
      case Content(line) => LineOk(line)
      case _ => true
  {
    hide ChunkHeader, RestOfLine, LineOk;
    NamesHaveNoNewline(s, "--- ");
    NamesHaveNoNewline(s, "+++ ");
    if RestOfLine(s, "--- ").None? && RestOfLine(s, "-").Some? { MinusIsOk(s); }
    if RestOfLine(s, "+++ ").None? && RestOfLine(s, "+").Some? { PlusIsOk(s); }
    if RestOfLine(s, " ").Some? { BlankIsOk(s); }
  }

  lemma NamesHaveNoNewline(s: string, prefix: string)
    ensures RestOfLine(s, prefix).Some? ==> '\n' !in RestOfLine(s, prefix).value
  {
  }

  lemma MinusIsOk(s: string)
    requires RestOfLine(s, "--- ").None? && RestOfLine(s, "-").Some?
    ensures LineOk(Line(Src, RestOfLine(s, "-").value))
  {
    MarkBehindSign("-", "-- ", StripNewline(s));
  }

  lemma PlusIsOk(s: string)
    requires RestOfLine(s, "+++ ").None? && RestOfLine(s, "+").Some?
    ensures LineOk(Line(Dst, RestOfLine(s, "+").value))
  {
    MarkBehindSign("+", "++ ", StripNewline(s));
  }

  lemma BlankIsOk(s: string)
    requires RestOfLine(s, " ").Some?
    ensures LineOk(Line(Both, RestOfLine(s, " ").value))
  {
  }

  lemma StepKeepsPrintable(r: Reader, s: string)
    requires Printable(r.patches) && Step(r, s).Some?
    ensures Printable(Step(r, s).value.patches)
  {
    ReadIsOk(s);
  }

  /** Whatever is read is printable. */
  lemma {:induction false} ParsedIsPrintable(lines: seq<string>)
    requires StepAll(Reader([], None), lines).Some?
    ensures Printable(StepAll(Reader([], None), lines).value.patches)
  {
    if lines != [] {
      ParsedIsPrintable(lines[..|lines| - 1]);
      StepKeepsPrintable(StepAll(Reader([], None), lines[..|lines| - 1]).value, lines[|lines| - 1]);
    }
  }

  // ---- reading back what was written ----

  ghost predicate Reads(r: Reader, lines: seq<string>, r': Reader) {
    StepAll(r, lines) == Some(r')
  }

  lemma {:induction false} ReadsThen(r: Reader, a: seq<string>, r': Reader, b: seq<string>, r'': Reader)
    requires Reads(r, a, r') && Reads(r', b, r'')
    ensures Reads(r, a + b, r'')
  {
    if b == [] {
      assert a + b == a;
    } else {
      var n := |b| - 1;
      assert (a + b)[..|a + b| - 1] == a + b[..n];
      ReadsThen(r, a, r', b[..n], StepAll(r', b[..n]).value);
    }
  }

  lemma ReadsNothing(r: Reader)
    ensures Reads(r, [], r)
  {
  }

  lemma ReadsOne(r: Reader, s: string, r': Reader)
    requires Step(r, s) == Some(r')
    ensures Reads(r, [s], r')
  {
    assert [s][..0] == [];
  }

  lemma OtherFirst(s: string, prefix: string)
    requires s != "" && prefix != "" && s[0] != prefix[0]
    ensures !(prefix <= s)
  {
  }

  lemma ReadContent(l: Line)
    requires LineOk(l)
    ensures Read(LineText(l)) == Content(l)
  {
    var sign := if l.kind.Src? then "-" else if l.kind.Dst? then "+" else " ";
    var s := sign + l.text + "\n";
    var t := sign + l.text;
    OtherFirst(s, "@@ -");
    match l.kind {
      case Src => MarkBehindSign("-", "-- ", t); OtherFirst(t, "+++ ");
      case Dst => MarkBehindSign("+", "++ ", t); OtherFirst(t, "--- "); OtherFirst(t, "-");
      case Both => OtherFirst(t, "--- "); OtherFirst(t, "+++ "); OtherFirst(t, "-"); OtherFirst(t, "+");
    }
  }

  lemma {:induction false} DigitsThen(s: string, rest: string)
    requires forall i :: 0 <= i < |s| ==> IsDigit(s[i])
    requires rest == "" || !IsDigit(rest[0])
    ensures DigitsLength(s + rest) == |s|
  {
    if s != "" {
      assert (s + rest)[1..] == s[1..] + rest;
      DigitsThen(s[1..], rest);
    } else {
      assert s + rest == rest;
    }
  }

  lemma NumberRead(prefix: string, n: nat, rest: string)
    requires rest == "" || !IsDigit(rest[0])
    ensures NumberAfter(prefix + (Decimal(n) + rest), prefix) == Some((n, rest))
  {
    var s := Decimal(n) + rest;
    assert (prefix + s)[|prefix|..] == s;
    DigitsThen(Decimal(n), rest);
    assert s[..|Decimal(n)|] == Decimal(n) && s[|Decimal(n)|..] == rest;
    ValueOfDecimal(n);
  }

  lemma HeaderNumbers(a: nat, b: nat, c: nat, d: nat)
    ensures ChunkHeader("@@ -" + (Decimal(a) + ("," + (Decimal(b) +
                        (" +" + (Decimal(c) + ("," + (Decimal(d) + " @@\n"))))))))
              == Some((a, c))
  {
    var s4 := " @@\n";
    var s3 := "," + (Decimal(d) + s4);
    var s2 := " +" + (Decimal(c) + s3);
    var s1 := "," + (Decimal(b) + s2);
    NumberRead("@@ -", a, s1);
    NumberRead(",", b, s2);
    NumberRead(" +", c, s3);
    NumberRead(",", d, s4);
    hide NumberAfter, Decimal;
    assert " @@" <= s4;
  }

  lemma ReadHeader(c: Chunk)
    ensures Read(HeaderText(c)) == Header(c.srcPos, c.dstPos)
  {
    hide ChunkHeader, Decimal, SrcLen, DstLen;
    var s := HeaderText(c);
    HeaderNumbers(c.srcPos, SrcLen(c.lines), c.dstPos, DstLen(c.lines));
    assert s == "@@ -" + (Decimal(c.srcPos) + ("," + (Decimal(SrcLen(c.lines)) + (" +" + (Decimal(c.dstPos) + ("," +
                (Decimal(DstLen(c.lines)) + " @@\n")))))));
    assert s[0] == '@' && |s| > 1;
    OtherFirst(StripNewline(s), "--- ");
    OtherFirst(StripNewline(s), "+++ ");
  }

  // ---- which lines read as what ----

  /** `s` is the line of `prefix` and `t`, with or without its newline. */
  ghost predicate IsLineOf(s: string, prefix: string, t: string) {
    '\n' !in t && s in [prefix + t, prefix + t + "\n"]
  }

  lemma StripIff(s: string, u: string)
    requires '\n' !in u
    ensures StripNewline(s) == u <==> s == u || s == u + "\n"
  {
    if s == u && u != "" { assert u[|u| - 1] in u; }
    if s == u + "\n" { assert s[..|s| - 1] == u; }
    if StripNewline(s) == u && s != u { assert s == s[..|s| - 1] + "\n"; }
  }

  lemma RestOfLineIff(s: string, prefix: string, t: string)
    requires '\n' !in prefix
    ensures RestOfLine(s, prefix) == Some(t) <==> IsLineOf(s, prefix, t)
  {
    hide StripNewline;
    var u := prefix + t;
    assert u[|prefix|..] == t;
    if '\n' !in t { StripIff(s, u); }
    assert Rest(StripNewline(s), prefix) == Some(t) ==> StripNewline(s) == u;
  }

  /** The six kinds of lines, in terms of their signs; a text behind a minus or a plus that would make a
      file name line is one. */
  lemma ReadIff(s: string, t: string)
    ensures Read(s) == SrcFile(t) <==> IsLineOf(s, "--- ", t)
    ensures Read(s) == DstFile(t) <==> IsLineOf(s, "+++ ", t)
    ensures Read(s) == Content(Line(Src, t)) <==> IsLineOf(s, "-", t) && !("-- " <= t)
    ensures Read(s) == Content(Line(Dst, t)) <==> IsLineOf(s, "+", t) && !("++ " <= t)
    ensures Read(s) == Content(Line(Both, t)) <==> IsLineOf(s, " ", t)
  {
    hide ChunkHeader, RestOfLine;
    FirstSign(s, "--- ");
    FirstSign(s, "+++ ");
    FirstSign(s, "-");
    FirstSign(s, "+");
    FirstSign(s, " ");
    FileNameSign(s, t, "-", "--- ", "-- ");
    FileNameSign(s, t, "+", "+++ ", "++ ");
    RestOfLineIff(s, "--- ", t);
    RestOfLineIff(s, "+++ ", t);
    RestOfLineIff(s, "-", t);
    RestOfLineIff(s, "+", t);
    RestOfLineIff(s, " ", t);
  }

  /** Lines of different kinds begin with different signs. */
  lemma FirstSign(s: string, prefix: string)
    requires prefix != "" && prefix[0] != '\n'
    ensures RestOfLine(s, prefix).Some? ==> s != "" && s[0] == prefix[0]
    ensures ChunkHeader(s).Some? ==> s != "" && s[0] == '@'
  {
    hide Number;
  }

  lemma FileNameSign(s: string, t: string, sign: string, prefix: string, mark: string)
    requires |sign| == 1 && prefix == sign + mark
    ensures RestOfLine(s, sign) == Some(t) ==> (RestOfLine(s, prefix).Some? <==> mark <= t)
  {
    var u := StripNewline(s);
    if sign <= u {
      MarkBehindSign(sign, mark, u);
    }
  }

  ghost predicate Digits(s: string) {
    s != "" && forall i :: 0 <= i < |s| ==> IsDigit(s[i])
  }

  /** A chunk header: four numbers between their signs, and any text behind them. */
  ghost predicate IsHeader(s: string, a: string, b: string, c: string, d: string, tail: string) {
    && Digits(a) && Digits(b) && Digits(c) && Digits(d)
    && s == "@@ -" + (a + ("," + (b + (" +" + (c + ("," + (d + (" @@" + tail))))))))
  }

  lemma NumberBehind(prefix: string, digits: string, rest: string)
    requires Digits(digits) && (rest == "" || !IsDigit(rest[0]))
    ensures NumberAfter(prefix + (digits + rest), prefix) == Some((Value(digits), rest))
  {
    var s := digits + rest;
    assert (prefix + s)[|prefix|..] == s;
    DigitsThen(digits, rest);
    assert s[..|digits|] == digits && s[|digits|..] == rest;
  }

  lemma NumberThere(s: string, prefix: string) returns (digits: string, rest: string)
    requires NumberAfter(s, prefix).Some?
    ensures Digits(digits) && s == prefix + (digits + rest) && NumberAfter(s, prefix) == Some((Value(digits), rest))
  {
    var u := s[|prefix|..];
    digits, rest := u[..DigitsLength(u)], u[DigitsLength(u)..];
    assert s == prefix + u && u == digits + rest;
  }

  /** A line reads as a header with these positions exactly if it is one. */
  lemma ReadHeaderIff(s: string, i: nat, j: nat)
    ensures Read(s) == Header(i, j) <==>
            exists a, b, c, d, tail :: IsHeader(s, a, b, c, d, tail) && Value(a) == i && Value(c) == j
  {
    hide NumberAfter, RestOfLine;
    FirstSign(s, "--- ");
    FirstSign(s, "+++ ");
    if a, b, c, d, tail :| IsHeader(s, a, b, c, d, tail) && Value(a) == i && Value(c) == j {
      var s4 := " @@" + tail;
      var s3 := "," + (d + s4);
      var s2 := " +" + (c + s3);
      var s1 := "," + (b + s2);
      NumberBehind("@@ -", a, s1);
      NumberBehind(",", b, s2);
      NumberBehind(" +", c, s3);
      NumberBehind(",", d, s4);
      assert " @@" <= s4;
    }
    if ChunkHeader(s) == Some((i, j)) {
      var a, s1 := NumberThere(s, "@@ -");
      var b, s2 := NumberThere(s1, ",");
      var c, s3 := NumberThere(s2, " +");
      var d, s4 := NumberThere(s3, ",");
      assert s4 == " @@" + s4[3..];
      assert IsHeader(s, a, b, c, d, s4[3..]);
    }
  }

  lemma {:induction false} SrcLenCounts(lines: seq<Line>)
    ensures SrcLen(lines) == |set k | 0 <= k < |lines| && lines[k].kind != Dst|
  {
    if lines != [] {
      var n := |lines| - 1;
      SrcLenCounts(lines[..n]);
      var before := set k | 0 <= k < n && lines[..n][k].kind != Dst;
      var all := set k | 0 <= k < |lines| && lines[k].kind != Dst;
      assert all == before + if lines[n].kind != Dst then {n} else {};
    }
  }

  lemma {:induction false} DstLenCounts(lines: seq<Line>)
    ensures DstLen(lines) == |set k | 0 <= k < |lines| && lines[k].kind != Src|
  {
    if lines != [] {
      var n := |lines| - 1;
      DstLenCounts(lines[..n]);
      var before := set k | 0 <= k < n && lines[..n][k].kind != Src;
      var all := set k | 0 <= k < |lines| && lines[k].kind != Src;
      assert all == before + if lines[n].kind != Src then {n} else {};
    }
  }

  /** A written header shows the positions and the numbers of lines in both views. */
  lemma HeaderShowsCounts(c: Chunk)
    ensures exists a, b, x, d :: IsHeader(HeaderText(c), a, b, x, d, "\n")
              && Value(a) == c.srcPos && Value(b) == |set k | 0 <= k < |c.lines| && c.lines[k].kind != Dst|
              && Value(x) == c.dstPos && Value(d) == |set k | 0 <= k < |c.lines| && c.lines[k].kind != Src|
  {
    hide Decimal, SrcLen, DstLen, Value;
    SrcLenCounts(c.lines);
    DstLenCounts(c.lines);
    var a, b, x, d := Decimal(c.srcPos), Decimal(SrcLen(c.lines)), Decimal(c.dstPos), Decimal(DstLen(c.lines));
    ValueOfDecimal(c.srcPos);
    ValueOfDecimal(SrcLen(c.lines));
    ValueOfDecimal(c.dstPos);
    ValueOfDecimal(DstLen(c.lines));
    var s4 := " @@" + "\n";
    assert HeaderText(c) == "@@ -" + (a + ("," + (b + (" +" + (x + ("," + (d + s4)))))));
    assert IsHeader(HeaderText(c), a, b, x, d, "\n");
  }

  /** The reader while chunk `c` of patch `p`, the last of each, is being read. */
  function InChunk(done: seq<Patch>, p: Patch, c: Chunk): Reader {
    Reader(done + [p.(chunks := p.chunks + [c])], Some((|done|, |p.chunks|)))
  }

  lemma {:induction false} LinesRead(done: seq<Patch>, p: Patch, c: Chunk, lines: seq<Line>)
    requires LinesOk(lines)
    ensures Reads(InChunk(done, p, c.(lines := [])), LinesText(lines), InChunk(done, p, c.(lines := lines)))
  {
    hide StepAll, Step, LineText;
    var r0 := InChunk(done, p, c.(lines := []));
    if lines == [] {
      ReadsNothing(r0);
    } else {
      var n := |lines| - 1;
      var l, before := lines[n], c.(lines := lines[..n]);
      LinesRead(done, p, c, lines[..n]);
      assert lines == lines[..n] + [l];
      ContentStep(done, p, before, l);
      ReadsOne(InChunk(done, p, before), LineText(l), InChunk(done, p, c.(lines := lines)));
      ReadsThen(r0, LinesText(lines[..n]), InChunk(done, p, before),
                [LineText(l)], InChunk(done, p, c.(lines := lines)));
    }
  }

  lemma ContentStep(done: seq<Patch>, p: Patch, c: Chunk, l: Line)
    requires LineOk(l)
    ensures Step(InChunk(done, p, c), LineText(l)) == Some(InChunk(done, p, c.(lines := c.lines + [l])))
  {
    hide Read, LineText;
    ReadContent(l);
    ContentRead(done, p, c, l);
    var q := p.(chunks := p.chunks + [c]);
    assert (done + [q])[|done|] == q;
  }

  lemma ContentRead(done: seq<Patch>, p: Patch, c: Chunk, l: Line)
    ensures AddContent(InChunk(done, p, c).patches, |done|, |p.chunks|, l)
              == InChunk(done, p, c.(lines := c.lines + [l])).patches
  {
    var q := p.(chunks := p.chunks + [c]);
    assert (done + [q])[|done|] == q && q.chunks[|p.chunks|] == c;
    assert (p.chunks + [c])[|p.chunks| := c.(lines := c.lines + [l])] == p.chunks + [c.(lines := c.lines + [l])];
  }

  lemma ChunkRead(done: seq<Patch>, p: Patch, at: Option<(nat, nat)>, c: Chunk)
    requires LinesOk(c.lines)
    ensures Reads(Reader(done + [p], at), ChunkText(c), InChunk(done, p, c))
  {
    var r, r' := Reader(done + [p], at), InChunk(done, p, c.(lines := []));
    HeaderStep(done, p, at, c);
    LinesRead(done, p, c, c.lines);
    hide StepAll, Step, HeaderText, LinesText;
    ReadsOne(r, HeaderText(c), r');
    ReadsThen(r, [HeaderText(c)], r', LinesText(c.lines), InChunk(done, p, c));
  }

  lemma HeaderStep(done: seq<Patch>, p: Patch, at: Option<(nat, nat)>, c: Chunk)
    ensures Step(Reader(done + [p], at), HeaderText(c)) == Some(InChunk(done, p, c.(lines := [])))
  {
    hide Read, HeaderText;
    ReadHeader(c);
    var p' := p.(chunks := p.chunks + [Chunk(c.srcPos, c.dstPos, [])]);
    assert (done + [p])[|done|] == p;
    assert (done + [p])[|done| := p'] == done + [p'];
  }

  lemma {:induction false} ChunksRead(done: seq<Patch>, p: Patch, at: Option<(nat, nat)>, chunks: seq<Chunk>)
    returns (at': Option<(nat, nat)>)
    requires ChunksOk(chunks)
    ensures Reads(Reader(done + [p.(chunks := [])], at), ChunksText(chunks), Reader(done + [p.(chunks := chunks)], at'))
  {
    hide StepAll, Step, ChunkText;
    if chunks == [] {
      at' := at;
      ReadsNothing(Reader(done + [p.(chunks := [])], at));
    } else {
      var n := |chunks| - 1;
      var at1 := ChunksRead(done, p, at, chunks[..n]);
      var before := p.(chunks := chunks[..n]);
      ChunkRead(done, before, at1, chunks[n]);
      assert chunks == chunks[..n] + [chunks[n]];
      ReadsThen(Reader(done + [p.(chunks := [])], at), ChunksText(chunks[..n]), Reader(done + [before], at1),
                ChunkText(chunks[n]), InChunk(done, before, chunks[n]));
      at' := InChunk(done, before, chunks[n]).at;
    }
  }

  lemma PatchRead(done: seq<Patch>, at: Option<(nat, nat)>, p: Patch) returns (at': Option<(nat, nat)>)
    requires PatchOk(p)
    ensures Reads(Reader(done, at), PatchText(p), Reader(done + [p], at'))
  {
    var r0, r1, r2 := Reader(done, at),
        Reader(done + [Patch(p.src, "", [])], at), Reader(done + [Patch(p.src, p.dst, [])], at);
    ReadsOne(r0, "--- " + p.src + "\n", r1);
    assert r1.patches[|done| := Patch(p.src, p.dst, [])] == r2.patches;
    ReadsOne(r1, "+++ " + p.dst + "\n", r2);
    ReadsThen(r0, ["--- " + p.src + "\n"], r1, ["+++ " + p.dst + "\n"], r2);
    at' := ChunksRead(done, p, at, p.chunks);
    ReadsThen(r0, ["--- " + p.src + "\n"] + ["+++ " + p.dst + "\n"], r2, ChunksText(p.chunks), Reader(done + [p], at'));
  }

  lemma {:induction false} WrittenRead(patches: seq<Patch>) returns (at: Option<(nat, nat)>)
    requires Printable(patches)
    ensures Reads(Reader([], None), Written(patches), Reader(patches, at))
  {
    hide StepAll, PatchText, PatchOk;
    if patches == [] {
      at := None;
      ReadsNothing(Reader([], None));
    } else {
      var n := |patches| - 1;
      var at1 := WrittenRead(patches[..n]);
      at := PatchRead(patches[..n], at1, patches[n]);
      assert patches == patches[..n] + [patches[n]];
      ReadsThen(Reader([], None), Written(patches[..n]), Reader(patches[..n], at1),
                PatchText(patches[n]), Reader(patches, at));
    }
  }

  // ---- the file between writing and reading ----

  function Join(lines: seq<string>): string {
    if lines == [] then "" else lines[0] + Join(lines[1..])
  }

  function LineLength(s: string): (n: nat)
    ensures n <= |s| && '\n' !in s[..n]
    ensures n < |s| ==> s[n] == '\n'
  {
    if s == "" || s[0] == '\n' then 0 else 1 + LineLength(s[1..])
  }

  /** The lines of a file, each with its newline. */
  function SplitLines(s: string): seq<string> {
    if s == "" then []
    else
      var n := LineLength(s);
      if n == |s| then [s] else [s[..n + 1]] + SplitLines(s[n + 1..])
  }

  predicate IsLine(s: string) {
    s != "" && s[|s| - 1] == '\n' && '\n' !in s[..|s| - 1]
  }

  lemma {:induction false} FirstLine(l: string, rest: string)
    requires IsLine(l)
    ensures LineLength(l + rest) == |l| - 1
  {
    if |l| > 1 {
      assert l[0] == l[..|l| - 1][0] && l[1..][..|l| - 2] == l[..|l| - 1][1..];
      assert (l + rest)[1..] == l[1..] + rest;
      FirstLine(l[1..], rest);
    }
  }

  lemma {:induction false} SplitJoined(lines: seq<string>)
    requires forall l :: l in lines ==> IsLine(l)
    ensures SplitLines(Join(lines)) == lines
  {
    hide LineLength;
    if lines != [] {
      var l, rest := lines[0], Join(lines[1..]);
      assert l in lines && forall m :: m in lines[1..] ==> m in lines;
      SplitJoined(lines[1..]);
      var s := l + rest;
      var n := LineLength(s);
      FirstLine(l, rest);
      assert s[..n + 1] == l && s[n + 1..] == rest;
    }
  }

  lemma SignedIsLine(sign: string, text: string)
    requires '\n' !in sign && '\n' !in text
    ensures IsLine(sign + text + "\n")
  {
    assert (sign + text + "\n")[..|sign + text|] == sign + text;
  }

  lemma HeaderIsLine(c: Chunk)
    ensures IsLine(HeaderText(c))
  {
    var a, b, d, e := Decimal(c.srcPos), Decimal(SrcLen(c.lines)), Decimal(c.dstPos), Decimal(DstLen(c.lines));
    hide Decimal;
    var text := a + "," + b + " +" + d + "," + e + " @@";
    SignedIsLine("@@ -", text);
    assert HeaderText(c) == "@@ -" + text + "\n";
  }

  lemma {:induction false} LinesTextAreLines(lines: seq<Line>)
    requires LinesOk(lines)
    ensures forall s :: s in LinesText(lines) ==> IsLine(s)
  {
    if lines != [] {
      var l := lines[|lines| - 1];
      LinesTextAreLines(lines[..|lines| - 1]);
      SignedIsLine(if l.kind.Src? then "-" else if l.kind.Dst? then "+" else " ", l.text);
    }
  }

  lemma {:induction false} ChunksTextAreLines(chunks: seq<Chunk>)
    requires ChunksOk(chunks)
    ensures forall s :: s in ChunksText(chunks) ==> IsLine(s)
  {
    hide HeaderText, LinesText, IsLine;
    if chunks != [] {
      ChunksTextAreLines(chunks[..|chunks| - 1]);
      HeaderIsLine(chunks[|chunks| - 1]);
      LinesTextAreLines(chunks[|chunks| - 1].lines);
    }
  }

  lemma {:induction false} WrittenAreLines(patches: seq<Patch>)
    requires Printable(patches)
    ensures forall s :: s in Written(patches) ==> IsLine(s)
  {
    hide ChunksText, IsLine;
    if patches != [] {
      var p := patches[|patches| - 1];
      WrittenAreLines(patches[..|patches| - 1]);
      SignedIsLine("--- ", p.src);
      SignedIsLine("+++ ", p.dst);
      ChunksTextAreLines(p.chunks);
    }
  }

  /** What comes back when a patch set is written to a file and the file is parsed. */
  function ReadBack(patches: seq<Patch>): Option<seq<Patch>> {
    Parsed(SplitLines(Join(Written(patches))))
  }

  /** Reading back what was written gives the same patch set exactly when no text contains a
      newline, no removed text starts with "-- " and no added text starts with "++ ". */
  lemma RoundTripIff(patches: seq<Patch>)
    ensures ReadBack(patches) == Some(patches) <==> Printable(patches)
  {
    if Printable(patches) {
      WrittenAreLines(patches);
      SplitJoined(Written(patches));
      var at := WrittenRead(patches);
    }
    if ReadBack(patches) == Some(patches) {
      ParsedIsPrintable(SplitLines(Join(Written(patches))));
    }
  }

  /** Writing what was read and reading it again changes nothing, so a second writing gives the
      same text as the first. */
  lemma WriteAfterParseIsStable(lines: seq<string>)
    requires Parsed(lines).Some?
    ensures ReadBack(Parsed(lines).value) == Parsed(lines)
  {
    ParsedIsPrintable(lines);
    RoundTripIff(Parsed(lines).value);
  }
}
