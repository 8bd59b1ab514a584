/** When the output of a gathering names a path twice. The clean-up behind the gathering works on
    a copy, so what is repeated stays so. */
module RepeatedPaths {
  import opened Sequences
  import opened Introspection

  ghost function EndOf(reg: Registry, aggs: Aggregates, from: TypeId, walk: Walk): (r: TypeId)
    requires Closed(reg, aggs) && from in reg.types && IsWalk(reg, aggs, from, walk)
    ensures r in reg.types
    decreases |walk|
  {
    if walk == [] then from
    else
      LinksIn(reg, aggs, from);
      EndOf(reg, aggs, Links(reg, aggs, from)[walk[0]].target, walk[1..])
  }

  /** What a gathering from `root` into an empty record leaves there. */
  ghost function Gathered(reg: Registry, aggs: Aggregates, root: TypeId): seq<(TypeId, string)>
    requires Closed(reg, aggs) && root in reg.types
  {
    Outputs(reg, aggs, root, [], Walks(reg, aggs, root, []))
  }

  /** A simple walk that avoids `avoid` leads to a type that lists the same link twice, at the
      places `i` and `j`, and the link leads off the walk. */
  ghost predicate LinkRepeated(reg: Registry, aggs: Aggregates, from: TypeId, avoid: set<TypeId>, walk: Walk,
                               i: nat, j: nat)
    requires Closed(reg, aggs) && from in reg.types
  {
    && SimpleWalk(reg, aggs, from, avoid, walk)
    && var links := Links(reg, aggs, EndOf(reg, aggs, from, walk));
       && i < j < |links| && links[i] == links[j]
       && links[i].target !in avoid && links[i].target !in Visits(reg, aggs, from, walk)
  }

  // ---- a repeated link repeats an entry ----

  /** One more link at the end of a walk. */
  lemma {:induction false} Extend(reg: Registry, aggs: Aggregates, from: TypeId, walk: Walk, i: nat)
    requires Closed(reg, aggs) && from in reg.types && IsWalk(reg, aggs, from, walk)
    requires i < |Links(reg, aggs, EndOf(reg, aggs, from, walk))|
    ensures var l := Links(reg, aggs, EndOf(reg, aggs, from, walk))[i];
      && IsWalk(reg, aggs, from, walk + [i])
      && Visits(reg, aggs, from, walk + [i]) == Visits(reg, aggs, from, walk) + [l.target]
      && Labels(reg, aggs, from, walk + [i]) == Labels(reg, aggs, from, walk) + [l.segment]
    decreases |walk|
  {
    hide Links, TargetsRegistered;
    LinkTarget(reg, aggs, EndOf(reg, aggs, from, walk), i);
    if walk == [] {
      assert (walk + [i])[1..] == [];
    } else {
      LinkTarget(reg, aggs, from, walk[0]);
      assert (walk + [i])[1..] == walk[1..] + [i];
      Extend(reg, aggs, Links(reg, aggs, from)[walk[0]].target, walk[1..], i);
    }
  }

  lemma RepeatedLinkRepeats(reg: Registry, aggs: Aggregates, root: TypeId, walk: Walk, i: nat, j: nat)
    requires Closed(reg, aggs) && root in reg.types && LinkRepeated(reg, aggs, root, {}, walk, i, j)
    ensures !NoDup(Gathered(reg, aggs, root))
  {
    hide Links, TargetsRegistered, IsWalk, Visits, Walks, AreWalks;
    var w, v := walk + [i], walk + [j];
    Extend(reg, aggs, root, walk, i);
    Extend(reg, aggs, root, walk, j);
    var target := Links(reg, aggs, EndOf(reg, aggs, root, walk))[i].target;
    NoDupSnoc(Visits(reg, aggs, root, walk), target);
    ElemsSnoc(Visits(reg, aggs, root, walk), target);
    assert w[|walk|] != v[|walk|];
    SameEntryTwice(reg, aggs, root, w, v);
  }

  lemma SameEntryTwice(reg: Registry, aggs: Aggregates, root: TypeId, w: Walk, v: Walk)
    requires Closed(reg, aggs) && root in reg.types && w != v
    requires SimpleWalk(reg, aggs, root, {}, w) && SimpleWalk(reg, aggs, root, {}, v)
    requires Entry(reg, aggs, root, [], w) == Entry(reg, aggs, root, [], v)
    ensures !NoDup(Gathered(reg, aggs, root))
  {
    hide Links, TargetsRegistered, IsWalk, Visits, Walks, AreWalks, SimpleWalk, Entry;
    var walks, output := Walks(reg, aggs, root, []), Gathered(reg, aggs, root);
    assert Elems<TypeId>([]) == {};
    WalksExact(reg, aggs, root, [], w);
    WalksExact(reg, aggs, root, [], v);
    var m :| 0 <= m < |walks| && walks[m] == w;
    var n :| 0 <= n < |walks| && walks[n] == v;
    assert output[m] == output[n];
    assert output[if m < n then m else n] == output[if m < n then n else m];
  }

  // ---- and nothing else does, where names can be told apart ----

  predicate PlainName(name: string) {
    '/' !in name && name != "[i]" && (name == "" || name[0] != '$')
  }

  /** How names are given: types have names of their own, so have the attributes of a type, and no
      name contains a slash or looks like a segment that the gathering makes itself. */
  ghost predicate WellNamed(reg: Registry)
    requires reg.names.Keys == reg.attributes.Keys == reg.types
  {
    && (forall s, t :: s in reg.types && t in reg.types && reg.names[s] == reg.names[t] ==> s == t)
    && (forall t :: t in reg.types ==> '/' !in reg.names[t])
    && (forall t, i :: t in reg.types && 0 <= i < |reg.attributes[t]| ==> PlainName(reg.attributes[t][i].name))
    && (forall t, i, j :: t in reg.types && 0 <= i < j < |reg.attributes[t]| ==>
          reg.attributes[t][i].name != reg.attributes[t][j].name)
  }

  /** A segment that a slash in front of it sets off: it has none, or it is an item of a container. */
  ghost predicate Segment(s: string) {
    ('/' !in s && s != "[i]") || exists name :: '/' !in name && s == name + "/[i]"
  }

  lemma SameTail(a: string, s: string, b: string, t: string)
    requires a + "/" + s == b + "/" + t && '/' !in s && '/' !in t
    ensures a == b && s == t
  {
    var u := a + "/" + s;
    assert u[|a|] == '/' && u[|b|] == '/';
    forall k | |a| < k < |u| ensures u[k] != '/' {
      assert u[k] == s[k - |a| - 1];
    }
    forall k | |b| < k < |u| ensures u[k] != '/' {
      assert u[k] == t[k - |b| - 1];
    }
    assert a == u[..|a|] && b == u[..|b|] && s == u[|a| + 1..] && t == u[|b| + 1..];
  }

  lemma SameSegment(a: string, s: string, b: string, t: string)
    requires a + "/" + s == b + "/" + t && Segment(s) && Segment(t)
    ensures a == b && s == t
  {
    if '/' in s {
      var m :| '/' !in m && s == m + "/[i]";
      assert a + "/" + s == (a + "/" + m) + "/" + "[i]";
      if '/' in t {
        var n :| '/' !in n && t == n + "/[i]";
        assert b + "/" + t == (b + "/" + n) + "/" + "[i]";
        SameTail(a + "/" + m, "[i]", b + "/" + n, "[i]");
        SameTail(a, m, b, n);
      } else {
        SameTail(a + "/" + m, "[i]", b, t);
      }
    } else if '/' in t {
      var n :| '/' !in n && t == n + "/[i]";
      assert b + "/" + t == (b + "/" + n) + "/" + "[i]";
      SameTail(a, s, b + "/" + n, "[i]");
    } else {
      SameTail(a, s, b, t);
    }
  }

  /** A rendered path can be read in one way only. */
  lemma {:induction false} RenderOnce(a: seq<string>, b: seq<string>)
    requires forall s :: s in a ==> Segment(s)
    requires forall s :: s in b ==> Segment(s)
    requires Render(a) == Render(b)
    ensures a == b
  {
    if a != [] && b != [] {
      var m, n := |a| - 1, |b| - 1;
      SameSegment(Render(a[..m]), a[m], Render(b[..n]), b[n]);
      RenderOnce(a[..m], b[..n]);
      assert a == a[..m] + [a[m]] && b == b[..n] + [b[n]];
    }
  }

  // ---- where the links of a type come from ----

  ghost predicate AttributeLinkAt(reg: Registry, tid: TypeId, m: nat, l: Link)
    requires tid in reg.attributes
  {
    m < |reg.attributes[tid]| && AttributeLink(reg, reg.attributes[tid][m]) == [l]
  }

  lemma LinkFrom(reg: Registry, aggs: Aggregates, tid: TypeId, k: nat)
    requires tid in reg.attributes && k < |Links(reg, aggs, tid)|
    ensures var l := Links(reg, aggs, tid)[k]; Named(reg, l) || exists m: nat :: AttributeLinkAt(reg, tid, m, l)
  {
    hide Links, Named, AttributeLink;
    var l := Links(reg, aggs, tid)[k];
    LinkIff(reg, aggs, tid, l);
    if a :| a in reg.attributes[tid] && GivenByAttribute(reg, a, l) {
      AttributeLinkIff(reg, a);
      var m :| 0 <= m < |reg.attributes[tid]| && reg.attributes[tid][m] == a;
      assert AttributeLinkAt(reg, tid, m, l);
    }
  }

  lemma LinkSegment(reg: Registry, aggs: Aggregates, tid: TypeId, k: nat)
    requires Closed(reg, aggs) && WellNamed(reg) && tid in reg.types && k < |Links(reg, aggs, tid)|
    ensures Segment(Links(reg, aggs, tid)[k].segment)
  {
    hide Links, TargetsRegistered;
    LinkFrom(reg, aggs, tid, k);
    var l := Links(reg, aggs, tid)[k];
    if Named(reg, l) {
      assert l.segment[0] == '$' && '/' !in l.segment;
    } else {
      var m: nat :| AttributeLinkAt(reg, tid, m, l);
      assert PlainName(reg.attributes[tid][m].name);
    }
  }

  /** The segment of an attribute shows its name, and cannot be taken for the name of a type. */
  lemma AttributeSegment(reg: Registry, aggs: Aggregates, tid: TypeId, m: nat, l: Link)
    requires Closed(reg, aggs) && WellNamed(reg) && tid in reg.types && AttributeLinkAt(reg, tid, m, l)
    ensures var name := reg.attributes[tid][m].name;
      PlainName(name) && l.segment in [name, name + "/[i]"] && !("$" <= l.segment)
  {
    hide TargetsRegistered;
    var name := reg.attributes[tid][m].name;
    assert PlainName(name);
    assert name != "" ==> l.segment[0] == name[0];
    var item := "/[i]";
    assert item[0] == '/' && (name == "" ==> name + item == item);
  }

  lemma NamedIff(reg: Registry, aggs: Aggregates, tid: TypeId, k: nat)
    requires Closed(reg, aggs) && WellNamed(reg) && tid in reg.types && k < |Links(reg, aggs, tid)|
    ensures Named(reg, Links(reg, aggs, tid)[k]) <==> "$" <= Links(reg, aggs, tid)[k].segment
    ensures Named(reg, Links(reg, aggs, tid)[k]) ||
            exists m: nat :: AttributeLinkAt(reg, tid, m, Links(reg, aggs, tid)[k])
  {
    hide Links, TargetsRegistered, WellNamed, PlainName, AttributeLinkAt;
    LinkFrom(reg, aggs, tid, k);
    if m: nat :| AttributeLinkAt(reg, tid, m, Links(reg, aggs, tid)[k]) {
      AttributeSegment(reg, aggs, tid, m, Links(reg, aggs, tid)[k]);
    }
  }

  lemma SameName(a: string, b: string, s: string)
    requires '/' !in a && '/' !in b && s in [a, a + "/[i]"] && s in [b, b + "/[i]"]
    ensures a == b
  {
    var tail := "/[i]";
    assert tail[0] == '/';
    assert a == (a + tail)[..|a|] && b == (b + tail)[..|b|];
    assert a + tail == a + "/" + "[i]" && b + tail == b + "/" + "[i]";
    if a + tail == b + tail {
      SameTail(a, "[i]", b, "[i]");
    }
    assert (a + tail)[|a|] == '/' && (b + tail)[|b|] == '/';
  }

  /** Under one type a segment stands for one link. */
  lemma SegmentFixesLink(reg: Registry, aggs: Aggregates, tid: TypeId, i: nat, j: nat)
    requires Closed(reg, aggs) && WellNamed(reg) && tid in reg.types
    requires i < |Links(reg, aggs, tid)| && j < |Links(reg, aggs, tid)|
    requires Links(reg, aggs, tid)[i].segment == Links(reg, aggs, tid)[j].segment
    ensures Links(reg, aggs, tid)[i] == Links(reg, aggs, tid)[j]
  {
    hide Links, TargetsRegistered;
    NamedIff(reg, aggs, tid, i);
    NamedIff(reg, aggs, tid, j);
    var l, l' := Links(reg, aggs, tid)[i], Links(reg, aggs, tid)[j];
    if Named(reg, l) {
      assert l.segment[1..] == reg.names[l.target] && l'.segment[1..] == reg.names[l'.target];
      LinkTarget(reg, aggs, tid, i);
      LinkTarget(reg, aggs, tid, j);
    } else {
      var m: nat :| AttributeLinkAt(reg, tid, m, l);
      var n: nat :| AttributeLinkAt(reg, tid, n, l');
      AttributeSegment(reg, aggs, tid, m, l);
      AttributeSegment(reg, aggs, tid, n, l');
      SameName(reg.attributes[tid][m].name, reg.attributes[tid][n].name, l.segment);
    }
  }

  // ---- two walks with the same entry ----

  lemma {:induction false} LabelsAreSegments(reg: Registry, aggs: Aggregates, from: TypeId, walk: Walk)
    requires Closed(reg, aggs) && WellNamed(reg) && from in reg.types && IsWalk(reg, aggs, from, walk)
    ensures forall s :: s in Labels(reg, aggs, from, walk) ==> Segment(s)
    decreases |walk|
  {
    hide Links, TargetsRegistered, WellNamed, Segment;
    if walk != [] {
      LinkTarget(reg, aggs, from, walk[0]);
      LinkSegment(reg, aggs, from, walk[0]);
      LabelsAreSegments(reg, aggs, Links(reg, aggs, from)[walk[0]].target, walk[1..]);
    }
  }

  lemma {:induction false} LabelCount(reg: Registry, aggs: Aggregates, from: TypeId, walk: Walk)
    requires Closed(reg, aggs) && from in reg.types && IsWalk(reg, aggs, from, walk)
    ensures |Labels(reg, aggs, from, walk)| == |walk|
    decreases |walk|
  {
    hide Links, TargetsRegistered;
    if walk != [] {
      LinkTarget(reg, aggs, from, walk[0]);
      LabelCount(reg, aggs, Links(reg, aggs, from)[walk[0]].target, walk[1..]);
    }
  }

  lemma StartIsFree(reg: Registry, aggs: Aggregates, from: TypeId, avoid: set<TypeId>, walk: Walk)
    requires Closed(reg, aggs) && from in reg.types && SimpleWalk(reg, aggs, from, avoid, walk)
    ensures IsWalk(reg, aggs, from, walk) && from !in avoid && SimpleWalk(reg, aggs, from, avoid, [])
  {
    hide Links, TargetsRegistered;
    assert Visits(reg, aggs, from, walk)[0] in Elems(Visits(reg, aggs, from, walk));
    assert Visits(reg, aggs, from, []) == [from];
  }

  /** A repeated link behind link `k` is one behind the start. */
  lemma RepeatedBehind(reg: Registry, aggs: Aggregates, from: TypeId, avoid: set<TypeId>, k: nat,
                       walk: Walk, i: nat, j: nat)
    requires Closed(reg, aggs) && from in reg.types && from !in avoid && k < |Links(reg, aggs, from)|
    requires Links(reg, aggs, from)[k].target in reg.types
    requires LinkRepeated(reg, aggs, Links(reg, aggs, from)[k].target, avoid + {from}, walk, i, j)
    ensures LinkRepeated(reg, aggs, from, avoid, [k] + walk, i, j)
  {
    hide Links, TargetsRegistered, SimpleWalk;
    StartIsFree(reg, aggs, Links(reg, aggs, from)[k].target, avoid + {from}, walk);
    assert ([k] + walk)[1..] == walk;
    SimpleWalkStep(reg, aggs, from, avoid, [k] + walk);
    assert IsWalk(reg, aggs, from, [k] + walk);
  }

  /** Two simple walks with the same labels go together until one type lists the same link twice. */
  lemma {:induction false} WalksPart(reg: Registry, aggs: Aggregates, from: TypeId, avoid: set<TypeId>,
                                     w: Walk, v: Walk)
    requires Closed(reg, aggs) && WellNamed(reg) && from in reg.types && w != v
    requires SimpleWalk(reg, aggs, from, avoid, w) && SimpleWalk(reg, aggs, from, avoid, v)
    requires Labels(reg, aggs, from, w) == Labels(reg, aggs, from, v)
    ensures exists walk, i, j :: LinkRepeated(reg, aggs, from, avoid, walk, i, j)
    decreases |w|
  {
    hide Links, TargetsRegistered, WellNamed, SimpleWalk;
    StartIsFree(reg, aggs, from, avoid, w);
    StartIsFree(reg, aggs, from, avoid, v);
    LabelCount(reg, aggs, from, w);
    LabelCount(reg, aggs, from, v);
    LinkTarget(reg, aggs, from, w[0]);
    LinkTarget(reg, aggs, from, v[0]);
    SimpleWalkStep(reg, aggs, from, avoid, w);
    SimpleWalkStep(reg, aggs, from, avoid, v);
    var l := Links(reg, aggs, from)[w[0]];
    assert Labels(reg, aggs, from, w)[0] == Labels(reg, aggs, from, v)[0];
    assert Labels(reg, aggs, from, w)[1..] == Labels(reg, aggs, from, v)[1..];
    SegmentFixesLink(reg, aggs, from, w[0], v[0]);
    if w[0] == v[0] {
      assert w[1..] != v[1..];
      WalksPart(reg, aggs, l.target, avoid + {from}, w[1..], v[1..]);
      var walk, i, j :| LinkRepeated(reg, aggs, l.target, avoid + {from}, walk, i, j);
      RepeatedBehind(reg, aggs, from, avoid, w[0], walk, i, j);
    } else {
      StartIsFree(reg, aggs, l.target, avoid + {from}, w[1..]);
      var i, j := if w[0] < v[0] then w[0] else v[0], if w[0] < v[0] then v[0] else w[0];
      assert LinkRepeated(reg, aggs, from, avoid, [], i, j);
    }
  }

  /** Where names can be told apart, the output of a gathering has an entry twice exactly when some
      type lists the same link twice and a simple walk leads to it that has not met the link's
      target. */
  lemma RepeatedIff(reg: Registry, aggs: Aggregates, root: TypeId)
    requires Closed(reg, aggs) && WellNamed(reg) && root in reg.types
    ensures !NoDup(Gathered(reg, aggs, root)) <==>
            exists walk, i, j :: LinkRepeated(reg, aggs, root, {}, walk, i, j)
  {
    hide Links, TargetsRegistered, WellNamed, Walks, LinkRepeated, SimpleWalk, Visits;
    if walk: Walk, i: nat, j: nat :| LinkRepeated(reg, aggs, root, {}, walk, i, j) {
      RepeatedLinkRepeats(reg, aggs, root, walk, i, j);
    }
    var walks, output := Walks(reg, aggs, root, []), Gathered(reg, aggs, root);
    if !NoDup(output) {
      var m, n :| 0 <= m < n < |output| && output[m] == output[n];
      var w, v := walks[m], walks[n];
      assert Elems<TypeId>([]) == {};
      assert w in walks && v in walks;
      WalksExact(reg, aggs, root, [], w);
      WalksExact(reg, aggs, root, [], v);
      WalksOnce(reg, aggs, root, []);
      SameLabels(reg, aggs, root, root, w, v);
      WalksPart(reg, aggs, root, {}, w, v);
    }
  }

  lemma {:induction false} EndIsLast(reg: Registry, aggs: Aggregates, from: TypeId, walk: Walk)
    requires Closed(reg, aggs) && from in reg.types && IsWalk(reg, aggs, from, walk)
    ensures Visits(reg, aggs, from, walk)[|walk|] == EndOf(reg, aggs, from, walk)
    decreases |walk|
  {
    hide Links, TargetsRegistered;
    if walk != [] {
      LinkTarget(reg, aggs, from, walk[0]);
      EndIsLast(reg, aggs, Links(reg, aggs, from)[walk[0]].target, walk[1..]);
    }
  }

  /** Walks from two roots with the same entry have the same labels and end at the same type. */
  lemma SameLabels(reg: Registry, aggs: Aggregates, a: TypeId, b: TypeId, w: Walk, v: Walk)
    requires Closed(reg, aggs) && WellNamed(reg) && a in reg.types && b in reg.types
    requires IsWalk(reg, aggs, a, w) && IsWalk(reg, aggs, b, v)
    ensures Entry(reg, aggs, a, [], w) == Entry(reg, aggs, b, [], v) <==>
            Labels(reg, aggs, a, w) == Labels(reg, aggs, b, v) && EndOf(reg, aggs, a, w) == EndOf(reg, aggs, b, v)
  {
    hide Links, TargetsRegistered, WellNamed, Labels, IsWalk, Visits, Segment, Render;
    LabelsAreSegments(reg, aggs, a, w);
    LabelsAreSegments(reg, aggs, b, v);
    EndIsLast(reg, aggs, a, w);
    EndIsLast(reg, aggs, b, v);
    var s, t := Labels(reg, aggs, a, w), Labels(reg, aggs, b, v);
    assert [] + s == s && [] + t == t;
    if Render(s) == Render(t) { RenderOnce(s, t); }
  }

  // ---- several roots ----

  ghost predicate Roots(reg: Registry, roots: seq<TypeId>) {
    forall root :: root in roots ==> root in reg.types
  }

  /** What gathering from one root after the other leaves in an empty record. */
  ghost function GatheredAll(reg: Registry, aggs: Aggregates, roots: seq<TypeId>): seq<(TypeId, string)>
    requires Closed(reg, aggs) && Roots(reg, roots)
  {
    if roots == [] then []
    else GatheredAll(reg, aggs, roots[..|roots| - 1]) + Gathered(reg, aggs, roots[|roots| - 1])
  }

  /** The program gathers from every root namespace object in turn. */
  method GatherRoots(info: StaticInformation, roots: seq<TypeId>)
    requires info.Valid() && Roots(info.registry, roots)
    requires info.alreadyProcessed == [] && info.currentPath == []
    modifies info`currentPath, info`alreadyProcessed, info`output
    ensures info.alreadyProcessed == [] && info.currentPath == []
    ensures info.output == old(info.output) + GatheredAll(info.registry, info.aggregates, roots)
  {
    hide TargetsRegistered, Gathered, Walks, Outputs, AreWalks, IsWalk, Links;
    for i := 0 to |roots|
      invariant info.alreadyProcessed == [] && info.currentPath == []
      invariant Roots(info.registry, roots[..i])
      invariant info.output == old(info.output) + GatheredAll(info.registry, info.aggregates, roots[..i])
    {
      assert roots[..i + 1][..i] == roots[..i];
      GatheredIs(info.registry, info.aggregates, roots[i]);
      info.Gather(roots[i]);
    }
    assert roots[..|roots|] == roots;
  }

  lemma GatheredIs(reg: Registry, aggs: Aggregates, root: TypeId)
    requires Closed(reg, aggs) && root in reg.types
    ensures Gathered(reg, aggs, root) == Outputs(reg, aggs, root, [], Walks(reg, aggs, root, []))
  {
  }

  /** Some type is reached from both roots under the same labels. */
  ghost predicate PathShared(reg: Registry, aggs: Aggregates, a: TypeId, b: TypeId)
    requires Closed(reg, aggs) && a in reg.types && b in reg.types
  {
    exists w, v :: SimpleWalk(reg, aggs, a, {}, w) && SimpleWalk(reg, aggs, b, {}, v) &&
      Labels(reg, aggs, a, w) == Labels(reg, aggs, b, v) && EndOf(reg, aggs, a, w) == EndOf(reg, aggs, b, v)
  }

  lemma EntrySharedIff(reg: Registry, aggs: Aggregates, a: TypeId, b: TypeId)
    requires Closed(reg, aggs) && WellNamed(reg) && a in reg.types && b in reg.types
    ensures (exists e :: e in Gathered(reg, aggs, a) && e in Gathered(reg, aggs, b)) <==> PathShared(reg, aggs, a, b)
  {
    hide Links, TargetsRegistered, WellNamed, Labels, IsWalk, Visits, Walks, Outputs, Entry;
    if e :| e in Gathered(reg, aggs, a) && e in Gathered(reg, aggs, b) {
      RecordedIff(reg, aggs, a, e);
      RecordedIff(reg, aggs, b, e);
      var w :| SimpleWalk(reg, aggs, a, {}, w) && Entry(reg, aggs, a, [], w) == e;
      var v :| SimpleWalk(reg, aggs, b, {}, v) && Entry(reg, aggs, b, [], v) == e;
      SameLabels(reg, aggs, a, b, w, v);
    }
    if PathShared(reg, aggs, a, b) {
      var w, v :| SimpleWalk(reg, aggs, a, {}, w) && SimpleWalk(reg, aggs, b, {}, v) &&
        Labels(reg, aggs, a, w) == Labels(reg, aggs, b, v) && EndOf(reg, aggs, a, w) == EndOf(reg, aggs, b, v);
      SameLabels(reg, aggs, a, b, w, v);
      var e := Entry(reg, aggs, a, [], w);
      RecordedIff(reg, aggs, a, e);
      RecordedIff(reg, aggs, b, e);
      assert e in Gathered(reg, aggs, a) && e in Gathered(reg, aggs, b);
    }
  }

  lemma {:induction false} InAll(reg: Registry, aggs: Aggregates, roots: seq<TypeId>, e: (TypeId, string))
    requires Closed(reg, aggs) && Roots(reg, roots)
    ensures e in GatheredAll(reg, aggs, roots) <==> exists root :: root in roots && e in Gathered(reg, aggs, root)
  {
    hide TargetsRegistered, Gathered;
    if roots != [] {
      var front, last := roots[..|roots| - 1], roots[|roots| - 1];
      InAll(reg, aggs, front, e);
      assert roots == front + [last];
    }
  }

  lemma RepeatedConcat<T(!new)>(s: seq<T>, t: seq<T>)
    ensures !NoDup(s + t) <==> !NoDup(s) || !NoDup(t) || exists x :: x in s && x in t
  {
    if NoDup(s) && NoDup(t) && !(exists x :: x in s && x in t) {
      NoDupConcat(s, t);
    }
    if x :| x in s && x in t {
      var i :| 0 <= i < |s| && s[i] == x;
      var j :| 0 <= j < |t| && t[j] == x;
      assert (s + t)[i] == (s + t)[|s| + j];
    }
    if i, j :| 0 <= i < j < |t| && t[i] == t[j] {
      assert (s + t)[|s| + i] == (s + t)[|s| + j];
    }
    if i, j :| 0 <= i < j < |s| && s[i] == s[j] {
      assert (s + t)[i] == (s + t)[j];
    }
  }

  /** A gathering follows a repeated link, or two of them share a path. */
  ghost predicate Repeats(reg: Registry, aggs: Aggregates, roots: seq<TypeId>)
    requires Closed(reg, aggs) && Roots(reg, roots)
  {
    || (exists root, walk, i, j :: root in roots && LinkRepeated(reg, aggs, root, {}, walk, i, j))
    || (exists m, n :: 0 <= m < n < |roots| && PathShared(reg, aggs, roots[m], roots[n]))
  }

  /** One more root repeats something by itself or together with an earlier one. */
  lemma RepeatsSnoc(reg: Registry, aggs: Aggregates, roots: seq<TypeId>, last: TypeId)
    requires Closed(reg, aggs) && Roots(reg, roots) && last in reg.types
    ensures Roots(reg, roots + [last])
    ensures Repeats(reg, aggs, roots + [last]) <==>
      || Repeats(reg, aggs, roots)
      || (exists walk, i, j :: LinkRepeated(reg, aggs, last, {}, walk, i, j))
      || (exists root :: root in roots && PathShared(reg, aggs, root, last))
  {
    hide TargetsRegistered, LinkRepeated, PathShared;
    var all := roots + [last];
    assert forall m :: 0 <= m < |roots| ==> all[m] == roots[m];
    if m, n :| 0 <= m < n < |all| && PathShared(reg, aggs, all[m], all[n]) {
      assert all[m] in roots;
    }
    if m, n :| 0 <= m < n < |roots| && PathShared(reg, aggs, roots[m], roots[n]) {
      assert PathShared(reg, aggs, all[m], all[n]);
    }
    if root :| root in roots && PathShared(reg, aggs, root, last) {
      var m :| 0 <= m < |roots| && roots[m] == root;
      assert PathShared(reg, aggs, all[m], all[|roots|]);
    }
  }

  /** Where names can be told apart, the record of all roots has an entry twice exactly when one of the
      gatherings repeats an entry, or two of them, possibly from the same root, share a path. */
  lemma {:induction false} RootsRepeatIff(reg: Registry, aggs: Aggregates, roots: seq<TypeId>)
    requires Closed(reg, aggs) && WellNamed(reg) && Roots(reg, roots)
    ensures !NoDup(GatheredAll(reg, aggs, roots)) <==> Repeats(reg, aggs, roots)
  {
    hide TargetsRegistered, WellNamed, LinkRepeated, PathShared, Gathered, Repeats;
    if roots == [] {
      NoRoots(reg, aggs);
    } else {
      var front, last := roots[..|roots| - 1], roots[|roots| - 1];
      RootsRepeatIff(reg, aggs, front);
      RepeatedIff(reg, aggs, last);
      RepeatsSnoc(reg, aggs, front, last);
      assert front + [last] == roots;
      var earlier, new' := GatheredAll(reg, aggs, front), Gathered(reg, aggs, last);
      RepeatedConcat(earlier, new');
      if e :| e in earlier && e in new' {
        InAll(reg, aggs, front, e);
        var root :| root in front && e in Gathered(reg, aggs, root);
        EntrySharedIff(reg, aggs, root, last);
      }
      if root :| root in front && PathShared(reg, aggs, root, last) {
        EntrySharedIff(reg, aggs, root, last);
        var e :| e in Gathered(reg, aggs, root) && e in new';
        InAll(reg, aggs, front, e);
      }
    }
  }

  lemma NoRoots(reg: Registry, aggs: Aggregates)
    requires Closed(reg, aggs)
    ensures !Repeats(reg, aggs, [])
  {
  }

  // ---- registering an aggregation twice ----

  /** A pair of types that is registered twice gives each of them the same link twice. */
  lemma LinkedTwice(reg: Registry, aggs: Aggregates, tid: TypeId, m: nat, n: nat)
    requires Closed(reg, aggs) && tid in reg.types && m < n < |aggs| && aggs[m] == aggs[n]
    requires aggs[m].0 == tid || aggs[m].1 == tid
    ensures exists i: nat, j: nat :: i < j < |Links(reg, aggs, tid)| &&
              [Links(reg, aggs, tid)[i]] == [Links(reg, aggs, tid)[j]] == AggregateLink(reg, tid, aggs[m])
  {
    hide Links, TargetsRegistered;
    Domains(reg, aggs);
    AggregateAt(reg, aggs, tid, m);
    AggregateAt(reg, aggs, tid, n);
    var before := |AttributeLinks(reg, reg.attributes[tid])| + |ChildLinks(reg, tid, reg.registered)|;
    var i, j := before + |AggregateLinks(reg, tid, aggs[..m])|, before + |AggregateLinks(reg, tid, aggs[..n])|;
    AggregatePrefix(reg, tid, aggs[..n], m + 1);
    assert aggs[..n][..m + 1] == aggs[..m + 1];
    var links := Links(reg, aggs, tid);
    assert AggregateLink(reg, tid, aggs[m]) == [links[i..][0]] == [links[j..][0]];
  }

  /** So every root with a simple walk to the one that has not met the other records the path to
      it twice. */
  lemma RegisteredTwice(reg: Registry, aggs: Aggregates, root: TypeId, walk: Walk, m: nat, n: nat)
    requires Closed(reg, aggs) && root in reg.types && SimpleWalk(reg, aggs, root, {}, walk)
    requires m < n < |aggs| && aggs[m] == aggs[n]
    requires var end, visits := EndOf(reg, aggs, root, walk), Visits(reg, aggs, root, walk);
      (aggs[m].0 == end && aggs[m].1 !in visits) || (aggs[m].1 == end && aggs[m].0 !in visits)
    ensures !NoDup(Gathered(reg, aggs, root))
  {
    hide Links, TargetsRegistered, SimpleWalk, Visits, IsWalk, Gathered;
    StartIsFree(reg, aggs, root, {}, walk);
    EndIsLast(reg, aggs, root, walk);
    var end := EndOf(reg, aggs, root, walk);
    LinkedTwice(reg, aggs, end, m, n);
    var links := Links(reg, aggs, end);
    var i: nat, j: nat :| i < j < |links| && [links[i]] == [links[j]] == AggregateLink(reg, end, aggs[m]);
    assert LinkRepeated(reg, aggs, root, {}, walk, i, j);
    RepeatedLinkRepeats(reg, aggs, root, walk, i, j);
  }
}
