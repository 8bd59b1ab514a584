/** Gathering the configuration paths of the registered types: a walk over pointer, container,
    child and aggregation links that never revisits a type on its own path. */
module Introspection {
  import opened Wrappers
  import opened Sequences

  type TypeId(==, !new)

  datatype Attribute =
    | Pointer(name: string, pointee: TypeId)
    | Container(name: string, item: TypeId)
    | Plain(name: string)

  /** The type registry; `descends` holds the pairs (child, ancestor). */
  datatype Registry = Registry(types: set<TypeId>, names: map<TypeId, string>,
                               attributes: map<TypeId, seq<Attribute>>, registered: seq<TypeId>,
                               descends: set<(TypeId, TypeId)>, objectType: TypeId)

  type Aggregates = seq<(TypeId, TypeId)>

  datatype Link = Link(segment: string, target: TypeId)

  /** Every type that is mentioned is registered. */
  ghost predicate Closed(reg: Registry, aggs: Aggregates) {
    reg.names.Keys == reg.attributes.Keys == reg.types && TargetsRegistered(reg, aggs)
  }

  ghost predicate TargetsRegistered(reg: Registry, aggs: Aggregates)
    requires reg.attributes.Keys == reg.types
  {
    && (forall t, i :: t in reg.types && 0 <= i < |reg.attributes[t]| ==>
          match reg.attributes[t][i]
          case Pointer(_, pointee) => pointee in reg.types
          case Container(_, item) => item in reg.types
          case Plain(_) => true)
    && (forall i :: 0 <= i < |reg.registered| ==> reg.registered[i] in reg.types)
    && (forall i :: 0 <= i < |aggs| ==> aggs[i].0 in reg.types && aggs[i].1 in reg.types)
  }

  // ---- the links of a type, in the order the gathering follows them ----

  /** Pointers to Object itself are not followed. */
  function AttributeLink(reg: Registry, a: Attribute): seq<Link> {
    match a
    case Pointer(name, pointee) => if pointee == reg.objectType then [] else [Link(name, pointee)]
    case Container(name, item) => [Link(name + "/[i]", item)]
    case Plain(_) => []
  }

  function ChildLink(reg: Registry, tid: TypeId, child: TypeId): seq<Link> {
    if (child, tid) in reg.descends && child in reg.names then [Link("$" + reg.names[child], child)] else []
  }

  function AggregateLink(reg: Registry, tid: TypeId, agg: (TypeId, TypeId)): seq<Link> {
    if agg.0 == tid || agg.1 == tid then
      var other := if agg.1 == tid then agg.0 else agg.1;
      if other in reg.names then [Link("$" + reg.names[other], other)] else []
    else []
  }

  function AttributeLinks(reg: Registry, attrs: seq<Attribute>): seq<Link> {
    if attrs == [] then []
    else AttributeLinks(reg, attrs[..|attrs| - 1]) + AttributeLink(reg, attrs[|attrs| - 1])
  }

  function ChildLinks(reg: Registry, tid: TypeId, registered: seq<TypeId>): seq<Link> {
    if registered == [] then []
    else ChildLinks(reg, tid, registered[..|registered| - 1]) + ChildLink(reg, tid, registered[|registered| - 1])
  }

  function AggregateLinks(reg: Registry, tid: TypeId, aggs: Aggregates): seq<Link> {
    if aggs == [] then []
    else AggregateLinks(reg, tid, aggs[..|aggs| - 1]) + AggregateLink(reg, tid, aggs[|aggs| - 1])
  }

  function Links(reg: Registry, aggs: Aggregates, tid: TypeId): seq<Link>
    requires tid in reg.attributes
  {
    AttributeLinks(reg, reg.attributes[tid]) + ChildLinks(reg, tid, reg.registered) + AggregateLinks(reg, tid, aggs)
  }

  ghost predicate TargetsIn(links: seq<Link>, types: set<TypeId>) {
    forall l :: l in links ==> l.target in types
  }

  lemma {:induction false} AttributeLinksIn(reg: Registry, aggs: Aggregates, tid: TypeId, n: nat)
    requires Closed(reg, aggs) && tid in reg.types && n <= |reg.attributes[tid]|
    ensures TargetsIn(AttributeLinks(reg, reg.attributes[tid][..n]), reg.types)
  {
    if n > 0 {
      AttributeLinksIn(reg, aggs, tid, n - 1);
      assert reg.attributes[tid][..n][..n - 1] == reg.attributes[tid][..n - 1];
    }
  }

  lemma {:induction false} ChildLinksIn(reg: Registry, tid: TypeId, registered: seq<TypeId>)
    requires forall i :: 0 <= i < |registered| ==> registered[i] in reg.types
    ensures TargetsIn(ChildLinks(reg, tid, registered), reg.types)
  {
    if registered != [] { ChildLinksIn(reg, tid, registered[..|registered| - 1]); }
  }

  lemma {:induction false} AggregateLinksIn(reg: Registry, tid: TypeId, aggs: Aggregates)
    requires forall i :: 0 <= i < |aggs| ==> aggs[i].0 in reg.types && aggs[i].1 in reg.types
    ensures TargetsIn(AggregateLinks(reg, tid, aggs), reg.types)
  {
    if aggs != [] { AggregateLinksIn(reg, tid, aggs[..|aggs| - 1]); }
  }

  lemma LinksIn(reg: Registry, aggs: Aggregates, tid: TypeId)
    requires Closed(reg, aggs) && tid in reg.types
    ensures TargetsIn(Links(reg, aggs, tid), reg.types)
  {
    AttributeLinksIn(reg, aggs, tid, |reg.attributes[tid]|);
    assert reg.attributes[tid][..|reg.attributes[tid]|] == reg.attributes[tid];
    ChildLinksIn(reg, tid, reg.registered);
    AggregateLinksIn(reg, tid, aggs);
  }

  // ---- which links there are ----

  /** A pointer leads to its pointee, unless that is Object; a container to its items. */
  ghost predicate GivenByAttribute(reg: Registry, a: Attribute, l: Link) {
    || (a == Pointer(l.segment, l.target) && l.target != reg.objectType)
    || (exists name :: a == Container(name, l.target) && l.segment == name + "/[i]")
  }

  ghost predicate Named(reg: Registry, l: Link) {
    l.target in reg.names && l.segment == "$" + reg.names[l.target]
  }

  /** A registered type that is a child of `tid` is linked under its name. */
  ghost predicate GivenByChild(reg: Registry, tid: TypeId, child: TypeId, l: Link) {
    l.target == child && (child, tid) in reg.descends && Named(reg, l)
  }

  /** So is the type that `tid` is aggregated with. */
  ghost predicate GivenByAggregate(reg: Registry, tid: TypeId, agg: (TypeId, TypeId), l: Link) {
    (agg == (tid, l.target) || agg == (l.target, tid)) && Named(reg, l)
  }

  /** Increasing numbers below `n`, `count` of them. */
  ghost predicate Places(places: seq<nat>, n: nat, count: nat) {
    && |places| == count && (forall k, m :: 0 <= k < m < |places| ==> places[k] < places[m])
    && (forall m :: 0 <= m < |places| ==> places[m] < n)
  }

  lemma PlacesSnoc(places: seq<nat>, n: nat, count: nat)
    requires Places(places, n, count)
    ensures Places(places, n + 1, count) && Places(places + [n], n + 1, count + 1)
    ensures forall i :: i in places + [n] <==> i in places || i == n
  {
  }

  /** `links` are those that the attributes at `places` give, and the others give none. */
  ghost predicate FromAttributes(reg: Registry, attrs: seq<Attribute>, links: seq<Link>, places: seq<nat>) {
    && Places(places, |attrs|, |links|)
    && (forall m :: 0 <= m < |links| ==> GivenByAttribute(reg, attrs[places[m]], links[m]))
    && (forall i, l :: 0 <= i < |attrs| && GivenByAttribute(reg, attrs[i], l) ==> i in places)
  }

  ghost predicate FromChildren(reg: Registry, tid: TypeId, registered: seq<TypeId>, links: seq<Link>,
                               places: seq<nat>)
  {
    && Places(places, |registered|, |links|)
    && (forall m :: 0 <= m < |links| ==> GivenByChild(reg, tid, registered[places[m]], links[m]))
    && (forall j, l :: 0 <= j < |registered| && GivenByChild(reg, tid, registered[j], l) ==> j in places)
  }

  ghost predicate FromAggregates(reg: Registry, tid: TypeId, aggs: Aggregates, links: seq<Link>, places: seq<nat>) {
    && Places(places, |aggs|, |links|)
    && (forall m :: 0 <= m < |links| ==> GivenByAggregate(reg, tid, aggs[places[m]], links[m]))
    && (forall k, l :: 0 <= k < |aggs| && GivenByAggregate(reg, tid, aggs[k], l) ==> k in places)
  }

  lemma AttributeLinkIff(reg: Registry, a: Attribute)
    ensures |AttributeLink(reg, a)| <= 1
    ensures forall l :: GivenByAttribute(reg, a, l) <==> AttributeLink(reg, a) == [l]
  {
    match a
    case Pointer(name, pointee) =>
    case Container(name, item) =>
      assert GivenByAttribute(reg, a, Link(name + "/[i]", item));
    case Plain(_) =>
  }

  lemma NothingGives(reg: Registry, tid: TypeId)
    ensures FromAttributes(reg, [], [], []) && FromChildren(reg, tid, [], [], [])
    ensures FromAggregates(reg, tid, [], [], [])
  {
  }

  lemma AttributesGiveSnoc(reg: Registry, attrs: seq<Attribute>, x: Attribute, links: seq<Link>, places: seq<nat>)
    requires FromAttributes(reg, attrs, links, places)
    ensures FromAttributes(reg, attrs + [x], links + AttributeLink(reg, x),
              if AttributeLink(reg, x) == [] then places else places + [|attrs|])
  {
    hide AttributeLink, GivenByAttribute;
    var n, all, links' := |attrs|, attrs + [x], links + AttributeLink(reg, x);
    AttributeLinkIff(reg, x);
    PlacesSnoc(places, n, |places|);
    var places': seq<nat> := if AttributeLink(reg, x) == [] then places else places + [n];
    forall m | 0 <= m < |links'| ensures GivenByAttribute(reg, all[places'[m]], links'[m]) {
      if m < |places| { assert all[places[m]] == attrs[places[m]]; }
    }
    forall i, l | 0 <= i < |all| && GivenByAttribute(reg, all[i], l) ensures i in places' {
      if i < n { assert all[i] == attrs[i]; }
    }
  }

  lemma {:induction false} AttributesGive(reg: Registry, attrs: seq<Attribute>)
    ensures exists places: seq<nat> :: FromAttributes(reg, attrs, AttributeLinks(reg, attrs), places)
  {
    hide AttributeLink, FromAttributes;
    if attrs == [] {
      NothingGives(reg, reg.objectType);
      assert FromAttributes(reg, attrs, AttributeLinks(reg, attrs), []);
    } else {
      var front, last := attrs[..|attrs| - 1], attrs[|attrs| - 1];
      AttributesGive(reg, front);
      var places: seq<nat> :| FromAttributes(reg, front, AttributeLinks(reg, front), places);
      AttributesGiveSnoc(reg, front, last, AttributeLinks(reg, front), places);
      var places': seq<nat> := if AttributeLink(reg, last) == [] then places else places + [|front|];
      assert front + [last] == attrs;
      assert FromAttributes(reg, attrs, AttributeLinks(reg, attrs), places');
    }
  }

  lemma ChildLinkIff(reg: Registry, tid: TypeId, child: TypeId)
    ensures |ChildLink(reg, tid, child)| <= 1
    ensures forall l :: GivenByChild(reg, tid, child, l) <==> ChildLink(reg, tid, child) == [l]
  {
  }

  lemma ChildrenGiveSnoc(reg: Registry, tid: TypeId, registered: seq<TypeId>, x: TypeId, links: seq<Link>,
                         places: seq<nat>)
    requires FromChildren(reg, tid, registered, links, places)
    ensures FromChildren(reg, tid, registered + [x], links + ChildLink(reg, tid, x),
              if ChildLink(reg, tid, x) == [] then places else places + [|registered|])
  {
    hide ChildLink, GivenByChild;
    var n, all, links' := |registered|, registered + [x], links + ChildLink(reg, tid, x);
    ChildLinkIff(reg, tid, x);
    PlacesSnoc(places, n, |places|);
    var places': seq<nat> := if ChildLink(reg, tid, x) == [] then places else places + [n];
    forall m | 0 <= m < |links'| ensures GivenByChild(reg, tid, all[places'[m]], links'[m]) {
      if m < |places| { assert all[places[m]] == registered[places[m]]; }
    }
    forall i, l | 0 <= i < |all| && GivenByChild(reg, tid, all[i], l) ensures i in places' {
      if i < n { assert all[i] == registered[i]; }
    }
  }

  lemma {:induction false} ChildrenGive(reg: Registry, tid: TypeId, registered: seq<TypeId>)
    ensures exists places: seq<nat> :: FromChildren(reg, tid, registered, ChildLinks(reg, tid, registered), places)
  {
    hide ChildLink, FromChildren;
    if registered == [] {
      NothingGives(reg, tid);
      assert FromChildren(reg, tid, registered, ChildLinks(reg, tid, registered), []);
    } else {
      var front, last := registered[..|registered| - 1], registered[|registered| - 1];
      ChildrenGive(reg, tid, front);
      var places: seq<nat> :| FromChildren(reg, tid, front, ChildLinks(reg, tid, front), places);
      ChildrenGiveSnoc(reg, tid, front, last, ChildLinks(reg, tid, front), places);
      var places': seq<nat> := if ChildLink(reg, tid, last) == [] then places else places + [|front|];
      assert front + [last] == registered;
      assert FromChildren(reg, tid, registered, ChildLinks(reg, tid, registered), places');
    }
  }

  lemma AggregateLinkIff(reg: Registry, tid: TypeId, agg: (TypeId, TypeId))
    ensures |AggregateLink(reg, tid, agg)| <= 1
    ensures forall l :: GivenByAggregate(reg, tid, agg, l) <==> AggregateLink(reg, tid, agg) == [l]
  {
  }

  lemma AggregatesGiveSnoc(reg: Registry, tid: TypeId, aggs: Aggregates, x: (TypeId, TypeId), links: seq<Link>,
                           places: seq<nat>)
    requires FromAggregates(reg, tid, aggs, links, places)
    ensures FromAggregates(reg, tid, aggs + [x], links + AggregateLink(reg, tid, x),
              if AggregateLink(reg, tid, x) == [] then places else places + [|aggs|])
  {
    hide AggregateLink, GivenByAggregate;
    var n, all, links' := |aggs|, aggs + [x], links + AggregateLink(reg, tid, x);
    AggregateLinkIff(reg, tid, x);
    PlacesSnoc(places, n, |places|);
    var places': seq<nat> := if AggregateLink(reg, tid, x) == [] then places else places + [n];
    forall m | 0 <= m < |links'| ensures GivenByAggregate(reg, tid, all[places'[m]], links'[m]) {
      if m < |places| { assert all[places[m]] == aggs[places[m]]; }
    }
    forall i, l | 0 <= i < |all| && GivenByAggregate(reg, tid, all[i], l) ensures i in places' {
      if i < n { assert all[i] == aggs[i]; }
    }
  }

  lemma {:induction false} AggregatesGive(reg: Registry, tid: TypeId, aggs: Aggregates)
    ensures exists places: seq<nat> :: FromAggregates(reg, tid, aggs, AggregateLinks(reg, tid, aggs), places)
  {
    hide AggregateLink, FromAggregates;
    if aggs == [] {
      NothingGives(reg, tid);
      assert FromAggregates(reg, tid, aggs, AggregateLinks(reg, tid, aggs), []);
    } else {
      var front, last := aggs[..|aggs| - 1], aggs[|aggs| - 1];
      AggregatesGive(reg, tid, front);
      var places: seq<nat> :| FromAggregates(reg, tid, front, AggregateLinks(reg, tid, front), places);
      AggregatesGiveSnoc(reg, tid, front, last, AggregateLinks(reg, tid, front), places);
      var places': seq<nat> := if AggregateLink(reg, tid, last) == [] then places else places + [|front|];
      assert front + [last] == aggs;
      assert FromAggregates(reg, tid, aggs, AggregateLinks(reg, tid, aggs), places');
    }
  }

  /** The links of a type: what its attributes give, then what its registered children give, then what
      its aggregations give, each in order and each once. */
  lemma LinksListed(reg: Registry, aggs: Aggregates, tid: TypeId)
    requires tid in reg.attributes
    ensures exists a, c, g, p: seq<nat>, q: seq<nat>, r: seq<nat> :: Links(reg, aggs, tid) == a + c + g
              && FromAttributes(reg, reg.attributes[tid], a, p) && FromChildren(reg, tid, reg.registered, c, q)
              && FromAggregates(reg, tid, aggs, g, r)
  {
    hide FromAttributes, FromChildren, FromAggregates;
    AttributesGive(reg, reg.attributes[tid]);
    ChildrenGive(reg, tid, reg.registered);
    AggregatesGive(reg, tid, aggs);
  }

  /** Something gives this link from `from`. */
  ghost predicate Linked(reg: Registry, aggs: Aggregates, from: TypeId, l: Link)
    requires from in reg.attributes
  {
    || (exists a :: a in reg.attributes[from] && GivenByAttribute(reg, a, l))
    || (exists child :: child in reg.registered && GivenByChild(reg, from, child, l))
    || (exists agg :: agg in aggs && GivenByAggregate(reg, from, agg, l))
  }

  lemma InAttributes(reg: Registry, attrs: seq<Attribute>, links: seq<Link>, places: seq<nat>, l: Link)
    requires FromAttributes(reg, attrs, links, places)
    ensures l in links <==> exists a :: a in attrs && GivenByAttribute(reg, a, l)
  {
    hide GivenByAttribute, AttributeLink;
    if a :| a in attrs && GivenByAttribute(reg, a, l) {
      var i :| 0 <= i < |attrs| && attrs[i] == a;
      var m :| 0 <= m < |places| && places[m] == i;
      AttributeLinkIff(reg, a);
      assert links[m] == [links[m]][0] == [l][0];
    }
  }

  lemma InChildren(reg: Registry, tid: TypeId, registered: seq<TypeId>, links: seq<Link>, places: seq<nat>, l: Link)
    requires FromChildren(reg, tid, registered, links, places)
    ensures l in links <==> exists child :: child in registered && GivenByChild(reg, tid, child, l)
  {
    hide GivenByChild, ChildLink;
    if child :| child in registered && GivenByChild(reg, tid, child, l) {
      var i :| 0 <= i < |registered| && registered[i] == child;
      var m :| 0 <= m < |places| && places[m] == i;
      ChildLinkIff(reg, tid, child);
      assert links[m] == [links[m]][0] == [l][0];
    }
  }

  lemma InAggregates(reg: Registry, tid: TypeId, aggs: Aggregates, links: seq<Link>, places: seq<nat>, l: Link)
    requires FromAggregates(reg, tid, aggs, links, places)
    ensures l in links <==> exists agg :: agg in aggs && GivenByAggregate(reg, tid, agg, l)
  {
    hide GivenByAggregate, AggregateLink;
    if agg :| agg in aggs && GivenByAggregate(reg, tid, agg, l) {
      var i :| 0 <= i < |aggs| && aggs[i] == agg;
      var m :| 0 <= m < |places| && places[m] == i;
      AggregateLinkIff(reg, tid, agg);
      assert links[m] == [links[m]][0] == [l][0];
    }
  }

  /** So a link is among them exactly if something gives it. */
  lemma LinkIff(reg: Registry, aggs: Aggregates, tid: TypeId, l: Link)
    requires tid in reg.attributes
    ensures l in Links(reg, aggs, tid) <==> Linked(reg, aggs, tid, l)
  {
    hide GivenByAttribute, GivenByChild, GivenByAggregate, FromAttributes, FromChildren, FromAggregates, Links;
    LinksListed(reg, aggs, tid);
    var a, c, g, p: seq<nat>, q: seq<nat>, r: seq<nat> :| Links(reg, aggs, tid) == a + c + g
      && FromAttributes(reg, reg.attributes[tid], a, p)
      && FromChildren(reg, tid, reg.registered, c, q) && FromAggregates(reg, tid, aggs, g, r);
    InAttributes(reg, reg.attributes[tid], a, p, l);
    InChildren(reg, tid, reg.registered, c, q, l);
    InAggregates(reg, tid, aggs, g, r, l);
  }

  // ---- walks ----

  /** A walk is the list of the positions of the links it takes, so that parallel links are
      told apart. */
  type Walk = seq<nat>

  ghost predicate IsWalk(reg: Registry, aggs: Aggregates, from: TypeId, walk: Walk)
    requires Closed(reg, aggs) && from in reg.types
    decreases |walk|
  {
    walk != [] ==>
      var links := Links(reg, aggs, from);
      walk[0] < |links| && (LinksIn(reg, aggs, from); IsWalk(reg, aggs, links[walk[0]].target, walk[1..]))
  }

  /** The types a walk visits, its start included. */
  ghost function Visits(reg: Registry, aggs: Aggregates, from: TypeId, walk: Walk): (r: seq<TypeId>)
    requires Closed(reg, aggs) && from in reg.types && IsWalk(reg, aggs, from, walk)
    ensures |r| == |walk| + 1 && r[0] == from
    decreases |walk|
  {
    if walk == [] then [from]
    else
      LinksIn(reg, aggs, from);
      [from] + Visits(reg, aggs, Links(reg, aggs, from)[walk[0]].target, walk[1..])
  }

  ghost function Labels(reg: Registry, aggs: Aggregates, from: TypeId, walk: Walk): seq<string>
    requires Closed(reg, aggs) && from in reg.types && IsWalk(reg, aggs, from, walk)
    decreases |walk|
  {
    if walk == [] then []
    else
      LinksIn(reg, aggs, from);
      var l := Links(reg, aggs, from)[walk[0]];
      [l.segment] + Labels(reg, aggs, l.target, walk[1..])
  }

  /** No type twice, and none of those in `avoid`. */
  ghost predicate SimpleWalk(reg: Registry, aggs: Aggregates, from: TypeId, avoid: set<TypeId>, walk: Walk)
    requires Closed(reg, aggs) && from in reg.types
  {
    && IsWalk(reg, aggs, from, walk)
    && NoDup(Visits(reg, aggs, from, walk))
    && Elems(Visits(reg, aggs, from, walk)) !! avoid
  }

  function Render(path: seq<string>): string {
    if path == [] then "" else Render(path[..|path| - 1]) + "/" + path[|path| - 1]
  }

  /** What a walk contributes when the path so far is `path`: where it ends, and its label path. */
  ghost function Entry(reg: Registry, aggs: Aggregates, from: TypeId, path: seq<string>, walk: Walk): (TypeId, string)
    requires Closed(reg, aggs) && from in reg.types && IsWalk(reg, aggs, from, walk)
  {
    var visits := Visits(reg, aggs, from, walk);
    (visits[|visits| - 1], Render(path + Labels(reg, aggs, from, walk)))
  }

  // ---- the walks in the order the gathering meets them ----

  ghost predicate AreWalks(reg: Registry, aggs: Aggregates, from: TypeId, walks: seq<Walk>)
    requires Closed(reg, aggs) && from in reg.types
  {
    forall w :: w in walks ==> IsWalk(reg, aggs, from, w)
  }

  ghost function Prefixed(k: nat, walks: seq<Walk>): (r: seq<Walk>)
    ensures |r| == |walks| && forall i :: 0 <= i < |r| ==> r[i] == [k] + walks[i]
  {
    seq(|walks|, i requires 0 <= i < |walks| => [k] + walks[i])
  }

  lemma LinkTarget(reg: Registry, aggs: Aggregates, from: TypeId, k: nat)
    requires Closed(reg, aggs) && from in reg.types && k < |Links(reg, aggs, from)|
    ensures Links(reg, aggs, from)[k].target in reg.types
  {
    LinksIn(reg, aggs, from);
    assert Links(reg, aggs, from)[k] in Links(reg, aggs, from);
  }

  ghost function Walks(reg: Registry, aggs: Aggregates, from: TypeId, stack: seq<TypeId>): (r: seq<Walk>)
    requires Closed(reg, aggs) && from in reg.types
    ensures AreWalks(reg, aggs, from, r)
    decreases reg.types - Elems(stack), 1, 0
  {
    if from in stack then [] else [[]] + WalksVia(reg, aggs, from, stack, |Links(reg, aggs, from)|)
  }

  /** Those that start with one of the first `k` links. */
  ghost function WalksVia(reg: Registry, aggs: Aggregates, from: TypeId, stack: seq<TypeId>, k: nat): (r: seq<Walk>)
    requires Closed(reg, aggs) && from in reg.types && from !in stack
    requires k <= |Links(reg, aggs, from)|
    ensures AreWalks(reg, aggs, from, r)
    decreases reg.types - Elems(stack), 0, k
  {
    if k == 0 then []
    else
      LinkTarget(reg, aggs, from, k - 1);
      ElemsSnoc(stack, from);
      assert from in (reg.types - Elems(stack)) && from !in (reg.types - Elems(stack + [from]));
      WalksVia(reg, aggs, from, stack, k - 1)
        + Prefixed(k - 1, Walks(reg, aggs, Links(reg, aggs, from)[k - 1].target, stack + [from]))
  }

  lemma InPrefixed(k: nat, walks: seq<Walk>, w: Walk)
    ensures w in Prefixed(k, walks) <==> w != [] && w[0] == k && w[1..] in walks
  {
    if w != [] && w[0] == k && w[1..] in walks {
      var i :| 0 <= i < |walks| && walks[i] == w[1..];
      assert Prefixed(k, walks)[i] == w;
    }
  }

  lemma {:induction false} ViaExact(reg: Registry, aggs: Aggregates, from: TypeId, stack: seq<TypeId>, k: nat, w: Walk)
    requires Closed(reg, aggs) && from in reg.types && from !in stack
    requires k <= |Links(reg, aggs, from)|
    ensures w in WalksVia(reg, aggs, from, stack, k) <==>
      && w != [] && w[0] < k
      && (LinkTarget(reg, aggs, from, w[0]);
          w[1..] in Walks(reg, aggs, Links(reg, aggs, from)[w[0]].target, stack + [from]))
  {
    hide Links, TargetsRegistered, IsWalk, AreWalks, Prefixed, Walks;
    if k > 0 {
      ViaExact(reg, aggs, from, stack, k - 1, w);
      LinkTarget(reg, aggs, from, k - 1);
      InPrefixed(k - 1, Walks(reg, aggs, Links(reg, aggs, from)[k - 1].target, stack + [from]), w);
    }
  }

  lemma SimpleWalkStep(reg: Registry, aggs: Aggregates, from: TypeId, avoid: set<TypeId>, w: Walk)
    requires Closed(reg, aggs) && from in reg.types && w != [] && w[0] < |Links(reg, aggs, from)|
    ensures Links(reg, aggs, from)[w[0]].target in reg.types
    ensures
      SimpleWalk(reg, aggs, from, avoid, w) <==>
        from !in avoid && SimpleWalk(reg, aggs, Links(reg, aggs, from)[w[0]].target, avoid + {from}, w[1..])
  {
    LinkTarget(reg, aggs, from, w[0]);
    var next := Links(reg, aggs, from)[w[0]].target;
    if IsWalk(reg, aggs, from, w) {
      var v, rest := Visits(reg, aggs, from, w), Visits(reg, aggs, next, w[1..]);
      assert v == [from] + rest && v[1..] == rest;
      assert Elems(v) == {from} + Elems(rest);
      if NoDup(v) {
        assert forall i :: 0 <= i < |rest| ==> rest[i] == v[i + 1];
        assert NoDup(rest) && from !in rest;
      }
      if NoDup(rest) && from !in Elems(rest) {
        assert NoDup(v);
      }
    }
  }

  /** The gathering meets exactly the simple walks. */
  lemma {:induction false} WalksExact(reg: Registry, aggs: Aggregates, from: TypeId, stack: seq<TypeId>, w: Walk)
    requires Closed(reg, aggs) && from in reg.types
    ensures w in Walks(reg, aggs, from, stack) <==> SimpleWalk(reg, aggs, from, Elems(stack), w)
    decreases |w|
  {
    if from in stack {
      if IsWalk(reg, aggs, from, w) {
        assert Visits(reg, aggs, from, w)[0] in Elems(Visits(reg, aggs, from, w));
      }
    } else if w == [] {
      assert Visits(reg, aggs, from, w) == [from];
      assert Walks(reg, aggs, from, stack)[0] == [];
    } else {
      var n := |Links(reg, aggs, from)|;
      ViaExact(reg, aggs, from, stack, n, w);
      if w[0] < n {
        LinkTarget(reg, aggs, from, w[0]);
        SimpleWalkStep(reg, aggs, from, Elems(stack), w);
        ElemsSnoc(stack, from);
        WalksExact(reg, aggs, Links(reg, aggs, from)[w[0]].target, stack + [from], w[1..]);
      }
    }
  }

  /** ... and each of them once. */
  lemma {:induction false} WalksOnce(reg: Registry, aggs: Aggregates, from: TypeId, stack: seq<TypeId>)
    requires Closed(reg, aggs) && from in reg.types
    ensures NoDup(Walks(reg, aggs, from, stack))
    decreases reg.types - Elems(stack), 1, 0
  {
    if from !in stack {
      var n := |Links(reg, aggs, from)|;
      ViaOnce(reg, aggs, from, stack, n);
      ViaExact(reg, aggs, from, stack, n, []);
      NoDupConcat([[]], WalksVia(reg, aggs, from, stack, n));
    }
  }

  lemma {:induction false} ViaOnce(reg: Registry, aggs: Aggregates, from: TypeId, stack: seq<TypeId>, k: nat)
    requires Closed(reg, aggs) && from in reg.types && from !in stack && k <= |Links(reg, aggs, from)|
    ensures NoDup(WalksVia(reg, aggs, from, stack, k))
    decreases reg.types - Elems(stack), 0, k
  {
    hide Links, TargetsRegistered, IsWalk, AreWalks, Walks;
    if k > 0 {
      ViaOnce(reg, aggs, from, stack, k - 1);
      LinkTarget(reg, aggs, from, k - 1);
      ElemsSnoc(stack, from);
      assert from in (reg.types - Elems(stack)) && from !in (reg.types - Elems(stack + [from]));
      var sub := Walks(reg, aggs, Links(reg, aggs, from)[k - 1].target, stack + [from]);
      WalksOnce(reg, aggs, Links(reg, aggs, from)[k - 1].target, stack + [from]);
      var earlier, new' := WalksVia(reg, aggs, from, stack, k - 1), Prefixed(k - 1, sub);
      forall i, j | 0 <= i < j < |new'| ensures new'[i] != new'[j] {
        assert new'[i][1..] == sub[i] && new'[j][1..] == sub[j];
      }
      forall w | w in earlier ensures w !in new' {
        ViaExact(reg, aggs, from, stack, k - 1, w);
      }
      NoDupConcat(earlier, new');
    }
  }

  /** Position by position, a walk before its continuations. */
  predicate Earlier(w: Walk, v: Walk) {
    v != [] && (w == [] || w[0] < v[0] || (w[0] == v[0] && Earlier(w[1..], v[1..])))
  }

  ghost predicate InOrder(walks: seq<Walk>) {
    forall i, j :: 0 <= i < j < |walks| ==> Earlier(walks[i], walks[j])
  }

  /** ... in the order of the links they take. */
  lemma {:induction false} WalksInOrder(reg: Registry, aggs: Aggregates, from: TypeId, stack: seq<TypeId>)
    requires Closed(reg, aggs) && from in reg.types
    ensures InOrder(Walks(reg, aggs, from, stack))
    decreases reg.types - Elems(stack), 1, 0
  {
    hide Links, TargetsRegistered, IsWalk, AreWalks;
    if from !in stack {
      var n := |Links(reg, aggs, from)|;
      ViaInOrder(reg, aggs, from, stack, n);
      var via, all := WalksVia(reg, aggs, from, stack, n), Walks(reg, aggs, from, stack);
      forall w | w in via ensures w != [] {
        ViaExact(reg, aggs, from, stack, n, w);
      }
      assert all == [[]] + via;
      forall i, j | 0 <= i < j < |all| ensures Earlier(all[i], all[j]) {
        assert all[j] == via[j - 1] && all[j] in via;
        if i > 0 { assert all[i] == via[i - 1]; }
      }
    }
  }

  lemma {:induction false} ViaInOrder(reg: Registry, aggs: Aggregates, from: TypeId, stack: seq<TypeId>, k: nat)
    requires Closed(reg, aggs) && from in reg.types && from !in stack && k <= |Links(reg, aggs, from)|
    ensures InOrder(WalksVia(reg, aggs, from, stack, k))
    decreases reg.types - Elems(stack), 0, k
  {
    hide Links, TargetsRegistered, IsWalk, AreWalks, Walks;
    if k > 0 {
      ViaInOrder(reg, aggs, from, stack, k - 1);
      LinkTarget(reg, aggs, from, k - 1);
      ElemsSnoc(stack, from);
      assert from in (reg.types - Elems(stack)) && from !in (reg.types - Elems(stack + [from]));
      var sub := Walks(reg, aggs, Links(reg, aggs, from)[k - 1].target, stack + [from]);
      WalksInOrder(reg, aggs, Links(reg, aggs, from)[k - 1].target, stack + [from]);
      var earlier, new' := WalksVia(reg, aggs, from, stack, k - 1), Prefixed(k - 1, sub);
      forall w | w in earlier ensures w != [] && w[0] < k - 1 {
        ViaExact(reg, aggs, from, stack, k - 1, w);
      }
      forall i, j | 0 <= i < j < |new'| ensures Earlier(new'[i], new'[j]) {
        assert new'[i][1..] == sub[i] && new'[j][1..] == sub[j];
      }
    }
  }

  // ---- what is recorded ----

  ghost function Outputs(reg: Registry, aggs: Aggregates, from: TypeId, path: seq<string>, walks: seq<Walk>)
    : (r: seq<(TypeId, string)>)
    requires Closed(reg, aggs) && from in reg.types && AreWalks(reg, aggs, from, walks)
    ensures |r| == |walks|
    ensures forall i :: 0 <= i < |r| ==> r[i] == Entry(reg, aggs, from, path, walks[i])
  {
    seq(|walks|, i requires 0 <= i < |walks| => Entry(reg, aggs, from, path, walks[i]))
  }

  lemma EntryPrefixed(reg: Registry, aggs: Aggregates, from: TypeId, path: seq<string>, k: nat, w: Walk)
    requires Closed(reg, aggs) && from in reg.types && IsWalk(reg, aggs, from, [k] + w)
    ensures Links(reg, aggs, from)[k].target in reg.types
    ensures var l := Links(reg, aggs, from)[k];
      IsWalk(reg, aggs, l.target, w) &&
      Entry(reg, aggs, from, path, [k] + w) == Entry(reg, aggs, l.target, path + [l.segment], w)
  {
    LinkTarget(reg, aggs, from, k);
    var l := Links(reg, aggs, from)[k];
    assert ([k] + w)[1..] == w;
    var tail := Labels(reg, aggs, l.target, w);
    assert path + ([l.segment] + tail) == path + [l.segment] + tail;
  }

  /** Following one more link records what the walks through it contribute. */
  lemma OutputsStep(reg: Registry, aggs: Aggregates, from: TypeId, path: seq<string>, stack: seq<TypeId>, k: nat)
    requires Closed(reg, aggs) && from in reg.types && from !in stack && k < |Links(reg, aggs, from)|
    ensures Links(reg, aggs, from)[k].target in reg.types
    ensures var l := Links(reg, aggs, from)[k];
      Outputs(reg, aggs, from, path, WalksVia(reg, aggs, from, stack, k + 1)) ==
      Outputs(reg, aggs, from, path, WalksVia(reg, aggs, from, stack, k)) +
      Outputs(reg, aggs, l.target, path + [l.segment], Walks(reg, aggs, l.target, stack + [from]))
  {
    hide Links, TargetsRegistered, Entry, Walks;
    LinkTarget(reg, aggs, from, k);
    var l := Links(reg, aggs, from)[k];
    var sub := Walks(reg, aggs, l.target, stack + [from]);
    var all := WalksVia(reg, aggs, from, stack, k + 1);
    assert all == WalksVia(reg, aggs, from, stack, k) + Prefixed(k, sub);
    forall i | 0 <= i < |sub|
      ensures IsWalk(reg, aggs, from, [k] + sub[i])
      ensures Entry(reg, aggs, from, path, [k] + sub[i]) == Entry(reg, aggs, l.target, path + [l.segment], sub[i])
    {
      assert Prefixed(k, sub)[i] in all;
      EntryPrefixed(reg, aggs, from, path, k, sub[i]);
    }
  }

  /** Nothing is recorded for a type on the stack; for any other, the type itself comes first. */
  lemma OutputsWhole(reg: Registry, aggs: Aggregates, from: TypeId, path: seq<string>, stack: seq<TypeId>)
    requires Closed(reg, aggs) && from in reg.types
    ensures from in stack ==> Outputs(reg, aggs, from, path, Walks(reg, aggs, from, stack)) == []
    ensures from !in stack ==>
              && Outputs(reg, aggs, from, path, WalksVia(reg, aggs, from, stack, 0)) == []
              && Outputs(reg, aggs, from, path, Walks(reg, aggs, from, stack)) == [(from, Render(path))] +
                   Outputs(reg, aggs, from, path, WalksVia(reg, aggs, from, stack, |Links(reg, aggs, from)|))
  {
    hide Walks, WalksVia, AreWalks, IsWalk, Entry, Links, TargetsRegistered, Outputs;
    WalksWhole(reg, aggs, from, stack);
    EmptyWalkEntry(reg, aggs, from, path);
  }

  lemma WalksWhole(reg: Registry, aggs: Aggregates, from: TypeId, stack: seq<TypeId>)
    requires Closed(reg, aggs) && from in reg.types
    ensures from in stack ==> Walks(reg, aggs, from, stack) == []
    ensures from !in stack ==>
              && WalksVia(reg, aggs, from, stack, 0) == []
              && Walks(reg, aggs, from, stack) == [[]] + WalksVia(reg, aggs, from, stack, |Links(reg, aggs, from)|)
  {
  }

  lemma EmptyWalkEntry(reg: Registry, aggs: Aggregates, from: TypeId, path: seq<string>)
    requires Closed(reg, aggs) && from in reg.types
    ensures IsWalk(reg, aggs, from, []) && Entry(reg, aggs, from, path, []) == (from, Render(path))
  {
    assert path + Labels(reg, aggs, from, []) == path;
  }

  lemma Domains(reg: Registry, aggs: Aggregates)
    requires Closed(reg, aggs)
    ensures reg.names.Keys == reg.attributes.Keys == reg.types
    ensures forall i :: 0 <= i < |reg.registered| ==> reg.registered[i] in reg.types
    ensures forall i :: 0 <= i < |aggs| ==> aggs[i].0 in reg.types && aggs[i].1 in reg.types
  {
  }

  // ---- the links found so far by the three loops ----

  lemma {:induction false} AttributePrefix(reg: Registry, attrs: seq<Attribute>, i: nat)
    requires i <= |attrs|
    ensures AttributeLinks(reg, attrs[..i]) <= AttributeLinks(reg, attrs)
  {
    if i == |attrs| {
      assert attrs[..i] == attrs;
    } else {
      AttributePrefix(reg, attrs[..|attrs| - 1], i);
      assert attrs[..|attrs| - 1][..i] == attrs[..i];
    }
  }

  lemma {:induction false} ChildPrefix(reg: Registry, tid: TypeId, registered: seq<TypeId>, j: nat)
    requires j <= |registered|
    ensures ChildLinks(reg, tid, registered[..j]) <= ChildLinks(reg, tid, registered)
  {
    if j == |registered| {
      assert registered[..j] == registered;
    } else {
      ChildPrefix(reg, tid, registered[..|registered| - 1], j);
      assert registered[..|registered| - 1][..j] == registered[..j];
    }
  }

  lemma {:induction false} AggregatePrefix(reg: Registry, tid: TypeId, aggs: Aggregates, k: nat)
    requires k <= |aggs|
    ensures AggregateLinks(reg, tid, aggs[..k]) <= AggregateLinks(reg, tid, aggs)
  {
    if k == |aggs| {
      assert aggs[..k] == aggs;
    } else {
      AggregatePrefix(reg, tid, aggs[..|aggs| - 1], k);
      assert aggs[..|aggs| - 1][..k] == aggs[..k];
    }
  }

  /** The next attribute adds the next link, or none. */
  lemma AttributeAt(reg: Registry, aggs: Aggregates, tid: TypeId, i: nat)
    requires tid in reg.attributes && i < |reg.attributes[tid]|
    ensures var attrs := reg.attributes[tid]; var links := Links(reg, aggs, tid);
      var n, new' := |AttributeLinks(reg, attrs[..i])|, AttributeLink(reg, attrs[i]);
      |AttributeLinks(reg, attrs[..i + 1])| == n + |new'| <= |links| && new' <= links[n..]
  {
    var attrs := reg.attributes[tid];
    assert attrs[..i + 1][..i] == attrs[..i];
    AttributePrefix(reg, attrs, i + 1);
  }

  lemma ChildAt(reg: Registry, aggs: Aggregates, tid: TypeId, j: nat)
    requires tid in reg.attributes && j < |reg.registered|
    ensures var links := Links(reg, aggs, tid); var before := |AttributeLinks(reg, reg.attributes[tid])|;
      var n, new' := before + |ChildLinks(reg, tid, reg.registered[..j])|, ChildLink(reg, tid, reg.registered[j]);
      before + |ChildLinks(reg, tid, reg.registered[..j + 1])| == n + |new'| <= |links| && new' <= links[n..]
  {
    assert reg.registered[..j + 1][..j] == reg.registered[..j];
    ChildPrefix(reg, tid, reg.registered, j + 1);
  }

  lemma AggregateAt(reg: Registry, aggs: Aggregates, tid: TypeId, k: nat)
    requires tid in reg.attributes && k < |aggs|
    ensures var links := Links(reg, aggs, tid);
      var before := |AttributeLinks(reg, reg.attributes[tid])| + |ChildLinks(reg, tid, reg.registered)|;
      var n, new' := before + |AggregateLinks(reg, tid, aggs[..k])|, AggregateLink(reg, tid, aggs[k]);
      before + |AggregateLinks(reg, tid, aggs[..k + 1])| == n + |new'| <= |links| && new' <= links[n..]
  {
    assert aggs[..k + 1][..k] == aggs[..k];
    AggregatePrefix(reg, tid, aggs, k + 1);
  }

  lemma LinkCount(reg: Registry, aggs: Aggregates, tid: TypeId)
    requires tid in reg.attributes
    ensures |Links(reg, aggs, tid)| == |AttributeLinks(reg, reg.attributes[tid])|
              + |ChildLinks(reg, tid, reg.registered)| + |AggregateLinks(reg, tid, aggs)|
  {
  }

  lemma NoAggregates(reg: Registry, tid: TypeId, aggs: Aggregates)
    ensures AggregateLinks(reg, tid, aggs[..0]) == []
  {
  }

  // ---- the class ----

  class StaticInformation {
    const registry: Registry
    var aggregates: Aggregates
    var currentPath: seq<string>
    var alreadyProcessed: seq<TypeId>
    var output: seq<(TypeId, string)>
    var noTids: seq<string>

    ghost predicate Valid()
      reads this
    {
      Closed(registry, aggregates)
    }

    constructor (registry: Registry)
      requires Closed(registry, [])
      ensures Valid() && this.registry == registry
      ensures aggregates == [] && currentPath == [] && alreadyProcessed == [] && output == [] && noTids == []
    {
      this.registry := registry;
      aggregates, currentPath, alreadyProcessed, output, noTids := [], [], [], [], [];
    }

    /** Keeps a pair of types that are found by their names; otherwise notes the first name without
        a type. `lookup` is the registry's search by name. */
    method RecordAggregationInfo(a: string, b: string, lookup: string -> Option<TypeId>)
      requires Valid() && forall name :: lookup(name).Some? ==> lookup(name).value in registry.types
      modifies this`aggregates, this`noTids
      ensures Valid()
      ensures aggregates == old(aggregates) +
                if lookup(a).Some? && lookup(b).Some? then [(lookup(a).value, lookup(b).value)] else []
      ensures noTids == old(noTids) + if lookup(a).None? then [a] else if lookup(b).None? then [b] else []
    {
      var aTid := lookup(a);
      if aTid.None? {
        noTids := noTids + [a];
        return;
      }
      var bTid := lookup(b);
      if bTid.None? {
        noTids := noTids + [b];
        return;
      }
      aggregates := aggregates + [(aTid.value, bTid.value)];
    }

    method GetCurrentPath() returns (s: string)
      ensures s == Render(currentPath)
    {
      s := "";
      for i := 0 to |currentPath|
        invariant s == Render(currentPath[..i])
      {
        assert currentPath[..i + 1][..i] == currentPath[..i];
        s := s + "/" + currentPath[i];
        assert s == Render(currentPath[..i]) + ("/" + currentPath[i]);
      }
      assert currentPath[..|currentPath|] == currentPath;
    }

    method RecordOutput(tid: TypeId)
      modifies this`output
      ensures output == old(output) + [(tid, Render(currentPath))]
    {
      var path := GetCurrentPath();
      output := output + [(tid, path)];
    }

    method HasAlreadyBeenProcessed(tid: TypeId) returns (r: bool)
      ensures r <==> tid in alreadyProcessed
    {
      for i := 0 to |alreadyProcessed|
        invariant tid !in alreadyProcessed[..i]
      {
        if alreadyProcessed[i] == tid {
          return true;
        }
      }
      return false;
    }

    /** The gathering from `tid`, which began with the output `before`, has recorded the type
        itself and followed its first `n` links. */
    ghost predicate Followed(tid: TypeId, before: seq<(TypeId, string)>, n: nat)
      reads this
    {
      && Valid() && tid in registry.types && tid !in alreadyProcessed
      && n <= |Links(registry, aggregates, tid)|
      && output == before + [(tid, Render(currentPath))]
           + Outputs(registry, aggregates, tid, currentPath, WalksVia(registry, aggregates, tid, alreadyProcessed, n))
    }

    lemma FollowedFacts(tid: TypeId, before: seq<(TypeId, string)>, n: nat)
      requires Followed(tid, before, n)
      ensures Closed(registry, aggregates) && tid in registry.types && tid in registry.attributes
    {
    }

    /** Follows link `n` of `tid` with its name and the type pushed for the time of it. */
    method Follow(tid: TypeId, segment: string, target: TypeId, ghost before: seq<(TypeId, string)>, ghost n: nat)
      requires Followed(tid, before, n)
      requires n < |Links(registry, aggregates, tid)| && Links(registry, aggregates, tid)[n] == Link(segment, target)
      modifies this`currentPath, this`alreadyProcessed, this`output
      ensures currentPath == old(currentPath) && alreadyProcessed == old(alreadyProcessed)
      ensures Followed(tid, before, n + 1)
      decreases registry.types - Elems(alreadyProcessed), 0
    {
      hide Links, TargetsRegistered, Walks, WalksVia, AreWalks, IsWalk, Outputs, Entry, Render;
      assert tid in (registry.types - Elems(alreadyProcessed));
      assert tid !in (registry.types - Elems(alreadyProcessed + [tid]));
      ElemsSnoc(alreadyProcessed, tid);
      LinkTarget(registry, aggregates, tid, n);
      OutputsStep(registry, aggregates, tid, currentPath, alreadyProcessed, n);
      currentPath := currentPath + [segment];
      alreadyProcessed := alreadyProcessed + [tid];
      DoGather(target);
      alreadyProcessed := alreadyProcessed[..|alreadyProcessed| - 1];
      currentPath := currentPath[..|currentPath| - 1];
      assert alreadyProcessed == old(alreadyProcessed) && currentPath == old(currentPath);
    }

    /** The first loop of the gathering: pointers, except those to Object, and containers. */
    method FollowAttributes(tid: TypeId, ghost before: seq<(TypeId, string)>) returns (ghost n: nat)
      requires Followed(tid, before, 0) && tid in registry.attributes
      modifies this`currentPath, this`alreadyProcessed, this`output
      ensures currentPath == old(currentPath) && alreadyProcessed == old(alreadyProcessed)
      ensures n == |AttributeLinks(registry, registry.attributes[tid])| && Followed(tid, before, n)
      decreases registry.types - Elems(alreadyProcessed), 1
    {
      hide TargetsRegistered, Followed, Links, Outputs, Entry, Render;
      FollowedFacts(tid, before, 0);
      var attrs := registry.attributes[tid];
      n := 0;
      for i := 0 to |attrs|
        invariant currentPath == old(currentPath) && alreadyProcessed == old(alreadyProcessed)
        invariant n == |AttributeLinks(registry, attrs[..i])| && Followed(tid, before, n)
      {
        AttributeAt(registry, aggregates, tid, i);
        match attrs[i]
        case Pointer(name, pointee) =>
          if registry.objectType == pointee {
            continue;
          }
          Follow(tid, name, pointee, before, n);
          n := n + 1;
        case Container(name, item) =>
          Follow(tid, name + "/[i]", item, before, n);
          n := n + 1;
        case Plain(_) =>
      }
      assert attrs[..|attrs|] == attrs;
    }

    /** The second loop: every registered type that is a child of this one. */
    method FollowChildren(tid: TypeId, ghost before: seq<(TypeId, string)>, ghost n0: nat) returns (ghost n: nat)
      requires Followed(tid, before, n0) && tid in registry.attributes
      requires n0 == |AttributeLinks(registry, registry.attributes[tid])|
      modifies this`currentPath, this`alreadyProcessed, this`output
      ensures currentPath == old(currentPath) && alreadyProcessed == old(alreadyProcessed)
      ensures n == n0 + |ChildLinks(registry, tid, registry.registered)| && Followed(tid, before, n)
      decreases registry.types - Elems(alreadyProcessed), 1
    {
      hide TargetsRegistered, Followed, Links, Outputs, Entry, Render;
      FollowedFacts(tid, before, n0);
      Domains(registry, aggregates);
      n := n0;
      for j := 0 to |registry.registered|
        invariant currentPath == old(currentPath) && alreadyProcessed == old(alreadyProcessed)
        invariant n == n0 + |ChildLinks(registry, tid, registry.registered[..j])| && Followed(tid, before, n)
      {
        var child := registry.registered[j];
        ChildAt(registry, aggregates, tid, j);
        if (child, tid) in registry.descends {
          Follow(tid, "$" + registry.names[child], child, before, n);
          n := n + 1;
        }
      }
      assert registry.registered[..|registry.registered|] == registry.registered;
    }

    /** The third loop: every aggregation this type takes part in. */
    method FollowAggregates(tid: TypeId, ghost before: seq<(TypeId, string)>, ghost n0: nat)
      requires Followed(tid, before, n0) && tid in registry.attributes
      requires n0 == |AttributeLinks(registry, registry.attributes[tid])|
                       + |ChildLinks(registry, tid, registry.registered)|
      modifies this`currentPath, this`alreadyProcessed, this`output
      ensures currentPath == old(currentPath) && alreadyProcessed == old(alreadyProcessed)
      ensures Followed(tid, before, |Links(registry, aggregates, tid)|)
      decreases registry.types - Elems(alreadyProcessed), 1
    {
      hide TargetsRegistered, Followed, Links, Outputs, Entry, Render,
        AttributeLinks, ChildLinks, AggregateLinks, Closed;
      NoAggregates(registry, tid, aggregates);
      FollowedFacts(tid, before, n0);
      Domains(registry, aggregates);
      ghost var n := n0;
      for k := 0 to |aggregates|
        invariant currentPath == old(currentPath) && alreadyProcessed == old(alreadyProcessed)
        invariant n == n0 + |AggregateLinks(registry, tid, aggregates[..k])| && Followed(tid, before, n)
      {
        var tmp := aggregates[k];
        AggregateAt(registry, aggregates, tid, k);
        if tmp.0 == tid || tmp.1 == tid {
          var other := tmp.1;
          if tmp.1 == tid {
            other := tmp.0;
          }
          Follow(tid, "$" + registry.names[other], other, before, n);
          n := n + 1;
        }
      }
      assert aggregates[..|aggregates|] == aggregates;
      LinkCount(registry, aggregates, tid);
    }

    /** Appends the end and the label path of every simple walk from `tid` that avoids the types
        on the stack, and leaves the stack and the current path as they were. */
    method DoGather(tid: TypeId)
      requires Valid() && tid in registry.types
      modifies this`currentPath, this`alreadyProcessed, this`output
      ensures currentPath == old(currentPath) && alreadyProcessed == old(alreadyProcessed)
      ensures output == old(output) + Outputs(registry, aggregates, tid, currentPath,
                                              Walks(registry, aggregates, tid, alreadyProcessed))
      decreases registry.types - Elems(alreadyProcessed), 2
    {
      hide TargetsRegistered, Walks, WalksVia, AreWalks, IsWalk, Outputs, Entry, Render;
      Domains(registry, aggregates);
      OutputsWhole(registry, aggregates, tid, currentPath, alreadyProcessed);
      var processed := HasAlreadyBeenProcessed(tid);
      if processed {
        return;
      }
      ghost var before := output;
      RecordOutput(tid);
      ghost var n := FollowAttributes(tid, before);
      n := FollowChildren(tid, before, n);
      FollowAggregates(tid, before, n);
    }

    /** Gathering from a root, with nothing on the stack. The clean-up that follows it sorts a
        copy of the output and so leaves the output alone. */
    method Gather(tid: TypeId)
      requires Valid() && tid in registry.types && alreadyProcessed == []
      modifies this`currentPath, this`alreadyProcessed, this`output
      ensures currentPath == old(currentPath) && alreadyProcessed == []
      ensures output == old(output) + Outputs(registry, aggregates, tid, currentPath,
                                              Walks(registry, aggregates, tid, []))
    {
      DoGather(tid);
    }

    /** The recorded paths of one type, in order. */
    method Get(tid: TypeId) returns (paths: seq<string>)
      ensures paths == PathsOf(output, tid)
    {
      paths := [];
      for i := 0 to |output|
        invariant paths == PathsOf(output[..i], tid)
      {
        assert output[..i + 1][..i] == output[..i];
        if output[i].0 == tid {
          paths := paths + [output[i].1];
        }
      }
      assert output[..|output|] == output;
    }
  }

  function PathsOf(output: seq<(TypeId, string)>, tid: TypeId): seq<string> {
    if output == [] then []
    else
      var last := output[|output| - 1];
      PathsOf(output[..|output| - 1], tid) + if last.0 == tid then [last.1] else []
  }

  lemma {:induction false} PathsOfExact(output: seq<(TypeId, string)>, tid: TypeId, s: string)
    ensures s in PathsOf(output, tid) <==> (tid, s) in output
  {
    if output != [] {
      var front, last := output[..|output| - 1], output[|output| - 1];
      PathsOfExact(front, tid, s);
      assert output == front + [last];
    }
  }

  /** `paths` are those of the entries of this type, which have the places `at`, in order. */
  ghost predicate PathsAt(output: seq<(TypeId, string)>, tid: TypeId, paths: seq<string>, at: seq<nat>) {
    && Places(at, |output|, |paths|)
    && (forall m :: 0 <= m < |at| ==> output[at[m]] == (tid, paths[m]))
    && (forall i :: 0 <= i < |output| && output[i].0 == tid ==> i in at)
  }

  lemma PathsAtSnoc(output: seq<(TypeId, string)>, e: (TypeId, string), tid: TypeId, paths: seq<string>, at: seq<nat>)
    requires PathsAt(output, tid, paths, at)
    ensures e.0 != tid ==> PathsAt(output + [e], tid, paths, at)
    ensures e.0 == tid ==> PathsAt(output + [e], tid, paths + [e.1], at + [|output|])
  {
    var all := output + [e];
    PlacesSnoc(at, |output|, |paths|);
    assert forall i :: 0 <= i < |output| ==> all[i] == output[i];
  }

  lemma PathsSnoc(front: seq<(TypeId, string)>, e: (TypeId, string), tid: TypeId)
    ensures PathsOf(front + [e], tid) == if e.0 == tid then PathsOf(front, tid) + [e.1] else PathsOf(front, tid)
    ensures PathsAt([], tid, PathsOf([], tid), [])
  {
    assert (front + [e])[..|front|] == front;
  }

  /** A type is given the paths of its entries, one for each, in order. */
  lemma {:induction false} PathsListed(output: seq<(TypeId, string)>, tid: TypeId)
    ensures exists at: seq<nat> :: PathsAt(output, tid, PathsOf(output, tid), at)
  {
    hide PathsAt, PathsOf;
    if output == [] {
      PathsSnoc([], (tid, ""), tid);
      assert PathsAt(output, tid, PathsOf(output, tid), []);
    } else {
      var front, e := output[..|output| - 1], output[|output| - 1];
      PathsListed(front, tid);
      var at: seq<nat> :| PathsAt(front, tid, PathsOf(front, tid), at);
      PathsAtSnoc(front, e, tid, PathsOf(front, tid), at);
      PathsSnoc(front, e, tid);
      assert front + [e] == output;
      var at': seq<nat> := if e.0 == tid then at + [|front|] else at;
      assert PathsAt(output, tid, PathsOf(output, tid), at');
    }
  }

  /** Gathering from a root into an empty record records the entries of its simple walks. */
  lemma RecordedIff(reg: Registry, aggs: Aggregates, root: TypeId, e: (TypeId, string))
    requires Closed(reg, aggs) && root in reg.types
    ensures e in Outputs(reg, aggs, root, [], Walks(reg, aggs, root, [])) <==>
            exists w :: SimpleWalk(reg, aggs, root, {}, w) && Entry(reg, aggs, root, [], w) == e
  {
    var walks := Walks(reg, aggs, root, []);
    var output := Outputs(reg, aggs, root, [], walks);
    if e in output {
      var i :| 0 <= i < |output| && output[i] == e;
      WalksExact(reg, aggs, root, [], walks[i]);
      assert walks[i] in walks;
    }
    if w :| SimpleWalk(reg, aggs, root, {}, w) && Entry(reg, aggs, root, [], w) == e {
      WalksExact(reg, aggs, root, [], w);
      var i :| 0 <= i < |walks| && walks[i] == w;
      assert output[i] == e;
    }
  }

  /** A way through the graph of types, from `root` to `tid`, that visits no type twice. */
  ghost predicate LeadsTo(reg: Registry, aggs: Aggregates, root: TypeId, types: seq<TypeId>, labels: seq<string>,
                          tid: TypeId)
  {
    && |types| == |labels| + 1 && types[0] == root && types[|labels|] == tid
    && NoDup(types) && Stepwise(reg, aggs, types, labels)
  }

  ghost predicate Stepwise(reg: Registry, aggs: Aggregates, types: seq<TypeId>, labels: seq<string>)
    requires |types| == |labels| + 1
  {
    && (forall k :: 0 <= k < |types| ==> types[k] in reg.attributes)
    && (forall k :: 0 <= k < |labels| ==> Linked(reg, aggs, types[k], Link(labels[k], types[k + 1])))
  }

  lemma StepwiseCons(reg: Registry, aggs: Aggregates, from: TypeId, l: Link, types: seq<TypeId>, labels: seq<string>)
    requires |types| == |labels| + 1 && from in reg.attributes && types[0] == l.target
    ensures Stepwise(reg, aggs, [from] + types, [l.segment] + labels) <==>
            Linked(reg, aggs, from, l) && Stepwise(reg, aggs, types, labels)
  {
    hide Linked;
    var ts, ls := [from] + types, [l.segment] + labels;
    assert forall k :: 0 <= k < |types| ==> ts[k + 1] == types[k];
    assert forall k :: 0 <= k < |labels| ==> ls[k + 1] == labels[k];
    if Stepwise(reg, aggs, ts, ls) {
      assert Linked(reg, aggs, ts[0], Link(ls[0], ts[0 + 1]));
      forall k | 0 <= k < |labels| ensures Linked(reg, aggs, types[k], Link(labels[k], types[k + 1])) {
        assert Linked(reg, aggs, ts[k + 1], Link(ls[k + 1], ts[k + 1 + 1]));
      }
      forall k | 0 <= k < |types| ensures types[k] in reg.attributes {
        assert ts[k + 1] in reg.attributes;
      }
    }
  }

  lemma {:induction false} WalkIsStepwise(reg: Registry, aggs: Aggregates, from: TypeId, w: Walk)
    requires Closed(reg, aggs) && from in reg.types && IsWalk(reg, aggs, from, w)
    ensures |Labels(reg, aggs, from, w)| == |w|
    ensures Stepwise(reg, aggs, Visits(reg, aggs, from, w), Labels(reg, aggs, from, w))
    decreases |w|
  {
    hide Links, TargetsRegistered, Linked, Stepwise;
    if w == [] {
      Here(reg, aggs, from);
    } else {
      LinkTarget(reg, aggs, from, w[0]);
      var l := Links(reg, aggs, from)[w[0]];
      WalkIsStepwise(reg, aggs, l.target, w[1..]);
      LinkIff(reg, aggs, from, l);
      StepwiseCons(reg, aggs, from, l, Visits(reg, aggs, l.target, w[1..]), Labels(reg, aggs, l.target, w[1..]));
    }
  }

  lemma Here(reg: Registry, aggs: Aggregates, from: TypeId)
    requires from in reg.attributes
    ensures Stepwise(reg, aggs, [from], [])
  {
  }

  /** The walk takes these types and labels. */
  ghost predicate Takes(reg: Registry, aggs: Aggregates, w: Walk, types: seq<TypeId>, labels: seq<string>)
    requires Closed(reg, aggs)
  {
    && types != [] && types[0] in reg.types && IsWalk(reg, aggs, types[0], w)
    && Visits(reg, aggs, types[0], w) == types && Labels(reg, aggs, types[0], w) == labels
  }

  lemma {:induction false} StepwiseHasWalk(reg: Registry, aggs: Aggregates, types: seq<TypeId>, labels: seq<string>)
    requires Closed(reg, aggs) && |types| == |labels| + 1 && Stepwise(reg, aggs, types, labels)
    ensures exists w :: Takes(reg, aggs, w, types, labels)
    decreases |labels|
  {
    hide TargetsRegistered, Linked, Links;
    var from := types[0];
    if labels == [] {
      assert Takes(reg, aggs, [], types, labels);
    } else {
      var l := Link(labels[0], types[1]);
      assert types == [from] + types[1..] && labels == [l.segment] + labels[1..];
      StepwiseCons(reg, aggs, from, l, types[1..], labels[1..]);
      StepwiseHasWalk(reg, aggs, types[1..], labels[1..]);
      var v :| Takes(reg, aggs, v, types[1..], labels[1..]);
      LinkIff(reg, aggs, from, l);
      var i: nat :| i < |Links(reg, aggs, from)| && Links(reg, aggs, from)[i] == l;
      assert ([i] + v)[1..] == v;
      assert Takes(reg, aggs, [i] + v, types, labels);
    }
  }

  /** Gathered from a root into an empty record, a type is given exactly the label paths of the routes
      that lead to it. */
  lemma GatheredPaths(reg: Registry, aggs: Aggregates, root: TypeId, tid: TypeId, s: string)
    requires Closed(reg, aggs) && root in reg.types
    ensures s in PathsOf(Outputs(reg, aggs, root, [], Walks(reg, aggs, root, [])), tid) <==>
            exists types, labels :: LeadsTo(reg, aggs, root, types, labels, tid) && s == Render(labels)
  {
    hide TargetsRegistered, Walks, Outputs, Links, IsWalk, Visits, Labels, Render, Stepwise;
    PathsOfExact(Outputs(reg, aggs, root, [], Walks(reg, aggs, root, [])), tid, s);
    RecordedIff(reg, aggs, root, (tid, s));
    if w :| SimpleWalk(reg, aggs, root, {}, w) && Entry(reg, aggs, root, [], w) == (tid, s) {
      WalkIsStepwise(reg, aggs, root, w);
      var types, labels := Visits(reg, aggs, root, w), Labels(reg, aggs, root, w);
      assert [] + labels == labels;
      assert LeadsTo(reg, aggs, root, types, labels, tid) && s == Render(labels);
    }
    if types, labels :| LeadsTo(reg, aggs, root, types, labels, tid) && s == Render(labels) {
      StepwiseHasWalk(reg, aggs, types, labels);
      var w :| Takes(reg, aggs, w, types, labels);
      assert [] + labels == labels;
      assert SimpleWalk(reg, aggs, root, {}, w) && Entry(reg, aggs, root, [], w) == (tid, s);
    }
  }

  /** A path is rendered as its segments in order, a slash in front of each. */
  lemma {:induction false} RenderFront(segment: string, rest: seq<string>)
    ensures Render([]) == "" && Render([segment] + rest) == "/" + segment + Render(rest)
  {
    var path := [segment] + rest;
    if rest == [] {
      assert path[..0] == [] && "" + "/" + segment == "/" + segment + "";
    } else {
      var n := |rest| - 1;
      assert path[..|path| - 1] == [segment] + rest[..n];
      RenderFront(segment, rest[..n]);
    }
  }
}
