/** Dependency sorting: the worklist sort, the level-by-level sort, and what their outcomes
    mean for the graph. A dictionary's keys come in an arbitrary order. */
module Topsort {
  import opened Sequences
  import opened Digraph

  type Counts = map<Item, int>
  type Children = map<Item, seq<Item>>

  datatype SortResult =
    | Sorted(answer: seq<Item>)
    | CycleError(answer: seq<Item>, numParents: Counts, children: Children)

  datatype LevelsEnd =
    | Finished
    | LevelsCycleError(numParents: Counts, children: Children)

  // ---- specification ----

  /** The two dictionaries after the elements of `done` have been taken out of the graph. */
  ghost predicate Tables(g: Graph, done: set<Item>, numParents: Counts, children: Children) {
    && numParents.Keys == g.nodes - done
    && children.Keys <= g.nodes - done
    && (forall x :: x in numParents ==> numParents[x] == CountInto(g.pairs, x, done))
    && (forall p :: p in g.nodes - done ==> ChildrenOf(g.pairs, p) == if p in children then children[p] else [])
  }

  /** Block `k` lists the elements of depth `k`, each once. */
  ghost predicate LevelBlocks(g: Graph, blocks: seq<seq<Item>>) {
    forall k :: 0 <= k < |blocks| ==>
      blocks[k] != [] && NoDup(blocks[k]) && Elems(blocks[k]) == Level(g, k)
  }

  ghost predicate AllLevels(g: Graph, blocks: seq<seq<Item>>) {
    LevelBlocks(g, blocks) && Level(g, |blocks|) == {}
  }

  ghost predicate LevelOrder(g: Graph, s: seq<Item>) {
    exists blocks :: AllLevels(g, blocks) && Flatten(blocks) == s
  }

  /** What is left of the parent counts when nothing more can be placed. */
  ghost function LeftoverCounts(g: Graph): Counts {
    map x | x in Cyclic(g) :: CountInto(g.pairs, x, g.nodes - Cyclic(g))
  }

  ghost function LeftoverChildren(g: Graph, children: Children): Children {
    map p | p in children && p in Cyclic(g) :: children[p]
  }

  ghost function PairChildren(pairs: seq<(Item, Item)>): Children {
    map p | p in Parents(pairs) :: ChildrenOf(pairs, p)
  }

  ghost predicate TopsortOutcome(pairs: seq<(Item, Item)>, r: SortResult) {
    var g := Graph(Mentioned(pairs), pairs);
    && LevelOrder(g, r.answer)
    && (r.Sorted? <==> Acyclic(g))
    && (r.CycleError? ==>
          && r.numParents == LeftoverCounts(g)
          && r.children == LeftoverChildren(g, PairChildren(pairs)))
  }

  ghost predicate HasParent(pairs: seq<(Item, Item)>, x: Item) {
    exists p :: (p, x) in pairs
  }

  /** Pair number `e` is the last one that leads from `p` to `x`. */
  ghost predicate LastPair(pairs: seq<(Item, Item)>, p: Item, x: Item, e: int) {
    0 <= e < |pairs| && pairs[e] == (p, x) && forall f :: e < f < |pairs| ==> pairs[f] != (p, x)
  }

  /** The last-placed parent of `x` has place `j`, and its last pair for `x` has number `e`. */
  ghost predicate FreedAt(pairs: seq<(Item, Item)>, answer: seq<Item>, x: Item, j: int, e: int) {
    0 <= j < |answer| && LastPair(pairs, answer[j], x, e) && forall k :: j < k < |answer| ==> (answer[k], x) !in pairs
  }

  /** First in, first out: elements without parents come first; any other comes behind its last-placed
      parent, and two of them in the order of the places of those parents, or, when that is one
      and the same parent, of its last pairs for them. */
  ghost predicate QueueOrder(pairs: seq<(Item, Item)>, answer: seq<Item>) {
    && (forall u, v | 0 <= u < |answer| && 0 <= v < |answer| ::
          !HasParent(pairs, answer[u]) && HasParent(pairs, answer[v]) ==> u < v)
    && (forall v | 0 <= v < |answer| && HasParent(pairs, answer[v]) ::
          exists j, e :: FreedAt(pairs, answer, answer[v], j, e))
    && (forall u, v, j, e, k, f | 0 <= u < |answer| && 0 <= v < |answer|
            && FreedAt(pairs, answer, answer[u], j, e) && FreedAt(pairs, answer, answer[v], k, f) ::
          j < u && (u < v <==> j < k || (j == k && e < f)))
  }

  ghost predicate LevelsOutcome(g: Graph, children: Children, levels: seq<seq<Item>>, end: LevelsEnd) {
    && AllLevels(g, levels)
    && (end.Finished? <==> Acyclic(g))
    && (end.LevelsCycleError? ==>
          && end.numParents == LeftoverCounts(g)
          && end.children == LeftoverChildren(g, children))
  }

  // ---- helpers of the two sorts ----

  /** The keys of a dictionary, in whatever order the dictionary iterates. */
  method Keys(s: set<Item>) returns (keys: seq<Item>)
    ensures NoDup(keys) && Elems(keys) == s
  {
    keys := [];
    var rest := s;
    while rest != {}
      invariant NoDup(keys) && rest <= s && Elems(keys) == s - rest
      decreases rest
    {
      var x :| x in rest;
      keys, rest := keys + [x], rest - {x};
    }
  }

  /** The keys whose count is zero. */
  method Parentless(numParents: Counts) returns (free: seq<Item>)
    ensures NoDup(free)
    ensures Elems(free) == Zeroes(numParents)
  {
    var keys := Keys(numParents.Keys);
    free := [];
    for i := 0 to |keys|
      invariant NoDup(free)
      invariant Elems(free) == set x | x in keys[..i] && numParents[x] == 0
    {
      assert keys[..i + 1] == keys[..i] + [keys[i]];
      assert keys[i] !in keys[..i];
      if numParents[keys[i]] == 0 {
        NoDupSnoc(free, keys[i]);
        free := free + [keys[i]];
      }
    }
    assert keys[..|keys|] == keys;
  }

  method BuildTables(pairs: seq<(Item, Item)>) returns (numParents: Counts, children: Children)
    ensures Tables(Graph(Mentioned(pairs), pairs), {}, numParents, children)
    ensures children == PairChildren(pairs)
  {
    numParents, children := map[], map[];
    for i := 0 to |pairs|
      invariant Built(pairs[..i], numParents, children)
    {
      var (parent, child) := pairs[i];
      BuiltSnoc(pairs, i, numParents, children);
      if parent !in numParents {
        numParents := numParents[parent := 0];
      }
      if child !in numParents {
        numParents := numParents[child := 0];
      }
      numParents := numParents[child := numParents[child] + 1];
      if parent !in children {
        children := children[parent := []];
      }
      children := children[parent := children[parent] + [child]];
    }
    assert pairs[..|pairs|] == pairs;
    BuiltIsTables(pairs, numParents, children);
  }

  /** The two dictionaries as the first pairs have filled them. */
  ghost predicate Built(pairs: seq<(Item, Item)>, numParents: Counts, children: Children) {
    && numParents.Keys == Mentioned(pairs)
    && children.Keys == Parents(pairs)
    && (forall x :: CountInto(pairs, x, {}) == Get(numParents, x, 0))
    && (forall p :: ChildrenOf(pairs, p) == Get(children, p, []))
  }

  function Get<V>(m: map<Item, V>, x: Item, default: V): V {
    if x in m then m[x] else default
  }

  lemma BuiltSnoc(pairs: seq<(Item, Item)>, i: nat, numParents: Counts, children: Children)
    requires i < |pairs| && Built(pairs[..i], numParents, children)
    ensures var (parent, child) := pairs[i];
      var entered := numParents[parent := Get(numParents, parent, 0)];
      Built(pairs[..i + 1], entered[child := Get(entered, child, 0) + 1],
            children[parent := Get(children, parent, []) + [child]])
  {
    hide Mentioned, Parents, CountInto, ChildrenOf;
    TablesSnoc(pairs, i);
    var (parent, child) := pairs[i];
    var entered := numParents[parent := Get(numParents, parent, 0)];
    var numParents' := entered[child := Get(entered, child, 0) + 1];
    forall x ensures CountInto(pairs[..i + 1], x, {}) == Get(numParents', x, 0) {
      assert CountInto(pairs[..i], x, {}) == Get(numParents, x, 0) == Get(entered, x, 0);
    }
    var children' := children[parent := Get(children, parent, []) + [child]];
    forall p ensures ChildrenOf(pairs[..i + 1], p) == Get(children', p, []) {
      assert ChildrenOf(pairs[..i], p) == Get(children, p, []);
    }
  }

  lemma BuiltIsTables(pairs: seq<(Item, Item)>, numParents: Counts, children: Children)
    requires Built(pairs, numParents, children)
    ensures Tables(Graph(Mentioned(pairs), pairs), {}, numParents, children)
    ensures children == PairChildren(pairs)
  {
    forall p | p in children ensures children[p] == ChildrenOf(pairs, p) {
      assert Get(children, p, []) == children[p];
    }
    forall x | x in numParents ensures numParents[x] == CountInto(pairs, x, {}) {
      assert Get(numParents, x, 0) == numParents[x];
    }
  }

  lemma TablesSnoc(pairs: seq<(Item, Item)>, i: nat)
    requires i < |pairs|
    ensures Mentioned(pairs[..i + 1]) == Mentioned(pairs[..i]) + {pairs[i].0, pairs[i].1}
    ensures Parents(pairs[..i + 1]) == Parents(pairs[..i]) + {pairs[i].0}
    ensures forall x :: CountInto(pairs[..i + 1], x, {}) ==
                        CountInto(pairs[..i], x, {}) + if x == pairs[i].1 then 1 else 0
    ensures forall p :: ChildrenOf(pairs[..i + 1], p) ==
                        ChildrenOf(pairs[..i], p) + if p == pairs[i].0 then [pairs[i].1] else []
  {
    var e := pairs[i];
    assert pairs[..i + 1] == pairs[..i] + [e];
    assert pairs[..i + 1][..i] == pairs[..i];
    assert e in pairs[..i + 1];
    assert forall d :: d in pairs[..i + 1] <==> d in pairs[..i] || d == e;
  }

  lemma MentionedIsValid(pairs: seq<(Item, Item)>)
    ensures Valid(Graph(Mentioned(pairs), pairs))
  {
  }

  /** A zero count means that every parent is done. */
  lemma ReadyIffNoneCounted(g: Graph, done: set<Item>)
    ensures Ready(g, done) == set x | x in g.nodes && CountInto(g.pairs, x, done) == 0
  {
    forall x ensures CountInto(g.pairs, x, done) == 0 <==> forall a :: Edge(g, a, x) ==> a in done {
      CountIntoPositive(g.pairs, x, done);
      if a :| Edge(g, a, x) && a !in done {
        assert (a, x) in g.pairs;
      }
      if a :| (a, x) in g.pairs && a !in done {
        assert Edge(g, a, x);
      }
    }
  }

  /** Elements that become free with `p` stand in the order of its last pairs for them. */
  ghost predicate FreedInOrder(pairs: seq<(Item, Item)>, p: Item, freed: seq<Item>) {
    forall a, b, e, f :: 0 <= a < b < |freed| && LastPair(pairs, p, freed[a], e) && LastPair(pairs, p, freed[b], f) ==>
      e < f
  }

  /** The numbers of the pairs from `p`, in list order. */
  lemma {:induction false} PairsFrom(pairs: seq<(Item, Item)>, p: Item) returns (at: seq<nat>)
    ensures |at| == |ChildrenOf(pairs, p)| && (forall m, n :: 0 <= m < n < |at| ==> at[m] < at[n])
    ensures forall m :: 0 <= m < |at| ==> at[m] < |pairs| && pairs[at[m]] == (p, ChildrenOf(pairs, p)[m])
    ensures forall e :: 0 <= e < |pairs| && pairs[e].0 == p ==> e in at
  {
    at := [];
    if pairs != [] {
      var n := |pairs| - 1;
      at := PairsFrom(pairs[..n], p);
      if pairs[n].0 == p { at := at + [n]; }
    }
  }

  /** `freed` lists some of the first `j` children, each at its last place. */
  ghost predicate LastPlaces(kids: seq<Item>, freed: seq<Item>, places: seq<nat>, j: nat) {
    && |places| == |freed|
    && (forall m, n :: 0 <= m < n < |places| ==> places[m] < places[n])
    && (forall m :: 0 <= m < |places| ==>
          places[m] < j && places[m] < |kids| && kids[places[m]] == freed[m] && freed[m] !in kids[places[m] + 1..])
  }

  lemma LastPlacesOrdered(pairs: seq<(Item, Item)>, p: Item, freed: seq<Item>, places: seq<nat>)
    requires LastPlaces(ChildrenOf(pairs, p), freed, places, |ChildrenOf(pairs, p)|)
    ensures FreedInOrder(pairs, p, freed)
  {
    var kids := ChildrenOf(pairs, p);
    var at := PairsFrom(pairs, p);
    forall a, e | 0 <= a < |freed| && LastPair(pairs, p, freed[a], e) ensures e == at[places[a]] {
      var m :| 0 <= m < |at| && at[m] == e;
      forall n | places[a] < n < |kids| ensures kids[n] != freed[a] {
        assert kids[n] == kids[places[a] + 1..][n - places[a] - 1];
      }
      assert pairs[at[places[a]]] == (p, freed[a]);
    }
  }

  /** Takes finished element `p` out of the tables: its children lose one parent for each
      pair. `newlyFree` collects the children whose count reaches zero, in that order. */
  method TakeOut(ghost g: Graph, ghost done: set<Item>, p: Item, numParents0: Counts, children0: Children)
    returns (numParents: Counts, children: Children, newlyFree: seq<Item>)
    requires Valid(g) && Tables(g, done, numParents0, children0)
    requires done <= Ready(g, done)
    requires p in Ready(g, done) - done
    ensures Tables(g, done + {p}, numParents, children)
    ensures p in numParents0 && numParents.Keys == numParents0.Keys - {p}
    ensures children == children0 - {p}
    ensures NoDup(newlyFree)
    ensures Elems(newlyFree) == Ready(g, done + {p}) - Ready(g, done)
    ensures FreedInOrder(g.pairs, p, newlyFree)
  {
    hide *;
    numParents, children, newlyFree := numParents0 - {p}, children0, [];
    ghost var places: seq<nat> := [];
    FreeStart(g, done, p, numParents0, children0);
    if p in children {
      for j := 0 to |children[p]|
        invariant Freeing(g, done, p, numParents, newlyFree, places, j)
      {
        var child := children[p][j];
        FreeStep(g, done, p, numParents, newlyFree, places, j);
        numParents := numParents[child := numParents[child] - 1];
        if numParents[child] == 0 {
          newlyFree := newlyFree + [child];
          places := places + [j];
        }
      }
      children := children - {p};
    }
    FreeEnd(g, done, p, numParents, newlyFree, places);
    TakenOut(g, done, p, numParents0, children0, numParents);
    assert p !in children0 ==> children0 - {p} == children0;
  }

  /** The first `j` children of `p` have lost a parent; `freed` are those whose count is now zero. */
  ghost predicate Freeing(g: Graph, done: set<Item>, p: Item, numParents: Counts, freed: seq<Item>, places: seq<nat>,
                          j: nat)
  {
    var kids := ChildrenOf(g.pairs, p);
    && j <= |kids| && CountsMinus(g, done + {p}, kids[j..], numParents)
    && NoDup(freed) && Elems(freed) == Zeroes(numParents) - Ready(g, done)
    && LastPlaces(kids, freed, places, j)
  }

  lemma FreeStart(g: Graph, done: set<Item>, p: Item, numParents: Counts, children: Children)
    requires Tables(g, done, numParents, children) && p in Ready(g, done) - done
    ensures p in numParents && ChildrenOf(g.pairs, p) == if p in children then children[p] else []
    ensures Freeing(g, done, p, numParents - {p}, [], [], 0)
  {
    hide Ready, CountInto, ChildrenOf;
    CountsBefore(g, done, p, numParents);
    assert ChildrenOf(g.pairs, p)[0..] == ChildrenOf(g.pairs, p);
  }

  lemma FreeStep(g: Graph, done: set<Item>, p: Item, numParents: Counts, freed: seq<Item>, places: seq<nat>, j: nat)
    requires Valid(g) && done <= Ready(g, done) && p in Ready(g, done) - done
    requires Freeing(g, done, p, numParents, freed, places, j) && j < |ChildrenOf(g.pairs, p)|
    ensures var child := ChildrenOf(g.pairs, p)[j];
      && child in numParents
      && var numParents' := numParents[child := numParents[child] - 1];
         if numParents'[child] == 0 then Freeing(g, done, p, numParents', freed + [child], places + [j], j + 1)
         else Freeing(g, done, p, numParents', freed, places, j + 1)
  {
    hide Ready, CountInto, ChildrenOf, LastPlaces, NoDup;
    var kids := ChildrenOf(g.pairs, p);
    ChildIsPending(g, done, p, j);
    ChildLosesParent(g, done + {p}, kids, j, numParents);
    OneMoreFree(kids, freed, places, j);
  }

  lemma OneMoreFree(kids: seq<Item>, freed: seq<Item>, places: seq<nat>, j: nat)
    requires j < |kids| && NoDup(freed) && LastPlaces(kids, freed, places, j)
    ensures LastPlaces(kids, freed, places, j + 1)
    ensures Elems(freed + [kids[j]]) == Elems(freed) + {kids[j]}
    ensures kids[j] !in freed ==> NoDup(freed + [kids[j]])
    ensures kids[j] !in kids[j + 1..] ==> LastPlaces(kids, freed + [kids[j]], places + [j], j + 1)
  {
  }

  lemma FreeEnd(g: Graph, done: set<Item>, p: Item, numParents: Counts, freed: seq<Item>, places: seq<nat>)
    requires p !in done && done + {p} <= Ready(g, done)
    requires Freeing(g, done, p, numParents, freed, places, |ChildrenOf(g.pairs, p)|)
    ensures CountsMinus(g, done + {p}, [], numParents)
    ensures NoDup(freed) && Elems(freed) == Ready(g, done + {p}) - Ready(g, done)
    ensures FreedInOrder(g.pairs, p, freed)
  {
    hide Ready, CountInto, ChildrenOf, LastPlaces, NoDup;
    assert ChildrenOf(g.pairs, p)[|ChildrenOf(g.pairs, p)|..] == [];
    CountsAfter(g, done, p, numParents);
    LastPlacesOrdered(g.pairs, p, freed, places);
  }

  lemma TakenOut(g: Graph, done: set<Item>, p: Item, numParents0: Counts, children0: Children, numParents: Counts)
    requires Tables(g, done, numParents0, children0) && p in numParents0
    requires CountsMinus(g, done + {p}, [], numParents)
    ensures Tables(g, done + {p}, numParents, children0 - {p})
    ensures numParents.Keys == numParents0.Keys - {p}
  {
    hide CountInto, ChildrenOf;
  }

  /** The counts when the children in `pending` have yet to lose a parent. */
  ghost predicate CountsMinus(g: Graph, done: set<Item>, pending: seq<Item>, numParents: Counts) {
    && numParents.Keys == g.nodes - done
    && forall x :: x in numParents ==> numParents[x] == CountInto(g.pairs, x, done) + multiset(pending)[x]
  }

  function Zeroes(numParents: Counts): set<Item> {
    set x | x in numParents && numParents[x] == 0
  }

  /** A child of an element that is just being finished is neither finished nor free. */
  lemma ChildIsPending(g: Graph, done: set<Item>, p: Item, j: nat)
    requires Valid(g) && done <= Ready(g, done) && p in Ready(g, done) - done
    requires j < |ChildrenOf(g.pairs, p)|
    ensures ChildrenOf(g.pairs, p)[j] in g.nodes - done - {p} - Ready(g, done)
  {
    var child := ChildrenOf(g.pairs, p)[j];
    ChildrenOfMembers(g.pairs, p, child);
    assert Edge(g, p, child);
  }

  lemma CountsBefore(g: Graph, done: set<Item>, p: Item, numParents: Counts)
    requires p in Ready(g, done) - done
    requires CountsMinus(g, done, [], numParents)
    ensures CountsMinus(g, done + {p}, ChildrenOf(g.pairs, p), numParents - {p})
    ensures Zeroes(numParents - {p}) <= Ready(g, done)
    ensures p in g.nodes
  {
    ReadyIffNoneCounted(g, done);
    forall x { CountIntoStep(g.pairs, x, done, p); }
  }

  lemma ChildLosesParent(g: Graph, done: set<Item>, pending: seq<Item>, j: nat, numParents: Counts)
    requires j < |pending| && pending[j] in g.nodes - done
    requires CountsMinus(g, done, pending[j..], numParents)
    ensures numParents[pending[j]] > 0
    ensures var numParents' := numParents[pending[j] := numParents[pending[j]] - 1];
      && CountsMinus(g, done, pending[j + 1..], numParents')
      && Zeroes(numParents') == Zeroes(numParents) + (if numParents'[pending[j]] == 0 then {pending[j]} else {})
      && (numParents'[pending[j]] == 0 ==> pending[j] !in pending[j + 1..])
  {
    assert pending[j..] == [pending[j]] + pending[j + 1..];
  }

  lemma CountsAfter(g: Graph, done: set<Item>, p: Item, numParents: Counts)
    requires p !in done && done + {p} <= Ready(g, done)
    requires CountsMinus(g, done + {p}, [], numParents)
    ensures Zeroes(numParents) - Ready(g, done) == Ready(g, done + {p}) - Ready(g, done)
  {
    ReadyIffNoneCounted(g, done + {p});
  }

  // ---- the worklist sort ----

  method Topsort(pairs: seq<(Item, Item)>) returns (r: SortResult)
    ensures TopsortOutcome(pairs, r)
    ensures QueueOrder(pairs, r.answer)
  {
    hide *;
    var numParents, children := BuildTables(pairs);
    ghost var g := Graph(Mentioned(pairs), pairs);
    MentionedIsValid(pairs);
    var answer := Parentless(numParents);
    Started(g, answer, numParents, children);
    QueueStarts(g, answer);
    ghost var blocks, end: nat := [], |answer|;
    var i := 0;
    while i < |answer|
      invariant 0 <= i <= |answer| <= |g.nodes|
      invariant NoDup(answer) && Elems(answer) == Ready(g, Elems(answer[..i]))
      invariant Tables(g, Elems(answer[..i]), numParents, children)
      invariant children == PairChildren(pairs) - Elems(answer[..i])
      invariant AtLevel(g, blocks, answer, i, end)
      invariant QueueOrder(pairs, answer)
      decreases |g.nodes| - i
    {
      var parent := answer[i];
      DoneGrows(answer, i);
      var newlyFree;
      ghost var done := Elems(answer[..i]);
      numParents, children, newlyFree := TakeOut(g, done, parent, numParents, children);
      blocks, end := NextLevel(g, blocks, answer, i, end, newlyFree);
      QueueGrows(g, answer, i, newlyFree);
      answer := answer + newlyFree;
      i := i + 1;
    }
    Stopped(pairs, answer, blocks, end, numParents, children);
    if numParents != map[] {
      r := CycleError(answer, numParents, children);
    } else {
      r := Sorted(answer);
    }
  }

  lemma Started(g: Graph, answer: seq<Item>, numParents: Counts, children: Children)
    requires Tables(g, {}, numParents, children)
    requires NoDup(answer) && Elems(answer) == Zeroes(numParents)
    ensures Elems(answer[..0]) == {}
    ensures |answer| <= |g.nodes|
    ensures Elems(answer) == Ready(g, {})
    ensures AtLevel(g, [], answer, 0, |answer|)
  {
    ReadyIffNoneCounted(g, {});
    NoDupBound(answer, g.nodes);
    assert answer[..|answer|] == answer;
    assert Stage(g, 1) == Ready(g, Stage(g, 0));
  }

  lemma QueueStarts(g: Graph, answer: seq<Item>)
    requires Elems(answer) == Ready(g, {})
    ensures QueueOrder(g.pairs, answer)
  {
    forall v, p | 0 <= v < |answer| ensures (p, answer[v]) !in g.pairs {
      assert answer[v] in Elems(answer);
      assert !Edge(g, p, answer[v]);
    }
    assert forall v :: 0 <= v < |answer| ==> !HasParent(g.pairs, answer[v]);
    forall x, j, e | FreedAt(g.pairs, answer, x, j, e) ensures (answer[j], x) in g.pairs {
    }
  }

  /** Where every parent of `x` is among the first `i` elements, later ones do not matter. */
  lemma FreedStays(pairs: seq<(Item, Item)>, answer: seq<Item>, more: seq<Item>, i: nat, x: Item, j: int, e: int)
    requires i <= |answer| && NoDup(answer + more)
    requires forall p :: (p, x) in pairs ==> p in answer[..i]
    ensures FreedAt(pairs, answer + more, x, j, e) <==> FreedAt(pairs, answer, x, j, e)
    ensures FreedAt(pairs, answer, x, j, e) ==> j < i
  {
    var s := answer + more;
    forall k | 0 <= k < |s| && (s[k], x) in pairs ensures k < i {
      var l :| 0 <= l < i && answer[..i][l] == s[k];
      assert s[l] == s[k];
    }
    assert forall k :: 0 <= k < |answer| ==> s[k] == answer[k];
    if 0 <= j < |s| && LastPair(pairs, s[j], x, e) { assert (s[j], x) in pairs; }
    if 0 <= j < |answer| && LastPair(pairs, answer[j], x, e) { assert (s[j], x) in pairs; }
  }

  lemma {:induction false} LastPairExists(pairs: seq<(Item, Item)>, p: Item, x: Item)
    requires (p, x) in pairs
    ensures exists e :: LastPair(pairs, p, x, e)
  {
    var n := |pairs| - 1;
    if pairs[n] == (p, x) {
      assert LastPair(pairs, p, x, n);
    } else {
      assert pairs == pairs[..n] + [pairs[n]];
      LastPairExists(pairs[..n], p, x);
      var e :| LastPair(pairs[..n], p, x, e);
      assert LastPair(pairs, p, x, e);
    }
  }

  /** An element that has just become free: its last-placed parent is the one being finished. */
  lemma FreedNow(g: Graph, answer: seq<Item>, newlyFree: seq<Item>, i: nat, x: Item)
    requires i < |answer| && NoDup(answer + newlyFree) && x in newlyFree
    requires Elems(newlyFree) == Ready(g, Elems(answer[..i + 1])) - Ready(g, Elems(answer[..i]))
    ensures HasParent(g.pairs, x) && exists e :: FreedAt(g.pairs, answer + newlyFree, x, i, e)
    ensures forall j, e :: FreedAt(g.pairs, answer + newlyFree, x, j, e) ==> j == i
  {
    var s, p := answer + newlyFree, answer[i];
    assert x in Elems(newlyFree);
    var q :| Edge(g, q, x) && q !in Elems(answer[..i]);
    assert answer[..i + 1] == answer[..i] + [p];
    assert q in Elems(answer[..i + 1]) && q == p && s[i] == p;
    LastPairExists(g.pairs, p, x);
    var e :| LastPair(g.pairs, p, x, e);
    forall k | 0 <= k < |s| && (s[k], x) in g.pairs ensures k <= i {
      assert Edge(g, s[k], x);
      var l :| 0 <= l < i + 1 && answer[..i + 1][l] == s[k];
      assert s[l] == s[k];
    }
    assert FreedAt(g.pairs, s, x, i, e);
    forall j, f | FreedAt(g.pairs, s, x, j, f) ensures j == i {
      assert (s[j], x) in g.pairs;
    }
  }

  /** Finishing element `i` and adding what it frees keeps the order. */
  lemma QueueGrows(g: Graph, answer: seq<Item>, i: nat, newlyFree: seq<Item>)
    requires i < |answer| && NoDup(answer + newlyFree) && QueueOrder(g.pairs, answer)
    requires Elems(answer) == Ready(g, Elems(answer[..i]))
    requires Elems(newlyFree) == Ready(g, Elems(answer[..i + 1])) - Ready(g, Elems(answer[..i]))
    requires FreedInOrder(g.pairs, answer[i], newlyFree)
    ensures QueueOrder(g.pairs, answer + newlyFree)
  {
    hide FreedAt, HasParent;
    var s, n := answer + newlyFree, |answer|;
    forall u | 0 <= u < n
      ensures s[u] == answer[u]
      ensures forall j, e :: FreedAt(g.pairs, s, s[u], j, e) <==> FreedAt(g.pairs, answer, s[u], j, e)
      ensures forall j, e :: FreedAt(g.pairs, answer, s[u], j, e) ==> j < i
    {
      ParentsDone(g, answer, i, u);
      forall j: int, e: int { FreedStays(g.pairs, answer, newlyFree, i, s[u], j, e); }
    }
    forall v | n <= v < |s|
      ensures HasParent(g.pairs, s[v]) && exists j, e :: FreedAt(g.pairs, s, s[v], j, e)
      ensures forall j, e :: FreedAt(g.pairs, s, s[v], j, e) ==> j == i && LastPair(g.pairs, answer[i], s[v], e)
    {
      assert s[v] == newlyFree[v - n];
      FreedNow(g, answer, newlyFree, i, s[v]);
      FreedPair(g.pairs, s, s[v]);
    }
    forall u, v, j, e, k, f | 0 <= u < |s| && 0 <= v < |s|
        && FreedAt(g.pairs, s, s[u], j, e) && FreedAt(g.pairs, s, s[v], k, f)
      ensures j < u && (u < v <==> j < k || (j == k && e < f))
    {
      if u >= n && v >= n {
        assert s[u] == newlyFree[u - n] && s[v] == newlyFree[v - n];
        if u == v { LastPairUnique(g.pairs, answer[i], s[u], e, f); }
      }
    }
  }

  lemma LastPairUnique(pairs: seq<(Item, Item)>, p: Item, x: Item, e: nat, f: nat)
    requires LastPair(pairs, p, x, e) && LastPair(pairs, p, x, f)
    ensures e == f
  {
  }

  lemma FreedPair(pairs: seq<(Item, Item)>, answer: seq<Item>, x: Item)
    ensures forall j, e :: FreedAt(pairs, answer, x, j, e) ==> j < |answer| && LastPair(pairs, answer[j], x, e)
  {
  }

  lemma ParentsDone(g: Graph, answer: seq<Item>, i: nat, u: nat)
    requires i <= |answer| && u < |answer| && Elems(answer) == Ready(g, Elems(answer[..i]))
    ensures forall p :: (p, answer[u]) in g.pairs ==> p in answer[..i]
  {
    assert answer[u] in Elems(answer);
    forall p | (p, answer[u]) in g.pairs ensures p in answer[..i] {
      assert Edge(g, p, answer[u]);
    }
  }

  lemma Stopped(pairs: seq<(Item, Item)>, answer: seq<Item>, blocks: seq<seq<Item>>, end: nat,
                numParents: Counts, children: Children)
    requires var g := Graph(Mentioned(pairs), pairs); var done := Elems(answer[..|answer|]);
      && NoDup(answer) && Elems(answer) == Ready(g, done)
      && Tables(g, done, numParents, children)
      && children == PairChildren(pairs) - done
      && AtLevel(g, blocks, answer, |answer|, end)
    ensures numParents == map[] ==> TopsortOutcome(pairs, Sorted(answer))
    ensures numParents != map[] ==> TopsortOutcome(pairs, CycleError(answer, numParents, children))
  {
    var g := Graph(Mentioned(pairs), pairs);
    MentionedIsValid(pairs);
    var blocks' := LastLevel(g, blocks, answer, end);
    assert LevelOrder(g, answer);
    assert answer[..|answer|] == answer;
    AcyclicIffNothingCyclic(g);
    NothingLeft(g, PairChildren(pairs), numParents, children);
  }

  /** Once everything outside the cyclic part is done, the tables are the leftover, and they
      are empty exactly when the graph has no cycle. */
  lemma NothingLeft(g: Graph, children0: Children, numParents: Counts, children: Children)
    requires Valid(g) && Tables(g, g.nodes - Cyclic(g), numParents, children)
    requires children0.Keys <= g.nodes
    requires children == children0 - (g.nodes - Cyclic(g))
    ensures numParents == LeftoverCounts(g)
    ensures children == LeftoverChildren(g, children0)
    ensures numParents == map[] <==> Acyclic(g)
  {
    hide Acyclic, ChildrenOf, Valid;
    AcyclicIffNothingCyclic(g);
    assert Cyclic(g) <= g.nodes;
    assert g.nodes - (g.nodes - Cyclic(g)) == Cyclic(g);
    assert numParents.Keys == {} <==> numParents == map[];
  }

  lemma DoneGrows(answer: seq<Item>, i: nat)
    requires i < |answer| && NoDup(answer)
    ensures answer[i] !in answer[..i]
    ensures Elems(answer[..i + 1]) == Elems(answer[..i]) + {answer[i]}
    ensures Elems(answer[..i]) <= Elems(answer)
  {
    assert answer[..i + 1] == answer[..i] + [answer[i]];
    ElemsSnoc(answer[..i], answer[i]);
  }

  /** The first-in-first-out order keeps to the levels: `blocks` is finished, `answer` from
      there to `end` is the level the sort is working through (`i` is inside it), and what
      comes after `end` belongs to the next level. */
  ghost predicate AtLevel(g: Graph, blocks: seq<seq<Item>>, answer: seq<Item>, i: nat, end: nat) {
    && |Flatten(blocks)| <= i <= end <= |answer|
    && LevelBlocks(g, blocks)
    && Flatten(blocks) == answer[..|Flatten(blocks)|]
    && Elems(Flatten(blocks)) == Stage(g, |blocks|)
    && Elems(answer[..end]) == Stage(g, |blocks| + 1)
    && (i < |answer| ==> i < end)
  }

  lemma BlockDone(g: Graph, blocks: seq<seq<Item>>, answer: seq<Item>, i: nat, end: nat)
    returns (blocks': seq<seq<Item>>)
    requires AtLevel(g, blocks, answer, i, end) && NoDup(answer) && |Flatten(blocks)| < end
    ensures LevelBlocks(g, blocks') && Flatten(blocks') == answer[..end] && |blocks'| == |blocks| + 1
  {
    hide Stage, Flatten;
    var a := |Flatten(blocks)|;
    var block := answer[a..end];
    blocks' := blocks + [block];
    FlattenSnoc(blocks, block);
    assert answer[..end] == answer[..a] + block;
    assert Elems(block) == Level(g, |blocks|) by {
      forall x ensures x in block <==> x in answer[..end] && x !in answer[..a] {
      }
    }
  }

  lemma NextLevel(g: Graph, blocks: seq<seq<Item>>, answer: seq<Item>, i: nat, end: nat, newlyFree: seq<Item>)
    returns (blocks': seq<seq<Item>>, end': nat)
    requires AtLevel(g, blocks, answer, i, end) && NoDup(answer) && i < |answer|
    requires Elems(answer) == Ready(g, Elems(answer[..i]))
    requires NoDup(newlyFree)
    requires Elems(newlyFree) == Ready(g, Elems(answer[..i + 1])) - Ready(g, Elems(answer[..i]))
    ensures NoDup(answer + newlyFree) && |answer + newlyFree| <= |g.nodes|
    ensures (answer + newlyFree)[..i + 1] == answer[..i + 1]
    ensures Elems(answer + newlyFree) == Ready(g, Elems(answer[..i + 1]))
    ensures AtLevel(g, blocks', answer + newlyFree, i + 1, end')
  {
    var s := answer + newlyFree;
    assert s[..i + 1] == answer[..i + 1];
    assert s[..end] == answer[..end];
    assert s[..|Flatten(blocks)|] == answer[..|Flatten(blocks)|];
    assert Elems(s) == Elems(answer) + Elems(newlyFree);
    NoDupConcat(answer, newlyFree);
    DoneGrows(answer, i);
    NoDupBound(s, g.nodes);
    blocks', end' := blocks, end;
    if i + 1 == end < |s| {
      blocks' := BlockDone(g, blocks, s, i, end);
      end' := |s|;
      assert s[..end'] == s;
    }
  }

  lemma LastLevel(g: Graph, blocks: seq<seq<Item>>, answer: seq<Item>, end: nat)
    returns (blocks': seq<seq<Item>>)
    requires Valid(g)
    requires AtLevel(g, blocks, answer, |answer|, end) && NoDup(answer)
    requires Elems(answer) == Ready(g, Elems(answer[..|answer|]))
    ensures AllLevels(g, blocks') && Flatten(blocks') == answer
    ensures Elems(answer) == g.nodes - Cyclic(g)
  {
    assert answer[..|answer|] == answer;
    var k := |blocks|;
    blocks' := blocks;
    if |Flatten(blocks)| < end {
      blocks' := BlockDone(g, blocks, answer, |answer|, end);
    }
    SettledIsAcyclicPart(g, k + 1);
  }

  // ---- the level-by-level sort ----

  /** Yields the levels one after another; the dictionaries are consumed on the way. */
  method TopsortLevelsCore(ghost g: Graph, numParents0: Counts, children0: Children)
    returns (levels: seq<seq<Item>>, end: LevelsEnd)
    requires Valid(g) && Tables(g, {}, numParents0, children0)
    ensures LevelsOutcome(g, children0, levels, end)
  {
    hide *;
    var numParents, children := numParents0, children0;
    levels := [];
    NoLevels(g, numParents, children0);
    while true
      invariant LevelBlocks(g, levels)
      invariant Tables(g, Stage(g, |levels|), numParents, children)
      invariant children == children0 - Stage(g, |levels|)
      decreases numParents.Keys
    {
      ghost var done := Stage(g, |levels|);
      var levelParents := Parentless(numParents);
      FreeIsLevel(g, levels, levelParents, numParents, children);
      if levelParents == [] {
        break;
      }
      levels := levels + [levelParents];
      ghost var before := numParents.Keys;
      assert done + Elems(levelParents[..0]) == done && before - Elems(levelParents[..0]) == before;
      for j := 0 to |levelParents|
        invariant Tables(g, done + Elems(levelParents[..j]), numParents, children)
        invariant children == children0 - (done + Elems(levelParents[..j]))
        invariant numParents.Keys == before - Elems(levelParents[..j])
      {
        ghost var now := done + Elems(levelParents[..j]);
        DoneGrows(levelParents, j);
        assert levelParents[j] in Elems(levelParents);
        PartOfLevel(g, |levels| - 1, now, levelParents[j]);
        assert now + {levelParents[j]} == done + Elems(levelParents[..j + 1]);
        var newlyFree;
        numParents, children, newlyFree := TakeOut(g, now, levelParents[j], numParents, children);
      }
      assert levelParents[..|levelParents|] == levelParents;
      assert levelParents[0] in Elems(levelParents) && levelParents[0] in before;
    }
    LevelsStopped(g, children0, levels, numParents, children);
    if numParents != map[] {
      end := LevelsCycleError(numParents, children);
    } else {
      end := Finished;
    }
  }

  lemma NoLevels(g: Graph, numParents: Counts, children0: Children)
    requires Tables(g, {}, numParents, children0)
    ensures LevelBlocks(g, []) && Stage(g, 0) == {} && children0 - Stage(g, 0) == children0
    ensures children0.Keys <= g.nodes
  {
  }

  /** The elements with a zero count are the next level. */
  lemma FreeIsLevel(g: Graph, levels: seq<seq<Item>>, free: seq<Item>, numParents: Counts, children: Children)
    requires LevelBlocks(g, levels) && Tables(g, Stage(g, |levels|), numParents, children)
    requires NoDup(free) && Elems(free) == Zeroes(numParents)
    ensures Elems(free) <= numParents.Keys
    ensures Stage(g, |levels|) + Elems(free) == Stage(g, |levels| + 1)
    ensures Stage(g, |levels|) !! Elems(free)
    ensures free != [] ==> LevelBlocks(g, levels + [free])
    ensures free == [] ==> AllLevels(g, levels) && Stage(g, |levels| + 1) == Stage(g, |levels|)
  {
    hide CountInto, ChildrenOf;
    var k := |levels|;
    StageGrows(g, k);
    ReadyIffNoneCounted(g, Stage(g, k));
    hide Ready;
    assert Elems(free) == Level(g, k);
  }

  /** Within a level, an element that is not done yet can be taken out. */
  lemma PartOfLevel(g: Graph, k: nat, now: set<Item>, x: Item)
    requires Stage(g, k) <= now <= Stage(g, k + 1)
    requires x in Stage(g, k + 1) - now
    ensures now <= Ready(g, now) && x in Ready(g, now) - now
  {
  }

  lemma LevelsStopped(g: Graph, children0: Children, levels: seq<seq<Item>>, numParents: Counts, children: Children)
    requires Valid(g) && children0.Keys <= g.nodes
    requires AllLevels(g, levels) && Stage(g, |levels| + 1) == Stage(g, |levels|)
    requires Tables(g, Stage(g, |levels|), numParents, children)
    requires children == children0 - Stage(g, |levels|)
    ensures numParents == map[] ==> LevelsOutcome(g, children0, levels, Finished)
    ensures numParents != map[] ==> LevelsOutcome(g, children0, levels, LevelsCycleError(numParents, children))
  {
    SettledIsAcyclicPart(g, |levels|);
    NothingLeft(g, children0, numParents, children);
  }

  method TopsortLevels(pairs: seq<(Item, Item)>) returns (levels: seq<seq<Item>>, end: LevelsEnd)
    ensures LevelsOutcome(Graph(Mentioned(pairs), pairs), PairChildren(pairs), levels, end)
  {
    var numParents, children := BuildTables(pairs);
    MentionedIsValid(pairs);
    levels, end := TopsortLevelsCore(Graph(Mentioned(pairs), pairs), numParents, children);
  }
}
