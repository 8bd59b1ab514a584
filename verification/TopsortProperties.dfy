/** What the outcomes of the two sorts and of the cycle finder mean, and how they agree. */
module TopsortProperties {
  import opened Sequences
  import opened Digraph
  import opened RadUtil
  import opened Topsort
  import opened FindCycles

  // ---- the order of the worklist sort ----

  lemma {:induction false} BlocksUpTo(g: Graph, blocks: seq<seq<Item>>, k: nat)
    requires LevelBlocks(g, blocks) && k <= |blocks|
    ensures NoDup(Flatten(blocks[..k])) && Elems(Flatten(blocks[..k])) == Stage(g, k)
  {
    if k > 0 {
      BlocksUpTo(g, blocks, k - 1);
      StageGrows(g, k - 1);
      assert blocks[..k] == blocks[..k - 1] + [blocks[k - 1]];
      FlattenSnoc(blocks[..k - 1], blocks[k - 1]);
      NoDupConcat(Flatten(blocks[..k - 1]), blocks[k - 1]);
      assert forall x :: x in Flatten(blocks[..k]) <==>
               x in Elems(Flatten(blocks[..k - 1])) || x in Elems(blocks[k - 1]);
    }
  }

  lemma {:induction false} FlattenPrefix(blocks: seq<seq<Item>>, k: nat)
    requires k <= |blocks|
    ensures Flatten(blocks[..k]) <= Flatten(blocks)
    decreases |blocks|
  {
    if k < |blocks| {
      var init := blocks[..|blocks| - 1];
      FlattenPrefix(init, k);
      assert init[..k] == blocks[..k];
    } else {
      assert blocks[..k] == blocks;
    }
  }

  lemma FlattenMonotone(blocks: seq<seq<Item>>, j: nat, k: nat)
    requires j <= k <= |blocks|
    ensures |Flatten(blocks[..j])| <= |Flatten(blocks[..k])|
  {
    FlattenPrefix(blocks[..k], j);
    assert blocks[..k][..j] == blocks[..j];
  }

  lemma BlockInFlatten(blocks: seq<seq<Item>>, k: nat, x: Item)
    requires k < |blocks| && x in blocks[k]
    ensures x in Flatten(blocks)
  {
    FlattenPrefix(blocks, k + 1);
    assert blocks[..k + 1] == blocks[..k] + [blocks[k]];
    FlattenSnoc(blocks[..k], blocks[k]);
    assert x in Flatten(blocks[..k + 1]);
  }

  lemma LevelNotEmpty(g: Graph, blocks: seq<seq<Item>>, k: nat)
    requires LevelBlocks(g, blocks) && k < |blocks|
    ensures Level(g, k) != {}
  {
    assert blocks[k][0] in Elems(blocks[k]);
  }

  /** Position `i` of the order lies in the block of the element's level. */
  lemma {:induction false} BlockAt(g: Graph, blocks: seq<seq<Item>>, i: nat) returns (k: nat)
    requires LevelBlocks(g, blocks) && i < |Flatten(blocks)|
    ensures k < |blocks| && |Flatten(blocks[..k])| <= i < |Flatten(blocks[..k + 1])|
    ensures Flatten(blocks)[i] in Level(g, k)
    decreases |blocks|
  {
    var n := |blocks| - 1;
    assert blocks[..n + 1] == blocks;
    if i < |Flatten(blocks[..n])| {
      k := BlockAt(g, blocks[..n], i);
      assert blocks[..n][..k] == blocks[..k] && blocks[..n][..k + 1] == blocks[..k + 1];
    } else {
      k := n;
      assert Flatten(blocks)[i] == blocks[n][i - |Flatten(blocks[..n])|];
      assert Flatten(blocks)[i] in Elems(blocks[n]);
    }
  }

  lemma AllLevelsCount(g: Graph, blocks: seq<seq<Item>>)
    requires Valid(g) && AllLevels(g, blocks)
    ensures NoDup(Flatten(blocks)) && Elems(Flatten(blocks)) == g.nodes - Cyclic(g)
  {
    assert blocks[..|blocks|] == blocks;
    BlocksUpTo(g, blocks, |blocks|);
    StageGrows(g, |blocks|);
    assert Stage(g, |blocks| + 1) == Stage(g, |blocks|) + Level(g, |blocks|);
    SettledIsAcyclicPart(g, |blocks|);
  }

  /** The sorted elements are, each once, those below no cycle; every parent comes before its
      child; and the longest-chain depth never goes down along the order. */
  lemma LevelOrderIsTopological(g: Graph, s: seq<Item>)
    requires Valid(g) && LevelOrder(g, s)
    ensures NoDup(s) && Elems(s) == g.nodes - Cyclic(g)
    ensures forall a, i :: 0 <= i < |s| && Edge(g, a, s[i]) ==> a in s[..i]
    ensures forall i, j, d, e :: 0 <= i < j < |s| && HasDepth(g, s[i], d) && HasDepth(g, s[j], e) ==> d <= e
  {
    var blocks :| AllLevels(g, blocks) && Flatten(blocks) == s;
    AllLevelsCount(g, blocks);
    forall a, i | 0 <= i < |s| && Edge(g, a, s[i]) ensures a in s[..i] {
      var k := BlockAt(g, blocks, i);
      BlocksUpTo(g, blocks, k);
      FlattenPrefix(blocks, k);
      assert a in Stage(g, k);
      assert a in Flatten(blocks[..k]);
    }
    forall i, j, d, e | 0 <= i < j < |s| && HasDepth(g, s[i], d) && HasDepth(g, s[j], e) ensures d <= e {
      var k := BlockAt(g, blocks, i);
      var l := BlockAt(g, blocks, j);
      DepthUnique(g, s[i], d, k);
      DepthUnique(g, s[j], e, l);
      if l < k {
        FlattenMonotone(blocks, l + 1, k);
      }
    }
  }

  lemma DepthUnique(g: Graph, x: Item, d: nat, k: nat)
    requires Valid(g) && HasDepth(g, x, d) && x in Level(g, k)
    ensures d == k
  {
    LevelIsDepth(g, k, x);
    var p :| PathTo(g, p, x) && |p| == d + 1;
    var q :| PathTo(g, q, x) && |q| == k + 1;
  }

  /** Returning normally: all the mentioned elements, each once, parents first. */
  lemma TopsortReturns(pairs: seq<(Item, Item)>, r: SortResult)
    requires TopsortOutcome(pairs, r) && r.Sorted?
    ensures NoDup(r.answer) && Elems(r.answer) == Mentioned(pairs)
    ensures forall a, i :: 0 <= i < |r.answer| && (a, r.answer[i]) in pairs ==> a in r.answer[..i]
  {
    var g := Graph(Mentioned(pairs), pairs);
    MentionedIsValid(pairs);
    LevelOrderIsTopological(g, r.answer);
    AcyclicIffNothingCyclic(g);
    forall a, i | 0 <= i < |r.answer| && (a, r.answer[i]) in pairs ensures a in r.answer[..i] {
      assert Edge(g, a, r.answer[i]);
    }
  }

  /** Raising: the leftover is not empty, contains a cycle, and is what the answer lacks;
      every leftover element still has an unfinished parent. */
  lemma TopsortRaises(pairs: seq<(Item, Item)>, r: SortResult)
    requires TopsortOutcome(pairs, r) && r.CycleError?
    ensures r.numParents.Keys == Mentioned(pairs) - Elems(r.answer)
    ensures exists c :: Cycle(Graph(Mentioned(pairs), pairs), c) && Elems(c) <= r.numParents.Keys
    ensures forall x :: x in r.numParents ==>
              r.numParents[x] > 0 && exists a :: a in r.numParents && (a, x) in pairs
  {
    var g := Graph(Mentioned(pairs), pairs);
    MentionedIsValid(pairs);
    LevelOrderIsTopological(g, r.answer);
    var c :| Cycle(g, c);
    CycleIsCyclic(g, c);
    assert Cycle(g, c) && Elems(c) <= r.numParents.Keys;
    forall x | x in r.numParents
      ensures r.numParents[x] > 0 && exists a :: a in r.numParents && (a, x) in pairs
    {
      CyclicParent(g, x);
      var a :| a in Cyclic(g) && Edge(g, a, x);
      assert (a, x) in pairs && a !in g.nodes - Cyclic(g);
      CountIntoPositive(g.pairs, x, g.nodes - Cyclic(g));
    }
  }

  lemma CycleIsCyclic(g: Graph, c: seq<Item>)
    requires Valid(g) && Cycle(g, c)
    ensures Elems(c) <= Cyclic(g)
  {
    PathNodes(g, c);
    forall i | 0 <= i < |c| ensures c[i] in Cyclic(g) {
      PathSlice(g, c, 0, i + 1);
      assert c[i] in Elems(c);
      assert FromCycle(g, c, c[0..i + 1], c[i]);
    }
  }

  /** Below a cycle there is always a parent that is below a cycle as well. */
  lemma CyclicParent(g: Graph, x: Item)
    requires Valid(g) && x in Cyclic(g)
    ensures exists a :: a in Cyclic(g) && Edge(g, a, x)
  {
    LongPathBelowCycle(g, x, 1);
    var c, p :| FromCycle(g, c, p, x) && |p| > 1;
    PathNodes(g, p);
    PathInit(g, p);
    var a := p[|p| - 2];
    assert a in Elems(p);
    assert FromCycle(g, c, p[..|p| - 1], a);
  }

  /** The remark beside the raise speaks of a child; a leftover element need not have one: */
  lemma LeftoverWithoutChild(a: Item, b: Item, r: SortResult)
    requires a != b && TopsortOutcome([(a, a), (a, b)], r)
    ensures r.CycleError? && b in r.numParents && b !in r.children
  {
    var pairs := [(a, a), (a, b)];
    var g := Graph(Mentioned(pairs), pairs);
    assert Edge(g, a, a) && Edge(g, a, b) by {
      assert pairs[0] == (a, a) && pairs[1] == (a, b);
    }
    assert pairs[0].0 in Mentioned(pairs) && pairs[1].1 in set e | e in pairs :: e.1;
    assert Path(g, [a, b]);
    assert Cycle(g, [a]);
    assert FromCycle(g, [a], [a, b], b);
    assert b !in Parents(pairs);
  }

  /** The leftover dictionaries, in terms of the pairs: each count is the number of pairs from leftover
      parents, and each leftover parent has the children of its pairs, one for each, in list order. */
  lemma LeftoverTables(pairs: seq<(Item, Item)>, r: SortResult)
    requires TopsortOutcome(pairs, r) && r.CycleError?
    ensures forall x :: x in r.numParents ==>
              r.numParents[x] == |set e | 0 <= e < |pairs| && pairs[e].1 == x && pairs[e].0 in r.numParents|
    ensures r.children.Keys == r.numParents.Keys * Parents(pairs)
    ensures forall p :: p in r.children ==> exists at: seq<nat> :: ListsPairs(pairs, p, r.children[p], at)
  {
    var g := Graph(Mentioned(pairs), pairs);
    forall x | x in r.numParents
      ensures r.numParents[x] == |set e | 0 <= e < |pairs| && pairs[e].1 == x && pairs[e].0 in r.numParents|
    {
      CountIntoIs(pairs, x, g.nodes - Cyclic(g));
      forall e | 0 <= e < |pairs| ensures pairs[e].0 in g.nodes {
        assert pairs[e] in pairs;
      }
      assert (set e | 0 <= e < |pairs| && pairs[e].1 == x && pairs[e].0 in r.numParents) ==
             (set e | 0 <= e < |pairs| && pairs[e].1 == x && pairs[e].0 !in g.nodes - Cyclic(g));
    }
    forall p | p in r.children ensures exists at: seq<nat> :: ListsPairs(pairs, p, r.children[p], at) {
      var at := PairsFrom(pairs, p);
      assert ListsPairs(pairs, p, r.children[p], at);
    }
  }

  /** `kids` are the second parts of the pairs from `p`, which have the numbers `at`. */
  ghost predicate ListsPairs(pairs: seq<(Item, Item)>, p: Item, kids: seq<Item>, at: seq<nat>) {
    && |at| == |kids| && (forall m, n :: 0 <= m < n < |at| ==> at[m] < at[n])
    && (forall m :: 0 <= m < |at| ==> at[m] < |pairs| && pairs[at[m]] == (p, kids[m]))
    && (forall e :: 0 <= e < |pairs| && pairs[e].0 == p ==> e in at)
  }

  /** Everything left has a child exactly when no element without children, that is, never named
      as a parent, can be reached from a cycle. */
  lemma LeftoverHasChildrenIff(pairs: seq<(Item, Item)>, r: SortResult)
    requires TopsortOutcome(pairs, r) && r.CycleError?
    ensures (forall x :: x in r.numParents ==> x in r.children) <==>
            forall x :: x in Mentioned(pairs) - Parents(pairs) ==> !BelowCycle(Graph(Mentioned(pairs), pairs), x)
  {
    var g := Graph(Mentioned(pairs), pairs);
    forall x ensures x in r.numParents <==> x in Mentioned(pairs) && BelowCycle(g, x) {}
    forall x ensures x in r.children <==> x in Parents(pairs) && x in r.numParents {}
  }

  // ---- the two sorts agree ----

  lemma {:induction false} LevelsAgree(g: Graph, blocks: seq<seq<Item>>, levels: seq<seq<Item>>)
    requires AllLevels(g, blocks) && AllLevels(g, levels)
    ensures |blocks| == |levels|
    ensures forall k :: 0 <= k < |blocks| ==> multiset(blocks[k]) == multiset(levels[k])
  {
    if |blocks| < |levels| {
      LevelNotEmpty(g, levels, |blocks|);
    } else if |levels| < |blocks| {
      LevelNotEmpty(g, blocks, |levels|);
    }
    forall k | 0 <= k < |blocks| ensures multiset(blocks[k]) == multiset(levels[k]) {
      SameElems(blocks[k], levels[k]);
    }
  }

  lemma SameElems(s: seq<Item>, t: seq<Item>)
    requires NoDup(s) && NoDup(t) && Elems(s) == Elems(t)
    ensures multiset(s) == multiset(t)
  {
    NoDupMultiset(s);
    NoDupMultiset(t);
    assert forall x :: x in s <==> x in Elems(s);
    assert forall x :: x in t <==> x in Elems(t);
  }

  lemma {:induction false} NoDupMultiset(s: seq<Item>)
    requires NoDup(s)
    ensures forall x :: multiset(s)[x] == if x in s then 1 else 0
  {
    if s != [] {
      var front, x := s[..|s| - 1], s[|s| - 1];
      NoDupMultiset(front);
      assert s == front + [x];
      assert x !in front;
    }
  }

  /** The worklist order is the concatenation of the yielded levels, each level possibly
      permuted; both sorts fail together, with the same leftover dictionaries. */
  lemma SortsAgree(pairs: seq<(Item, Item)>, r: SortResult, levels: seq<seq<Item>>, end: LevelsEnd)
    requires TopsortOutcome(pairs, r)
    requires LevelsOutcome(Graph(Mentioned(pairs), pairs), PairChildren(pairs), levels, end)
    ensures r.Sorted? <==> end.Finished?
    ensures r.CycleError? ==> r.numParents == end.numParents && r.children == end.children
    ensures exists blocks: seq<seq<Item>> :: Flatten(blocks) == r.answer && |blocks| == |levels| &&
              forall k :: 0 <= k < |blocks| ==> multiset(blocks[k]) == multiset(levels[k])
  {
    var g := Graph(Mentioned(pairs), pairs);
    var blocks :| AllLevels(g, blocks) && Flatten(blocks) == r.answer;
    LevelsAgree(g, blocks, levels);
  }

  /** Level `k`, whether or not the sort fails later, holds exactly the elements whose longest
      chain of predecessors has length `k`; the elements in no level are those below a cycle. */
  lemma LevelsAreDepths(g: Graph, children: Children, levels: seq<seq<Item>>, end: LevelsEnd, x: Item)
    requires Valid(g) && LevelsOutcome(g, children, levels, end) && x in g.nodes
    ensures forall k :: 0 <= k < |levels| ==> (x in levels[k] <==> HasDepth(g, x, k))
    ensures BelowCycle(g, x) <==> forall k :: 0 <= k < |levels| ==> x !in levels[k]
  {
    forall k | 0 <= k < |levels| ensures x in levels[k] <==> HasDepth(g, x, k) {
      LevelIsDepth(g, k, x);
      assert x in levels[k] <==> x in Elems(levels[k]);
    }
    AllLevelsCount(g, levels);
    if x !in Cyclic(g) {
      assert x in Flatten(levels);
      var i :| 0 <= i < |Flatten(levels)| && Flatten(levels)[i] == x;
      var k := BlockAt(g, levels, i);
      assert x in Elems(levels[k]);
    } else if k :| 0 <= k < |levels| && x in levels[k] {
      BlockInFlatten(levels, k, x);
    }
  }

  /** No element is yielded twice. */
  lemma LevelsAreDisjoint(g: Graph, children: Children, levels: seq<seq<Item>>, end: LevelsEnd)
    requires Valid(g) && LevelsOutcome(g, children, levels, end)
    ensures NoDup(Flatten(levels))
    ensures forall k, l, x :: 0 <= k < |levels| && 0 <= l < |levels| && x in levels[k] && x in levels[l] ==> k == l
  {
    AllLevelsCount(g, levels);
    forall k, l, x | 0 <= k < |levels| && 0 <= l < |levels| && x in levels[k] && x in levels[l] ensures k == l {
      LevelIsDepth(g, k, x);
      DepthUnique(g, x, k, l);
    }
  }

  // ---- cycles in the leftover ----

  /** A cycle of the pair list that repeats no element. */
  ghost predicate SimpleGraphCycle(g: Graph, c: seq<Item>) {
    Cycle(g, c) && NoDup(c)
  }

  lemma LeftoverKid(pairs: seq<(Item, Item)>, a: Item, b: Item)
    ensures var g := Graph(Mentioned(pairs), pairs);
      Kid(LeftoverChildren(g, PairChildren(pairs)), a, b) <==> a in Cyclic(g) && Edge(g, a, b)
  {
    ChildrenOfMembers(pairs, a, b);
    if (a, b) in pairs {
      assert (a, b).0 in Parents(pairs);
    }
  }

  /** Searching the leftover children dictionary for cycles loses nothing and invents nothing:
      its simple cycles are the simple cycles of the original pair list. */
  lemma LeftoverKeepsCycles(pairs: seq<(Item, Item)>, c: seq<Item>)
    ensures var g := Graph(Mentioned(pairs), pairs);
      SimpleCycle(LeftoverChildren(g, PairChildren(pairs)), c) <==> SimpleGraphCycle(g, c)
  {
    var g := Graph(Mentioned(pairs), pairs);
    var left := LeftoverChildren(g, PairChildren(pairs));
    MentionedIsValid(pairs);
    forall a, b { LeftoverKid(pairs, a, b); }
    if SimpleGraphCycle(g, c) {
      CycleIsCyclic(g, c);
      forall i | 0 <= i < |c| ensures c[i] in Cyclic(g) {
        assert c[i] in Elems(c);
      }
      forall i | 0 <= i < |c| - 1 ensures Kid(left, c[i], c[i + 1]) {
        assert Edge(g, c[i], c[i + 1]);
      }
    }
    if SimpleCycle(left, c) {
      assert Kid(left, Last(c), c[0]);
      assert (Last(c), c[0]).1 in g.nodes;
      forall i | 0 <= i < |c| - 1 ensures Edge(g, c[i], c[i + 1]) {
        assert Kid(left, c[i], c[i + 1]);
      }
    }
  }

  /** After a failed sort, the cycle finder run on the leftover yields each simple cycle of the
      pair list exactly once up to rotation. */
  lemma LeftoverCyclesAreAll(pairs: seq<(Item, Item)>, r: SortResult, cycles: seq<seq<Item>>)
    requires TopsortOutcome(pairs, r) && r.CycleError? && AllCycles(r.children, cycles)
    ensures var g := Graph(Mentioned(pairs), pairs);
      && cycles != []
      && (forall c :: c in cycles ==> SimpleGraphCycle(g, c))
      && forall c :: SimpleGraphCycle(g, c) ==>
           exists i :: 0 <= i < |cycles| && Rotation(cycles[i], c) &&
             forall j :: 0 <= j < |cycles| && Rotation(cycles[j], c) ==> j == i
  {
    var g := Graph(Mentioned(pairs), pairs);
    forall c { LeftoverKeepsCycles(pairs, c); }
    forall c | SimpleGraphCycle(g, c)
      ensures exists i :: 0 <= i < |cycles| && Rotation(cycles[i], c) &&
                forall j :: 0 <= j < |cycles| && Rotation(cycles[j], c) ==> j == i
    {
      FoundOnce(r.children, cycles, c);
    }
    var c :| Cycle(g, c);
    ShortenCycle(g, c);
  }

  /** A simple cycle is represented by exactly one yield. */
  lemma FoundOnce(children: Children, cycles: seq<seq<Item>>, c: seq<Item>)
    requires AllCycles(children, cycles) && SimpleCycle(children, c)
    ensures exists i :: 0 <= i < |cycles| && Rotation(cycles[i], c) &&
              forall j :: 0 <= j < |cycles| && Rotation(cycles[j], c) ==> j == i
  {
    var d :| d in cycles && Rotation(d, c);
    var i :| 0 <= i < |cycles| && cycles[i] == d;
    RotationSymmetric(d, c);
    forall j | 0 <= j < |cycles| && Rotation(cycles[j], c) ensures j == i {
      RotationTransitive(cycles[j], c, d);
    }
  }

  lemma {:induction false} ShortenCycle(g: Graph, c: seq<Item>)
    requires Valid(g) && Cycle(g, c)
    ensures exists d :: SimpleGraphCycle(g, d)
    decreases |c|
  {
    if NoDup(c) {
      assert SimpleGraphCycle(g, c);
    } else {
      var i, j :| 0 <= i < j < |c| && c[i] == c[j];
      PathSlice(g, c, i, j);
      assert Edge(g, c[j - 1], c[j - 1 + 1]);
      ShortenCycle(g, c[i..j]);
    }
  }
}
