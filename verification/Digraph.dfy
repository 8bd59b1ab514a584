/** Directed graphs given, as the sorters receive them, by a finite set of elements and a
    list of (parent, child) pairs in which a pair may occur several times. */
module Digraph {
  import opened Sequences

  type Item(==, !new)

  datatype Graph = Graph(nodes: set<Item>, pairs: seq<(Item, Item)>)

  ghost predicate Valid(g: Graph) {
    forall e :: e in g.pairs ==> e.0 in g.nodes && e.1 in g.nodes
  }

  /** The elements a pair list mentions. */
  function Mentioned(pairs: seq<(Item, Item)>): set<Item> {
    Parents(pairs) + set e | e in pairs :: e.1
  }

  function Parents(pairs: seq<(Item, Item)>): set<Item> {
    set e | e in pairs :: e.0
  }

  ghost predicate Edge(g: Graph, a: Item, b: Item) {
    (a, b) in g.pairs
  }

  /** How many pairs lead into `x` from a parent outside `done`. */
  function CountInto(pairs: seq<(Item, Item)>, x: Item, done: set<Item>): nat {
    if pairs == [] then 0
    else
      var e := pairs[|pairs| - 1];
      CountInto(pairs[..|pairs| - 1], x, done) + (if e.1 == x && e.0 !in done then 1 else 0)
  }

  /** The children of `p`, one entry for each pair, in list order. */
  function ChildrenOf(pairs: seq<(Item, Item)>, p: Item): seq<Item> {
    if pairs == [] then []
    else
      var e := pairs[|pairs| - 1];
      ChildrenOf(pairs[..|pairs| - 1], p) + (if e.0 == p then [e.1] else [])
  }

  lemma {:induction false} CountIntoPositive(pairs: seq<(Item, Item)>, x: Item, done: set<Item>)
    ensures CountInto(pairs, x, done) > 0 <==> exists a :: (a, x) in pairs && a !in done
  {
    if pairs != [] {
      var front, e := pairs[..|pairs| - 1], pairs[|pairs| - 1];
      CountIntoPositive(front, x, done);
      assert pairs == front + [e];
      if e.1 == x && e.0 !in done {
        assert (e.0, x) in pairs && e.0 !in done;
      }
    }
  }

  /** The count is the number of such pairs. */
  lemma {:induction false} CountIntoIs(pairs: seq<(Item, Item)>, x: Item, done: set<Item>)
    ensures CountInto(pairs, x, done) == |set e | 0 <= e < |pairs| && pairs[e].1 == x && pairs[e].0 !in done|
  {
    if pairs != [] {
      var n := |pairs| - 1;
      CountIntoIs(pairs[..n], x, done);
      var before := set e | 0 <= e < n && pairs[..n][e].1 == x && pairs[..n][e].0 !in done;
      var all := set e | 0 <= e < |pairs| && pairs[e].1 == x && pairs[e].0 !in done;
      assert all == before + if pairs[n].1 == x && pairs[n].0 !in done then {n} else {};
    }
  }

  lemma {:induction false} ChildrenOfMembers(pairs: seq<(Item, Item)>, p: Item, x: Item)
    ensures x in ChildrenOf(pairs, p) <==> (p, x) in pairs
  {
    if pairs != [] {
      var front, e := pairs[..|pairs| - 1], pairs[|pairs| - 1];
      ChildrenOfMembers(front, p, x);
      assert pairs == front + [e];
    }
  }

  /** Finishing one more parent removes exactly its own pairs from every count. */
  lemma {:induction false} CountIntoStep(pairs: seq<(Item, Item)>, x: Item, done: set<Item>, p: Item)
    requires p !in done
    ensures CountInto(pairs, x, done) == CountInto(pairs, x, done + {p}) + multiset(ChildrenOf(pairs, p))[x]
  {
    if pairs != [] {
      CountIntoStep(pairs[..|pairs| - 1], x, done, p);
    }
  }

  // ---- paths and cycles ----

  ghost predicate Path(g: Graph, p: seq<Item>) {
    && p != []
    && p[0] in g.nodes
    && forall i :: 0 <= i < |p| - 1 ==> Edge(g, p[i], p[i + 1])
  }

  ghost predicate PathTo(g: Graph, p: seq<Item>, x: Item) {
    Path(g, p) && p[|p| - 1] == x
  }

  /** A closed walk, written without repeating its first element at the end. */
  ghost predicate Cycle(g: Graph, c: seq<Item>) {
    Path(g, c) && Edge(g, c[|c| - 1], c[0])
  }

  ghost predicate Acyclic(g: Graph) {
    forall c :: !Cycle(g, c)
  }

  /** `p` leads from some element of a cycle to `x`. */
  ghost predicate FromCycle(g: Graph, c: seq<Item>, p: seq<Item>, x: Item) {
    Cycle(g, c) && PathTo(g, p, x) && p[0] == c[0]
  }

  ghost predicate BelowCycle(g: Graph, x: Item) {
    exists c, p :: FromCycle(g, c, p, x)
  }

  /** The elements that can be reached from a cycle. */
  ghost function Cyclic(g: Graph): (r: set<Item>) {
    set x | x in g.nodes && BelowCycle(g, x)
  }

  lemma PathNodes(g: Graph, p: seq<Item>)
    requires Valid(g) && Path(g, p)
    ensures Elems(p) <= g.nodes
  {
    forall i | 0 <= i < |p| ensures p[i] in g.nodes {
      if i > 0 {
        assert Edge(g, p[i - 1], p[i - 1 + 1]);
        assert (p[i - 1], p[i]) in g.pairs;
      }
    }
  }

  lemma PathSnoc(g: Graph, p: seq<Item>, x: Item)
    requires Path(g, p) && Edge(g, p[|p| - 1], x)
    ensures PathTo(g, p + [x], x)
  {
    var q := p + [x];
    forall i | 0 <= i < |q| - 1 ensures Edge(g, q[i], q[i + 1]) {
      if i < |p| - 1 { assert Edge(g, p[i], p[i + 1]); }
    }
  }

  lemma PathInit(g: Graph, p: seq<Item>)
    requires Path(g, p) && |p| > 1
    ensures PathTo(g, p[..|p| - 1], p[|p| - 2])
    ensures Edge(g, p[|p| - 2], p[|p| - 1])
  {
    var q := p[..|p| - 1];
    forall i | 0 <= i < |q| - 1 ensures Edge(g, q[i], q[i + 1]) {
      assert Edge(g, p[i], p[i + 1]);
    }
    assert Edge(g, p[|p| - 2], p[|p| - 2 + 1]);
  }

  lemma PathSlice(g: Graph, p: seq<Item>, i: nat, j: nat)
    requires Valid(g) && Path(g, p) && i < j <= |p|
    ensures Path(g, p[i..j])
  {
    PathNodes(g, p);
    assert p[i] in Elems(p);
    var q := p[i..j];
    forall k | 0 <= k < |q| - 1 ensures Edge(g, q[k], q[k + 1]) {
      assert Edge(g, p[i + k], p[i + k + 1]);
    }
  }

  /** Going once more round the cycle before following `p`. */
  lemma CycleThenPath(g: Graph, c: seq<Item>, p: seq<Item>, x: Item)
    requires FromCycle(g, c, p, x)
    ensures FromCycle(g, c, c + p, x)
  {
    var q := c + p;
    forall i | 0 <= i < |q| - 1 ensures Edge(g, q[i], q[i + 1]) {
      if i < |c| - 1 {
        assert Edge(g, c[i], c[i + 1]);
      } else if i >= |c| {
        assert Edge(g, p[i - |c|], p[i - |c| + 1]);
      }
    }
  }

  lemma {:induction false} LongPathBelowCycle(g: Graph, x: Item, n: nat)
    requires BelowCycle(g, x)
    ensures exists c, p :: FromCycle(g, c, p, x) && |p| > n
  {
    var c, p :| FromCycle(g, c, p, x);
    var k := 0;
    while k < n
      invariant 0 <= k <= n && |p| > k
      invariant FromCycle(g, c, p, x)
    {
      CycleThenPath(g, c, p, x);
      p := c + p;
      k := k + 1;
    }
  }

  /** A path that is longer than the graph has elements runs round a cycle. */
  lemma LongPathHasCycle(g: Graph, p: seq<Item>, x: Item)
    requires Valid(g) && PathTo(g, p, x) && |p| > |g.nodes|
    ensures BelowCycle(g, x)
  {
    PathNodes(g, p);
    if NoDup(p) {
      NoDupBound(p, g.nodes);
    }
    var i, j :| 0 <= i < j < |p| && p[i] == p[j];
    PathSlice(g, p, i, j);
    PathSlice(g, p, i, |p|);
    var c := p[i..j];
    assert Edge(g, p[j - 1], p[j - 1 + 1]);
    assert FromCycle(g, c, p[i..], x);
  }

  // ---- dependency stages ----

  /** The elements all of whose parents are in `done`. */
  ghost function Ready(g: Graph, done: set<Item>): set<Item> {
    set x | x in g.nodes && forall a :: Edge(g, a, x) ==> a in done
  }

  /** What can be placed within `k` rounds of "place everything whose parents are placed". */
  ghost function Stage(g: Graph, k: nat): set<Item> {
    if k == 0 then {} else Ready(g, Stage(g, k - 1))
  }

  ghost function Level(g: Graph, k: nat): set<Item> {
    Stage(g, k + 1) - Stage(g, k)
  }

  lemma {:induction false} StageGrows(g: Graph, k: nat)
    ensures Stage(g, k) <= Stage(g, k + 1)
  {
    if k > 0 { StageGrows(g, k - 1); }
  }

  lemma {:induction false} StageFixpoint(g: Graph, j: nat, k: nat)
    requires j <= k && Stage(g, j + 1) == Stage(g, j)
    ensures Stage(g, k) == Stage(g, j)
  {
    if j < k { StageFixpoint(g, j, k - 1); }
  }

  lemma {:induction false} StageBoundsPaths(g: Graph, k: nat, p: seq<Item>, x: Item)
    requires x in Stage(g, k) && PathTo(g, p, x)
    ensures |p| <= k
  {
    if |p| > 1 {
      PathInit(g, p);
      var a := p[|p| - 2];
      assert Edge(g, a, x);
      StageBoundsPaths(g, k - 1, p[..|p| - 1], a);
    }
  }

  lemma {:induction false} PathBeyondStage(g: Graph, k: nat, x: Item)
    requires Valid(g) && x in g.nodes && x !in Stage(g, k)
    ensures exists p :: PathTo(g, p, x) && |p| == k + 1
  {
    if k == 0 {
      assert PathTo(g, [x], x);
    } else {
      var a :| Edge(g, a, x) && a !in Stage(g, k - 1);
      assert (a, x) in g.pairs;
      PathBeyondStage(g, k - 1, a);
      var q :| PathTo(g, q, a) && |q| == k;
      PathSnoc(g, q, x);
    }
  }

  /** The longest chain of predecessors of `x`, `x` itself not counted, has length `k`. */
  ghost predicate HasDepth(g: Graph, x: Item, k: nat) {
    && (exists p :: PathTo(g, p, x) && |p| == k + 1)
    && (forall p :: PathTo(g, p, x) ==> |p| <= k + 1)
  }

  /** A level is exactly the elements of one longest-chain depth. */
  lemma LevelIsDepth(g: Graph, k: nat, x: Item)
    requires Valid(g)
    ensures x in Level(g, k) <==> x in g.nodes && HasDepth(g, x, k)
  {
    if x in Level(g, k) {
      PathBeyondStage(g, k, x);
      forall q | PathTo(g, q, x) ensures |q| <= k + 1 {
        StageBoundsPaths(g, k + 1, q, x);
      }
    }
    if x in g.nodes && HasDepth(g, x, k) {
      if x in Stage(g, k) {
        var p :| PathTo(g, p, x) && |p| == k + 1;
        StageBoundsPaths(g, k, p, x);
      }
      if x !in Stage(g, k + 1) {
        PathBeyondStage(g, k + 1, x);
      }
    }
  }

  /** What is ever placed is exactly what lies below no cycle. */
  lemma SettledIsAcyclicPart(g: Graph, k: nat)
    requires Valid(g) && Stage(g, k + 1) == Stage(g, k)
    ensures Stage(g, k) == g.nodes - Cyclic(g)
  {
    forall x | x in g.nodes
      ensures x in Stage(g, k) <==> !BelowCycle(g, x)
    {
      if x in Stage(g, k) && BelowCycle(g, x) {
        LongPathBelowCycle(g, x, k);
        var c, p :| FromCycle(g, c, p, x) && |p| > k;
        StageBoundsPaths(g, k, p, x);
      }
      if x !in Stage(g, k) {
        var n := k + |g.nodes|;
        StageFixpoint(g, k, n);
        PathBeyondStage(g, n, x);
        var p :| PathTo(g, p, x) && |p| == n + 1;
        LongPathHasCycle(g, p, x);
      }
    }
    assert Stage(g, k) <= g.nodes;
  }

  lemma AcyclicIffNothingCyclic(g: Graph)
    requires Valid(g)
    ensures Acyclic(g) <==> Cyclic(g) == {}
  {
    if c :| Cycle(g, c) {
      assert FromCycle(g, c, [c[0]], c[0]);
      assert c[0] in Cyclic(g);
    }
    if x :| x in Cyclic(g) {
      var c, p :| FromCycle(g, c, p, x);
      assert Cycle(g, c);
    }
  }
}
