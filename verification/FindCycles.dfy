/** Enumeration of the simple cycles of a graph given as a dictionary from elements to their
    children, with an explicit stack of paths. */
module FindCycles {
  import opened Sequences
  import opened Digraph
  import opened RadUtil
  import opened Topsort

  ghost predicate Kid(children: Children, a: Item, b: Item) {
    a in children && b in children[a]
  }

  ghost predicate SimplePath(children: Children, p: seq<Item>) {
    && p != [] && NoDup(p)
    && forall i :: 0 <= i < |p| - 1 ==> Kid(children, p[i], p[i + 1])
  }

  function Last(p: seq<Item>): Item
    requires p != []
  {
    p[|p| - 1]
  }

  /** The last element is a parent of the first one. */
  ghost predicate SimpleCycle(children: Children, c: seq<Item>) {
    SimplePath(children, c) && Kid(children, Last(c), c[0])
  }

  ghost predicate Found(cycles: seq<seq<Item>>, c: seq<Item>) {
    exists d :: d in cycles && Rotation(d, c)
  }

  /** Genuine cycles, no two of them rotations of each other. */
  ghost predicate DistinctCycles(children: Children, cycles: seq<seq<Item>>) {
    && (forall c :: c in cycles ==> SimpleCycle(children, c))
    && (forall i, j :: 0 <= i < |cycles| && 0 <= j < |cycles| && Rotation(cycles[i], cycles[j]) ==> i == j)
  }

  /** Every simple cycle through `v` has been found. */
  ghost predicate Covered(children: Children, cycles: seq<seq<Item>>, v: Item) {
    forall c :: SimpleCycle(children, c) && v in c ==> Found(cycles, c)
  }

  ghost predicate AllCycles(children: Children, cycles: seq<seq<Item>>) {
    && DistinctCycles(children, cycles)
    && forall c :: SimpleCycle(children, c) ==> Found(cycles, c)
  }

  // ---- one path ----

  function IndexOf(p: seq<Item>, x: Item): (i: nat)
    requires x in p
    ensures i < |p| && p[i] == x && x !in p[..i]
  {
    if p[0] == x then 0 else 1 + IndexOf(p[1..], x)
  }

  method IsDuplicate(cycles: seq<seq<Item>>, cycle: seq<Item>) returns (isDup: bool)
    requires cycle != []
    ensures isDup <==> Found(cycles, cycle)
  {
    for i := 0 to |cycles|
      invariant forall j :: 0 <= j < i ==> !Rotation(cycles[j], cycle)
    {
      var same := IsRotated(cycles[i], cycle);
      if same {
        return true;
      }
    }
    return false;
  }

  lemma CycleInPath(children: Children, p: seq<Item>, kid: Item)
    requires SimplePath(children, p) && Kid(children, Last(p), kid) && kid in p
    ensures SimpleCycle(children, p[IndexOf(p, kid)..])
  {
    var i := IndexOf(p, kid);
    var c := p[i..];
    forall k | 0 <= k < |c| - 1 ensures Kid(children, c[k], c[k + 1]) {
      assert Kid(children, p[i + k], p[i + k + 1]);
    }
  }

  lemma AddCycle(children: Children, cycles: seq<seq<Item>>, c: seq<Item>)
    requires DistinctCycles(children, cycles) && SimpleCycle(children, c) && !Found(cycles, c)
    ensures DistinctCycles(children, cycles + [c]) && Found(cycles + [c], c)
  {
    var s := cycles + [c];
    RotationReflexive(c);
    assert c in s;
    forall d | d in cycles ensures !Rotation(d, c) && !Rotation(c, d) {
      if Rotation(c, d) { RotationSymmetric(c, d); }
    }
  }

  lemma FoundGrows(cycles: seq<seq<Item>>, more: seq<seq<Item>>, c: seq<Item>)
    requires cycles <= more && Found(cycles, c)
    ensures Found(more, c)
  {
    var d :| d in cycles && Rotation(d, c);
    var i :| 0 <= i < |cycles| && cycles[i] == d;
    assert more[i] == d;
  }

  /** What has become of one child of the end of `p`: a child on the path closes a cycle that
      is found, any other child extends the path to one that is on record. */
  ghost predicate Handled(cycles: seq<seq<Item>>, known: set<seq<Item>>, p: seq<Item>, kid: Item) {
    if kid in p then Found(cycles, p[IndexOf(p, kid)..]) else p + [kid] in known
  }

  ghost predicate Extension(children: Children, p: seq<Item>, q: seq<Item>) {
    SimplePath(children, q) && |q| == |p| + 1 && q[..|p|] == p
  }

  lemma ExtendPath(children: Children, p: seq<Item>, kid: Item)
    requires SimplePath(children, p) && Kid(children, Last(p), kid) && kid !in p
    ensures Extension(children, p, p + [kid])
  {
    var q := p + [kid];
    forall i | 0 <= i < |q| - 1 ensures Kid(children, q[i], q[i + 1]) {
      if i < |p| - 1 { assert Kid(children, p[i], p[i + 1]); }
    }
  }

  /** One child of the end of `path`: it closes a cycle, or it extends the path. */
  method FollowChild(children: Children, path: seq<Item>, child: Item, paths0: seq<seq<Item>>,
                     cycles0: seq<seq<Item>>, visited0: set<Item>)
    returns (paths: seq<seq<Item>>, cycles: seq<seq<Item>>, visited: set<Item>)
    requires SimplePath(children, path) && Kid(children, Last(path), child)
    requires DistinctCycles(children, cycles0)
    ensures DistinctCycles(children, cycles) && cycles0 <= cycles
    ensures visited == visited0 + if child in path then {} else {child}
    ensures paths == paths0 + if child in path then [] else [path + [child]]
    ensures child !in path ==> Extension(children, path, path + [child])
    ensures Handled(cycles, Elems(paths), path, child)
  {
    hide DistinctCycles, Extension;
    paths, cycles, visited := paths0, cycles0, visited0;
    if child in path {
      var cycle := path[IndexOf(path, child)..];
      CycleInPath(children, path, child);
      var isDup := IsDuplicate(cycles, cycle);
      if !isDup {
        AddCycle(children, cycles, cycle);
        cycles := cycles + [cycle];
      }
    } else {
      ExtendPath(children, path, child);
      paths := paths + [path + [child]];
      visited := visited + {child};
    }
  }

  ghost predicate AllHandled(cycles: seq<seq<Item>>, known: set<seq<Item>>, p: seq<Item>, kids: seq<Item>) {
    forall kid :: kid in kids ==> Handled(cycles, known, p, kid)
  }

  lemma AllHandledSnoc(cycles: seq<seq<Item>>, known: set<seq<Item>>, cycles': seq<seq<Item>>, known': set<seq<Item>>,
                       p: seq<Item>, kids: seq<Item>, kid: Item)
    requires AllHandled(cycles, known, p, kids) && cycles <= cycles' && known <= known'
    requires Handled(cycles', known', p, kid)
    ensures AllHandled(cycles', known', p, kids + [kid])
  {
    forall k | k in kids ensures Handled(cycles', known', p, k) {
    }
  }

  /** Goes through the children of the end of `path`. */
  method FollowChildren(children: Children, path: seq<Item>, paths0: seq<seq<Item>>,
                        cycles0: seq<seq<Item>>, visited0: set<Item>)
    returns (paths: seq<seq<Item>>, cycles: seq<seq<Item>>, visited: set<Item>)
    requires path != [] && SimplePath(children, path) && Last(path) in children
    requires DistinctCycles(children, cycles0)
    ensures DistinctCycles(children, cycles) && cycles0 <= cycles
    ensures visited == visited0 + (set kid | kid in children[Last(path)] && kid !in path)
    ensures paths0 <= paths && |paths| <= |paths0| + |children[Last(path)]|
    ensures forall i :: |paths0| <= i < |paths| ==> Extension(children, path, paths[i])
    ensures AllHandled(cycles, Elems(paths), path, children[Last(path)])
  {
    hide DistinctCycles, SimplePath, Extension, Handled, AllHandled, Last;
    paths, cycles, visited := paths0, cycles0, visited0;
    var kids := children[Last(path)];
    NothingToHandle(cycles, Elems(paths), path);
    for j := 0 to |kids|
      invariant DistinctCycles(children, cycles) && cycles0 <= cycles
      invariant visited == visited0 + (set kid | kid in kids[..j] && kid !in path)
      invariant paths0 <= paths && |paths| <= |paths0| + j
      invariant forall i :: |paths0| <= i < |paths| ==> Extension(children, path, paths[i])
      invariant AllHandled(cycles, Elems(paths), path, kids[..j])
    {
      ghost var cyclesBefore, pathsBefore := cycles, paths;
      assert kids[..j + 1] == kids[..j] + [kids[j]];
      paths, cycles, visited := FollowChild(children, path, kids[j], paths, cycles, visited);
      assert Elems(pathsBefore) <= Elems(paths);
      AllHandledSnoc(cyclesBefore, Elems(pathsBefore), cycles, Elems(paths), path, kids[..j], kids[j]);
    }
    assert kids[..|kids|] == kids;
  }

  lemma NothingToHandle(cycles: seq<seq<Item>>, known: set<seq<Item>>, p: seq<Item>)
    ensures AllHandled(cycles, known, p, [])
  {
  }

  // ---- all paths from one start ----

  /** Everything the children mention. */
  function Universe(children: Children): set<Item> {
    children.Keys + set a, b | a in children && b in children[a] :: b
  }

  lemma DegreeBound(children: Children) returns (bound: nat)
    ensures forall a :: a in children ==> |children[a]| <= bound
  {
    bound := 0;
    var rest := children.Keys;
    while rest != {}
      invariant rest <= children.Keys
      invariant forall a :: a in children.Keys - rest ==> |children[a]| <= bound
      decreases rest
    {
      var a :| a in rest;
      bound, rest := if |children[a]| > bound then |children[a]| else bound, rest - {a};
    }
  }

  /** The work a path can still cause when `room` elements are not on it yet. */
  ghost function Work(room: nat, bound: nat): nat {
    if room == 0 then 1 else 1 + bound * Work(room - 1, bound)
  }

  ghost function PathWork(n: nat, bound: nat, p: seq<Item>): nat {
    if |p| <= n then Work(n - |p|, bound) else 0
  }

  ghost function StackWork(n: nat, bound: nat, paths: seq<seq<Item>>): nat {
    if paths == [] then 0 else StackWork(n, bound, paths[..|paths| - 1]) + PathWork(n, bound, TopPath(paths))
  }

  function TopPath(paths: seq<seq<Item>>): seq<Item>
    requires paths != []
  {
    paths[|paths| - 1]
  }

  lemma SimplePathFits(children: Children, p: seq<Item>)
    requires SimplePath(children, p) && p[0] in Universe(children)
    ensures |p| <= |Universe(children)|
  {
    forall i | 0 <= i < |p| ensures p[i] in Universe(children) {
      if i > 0 {
        assert Kid(children, p[i - 1], p[i - 1 + 1]);
      }
    }
    NoDupBound(p, Universe(children));
  }

  lemma ExtensionFits(children: Children, path: seq<Item>, q: seq<Item>)
    requires path != [] && path[0] in Universe(children) && Extension(children, path, q)
    ensures |path| < |Universe(children)|
  {
    assert q[..|path|][0] == path[0];
    SimplePathFits(children, q);
  }

  lemma AtMostTimes(a: nat, b: nat, c: nat)
    requires a <= b
    ensures a * c <= b * c
  {
  }

  /** Replacing the popped path by its extensions lowers the work on the stack. */
  lemma {:induction false} ExpandLowersWork(children: Children, bound: nat, path: seq<Item>,
                                          rest: seq<seq<Item>>, paths: seq<seq<Item>>)
    requires rest <= paths && |paths| <= |rest| + bound
    requires SimplePath(children, path) && path[0] in Universe(children)
    requires forall i :: |rest| <= i < |paths| ==> Extension(children, path, paths[i])
    ensures var n := |Universe(children)|;
      StackWork(n, bound, paths) < StackWork(n, bound, rest) + PathWork(n, bound, path)
  {
    var n := |Universe(children)|;
    SimplePathFits(children, path);
    if |paths| == |rest| {
      assert paths == rest;
    } else {
      ExtensionFits(children, path, paths[|rest|]);
      hide StackWork, SimplePath, Extension;
      var unit := Work(n - |path| - 1, bound);
      ExtensionsWork(children, n, bound, path, rest, paths, unit);
      AtMostTimes(|paths| - |rest|, bound, unit);
    }
  }

  lemma {:induction false} ExtensionsWork(children: Children, n: nat, bound: nat, path: seq<Item>, rest: seq<seq<Item>>,
                                          paths: seq<seq<Item>>, unit: nat)
    requires rest <= paths && |path| < n && unit == Work(n - |path| - 1, bound)
    requires forall i :: |rest| <= i < |paths| ==> Extension(children, path, paths[i])
    ensures StackWork(n, bound, paths) == StackWork(n, bound, rest) + (|paths| - |rest|) * unit
    decreases |paths|
  {
    if |paths| == |rest| {
      assert paths == rest;
    } else {
      ExtensionsWork(children, n, bound, path, rest, paths[..|paths| - 1], unit);
      assert Extension(children, path, paths[|paths| - 1]);
      assert (|paths| - |rest|) * unit == (|paths| - 1 - |rest|) * unit + unit;
    }
  }

  /** The bookkeeping of one search: `expanded` holds the paths already taken off the stack. */
  ghost predicate Searching(children: Children, start: Item, paths: seq<seq<Item>>, expanded: set<seq<Item>>,
                            cycles: seq<seq<Item>>) {
    && (forall p :: p in expanded || p in paths ==> SimplePath(children, p) && p[0] == start)
    && ([start] in expanded || [start] in paths)
    && (forall p, kid :: p in expanded && Kid(children, Last(p), kid) ==>
          Handled(cycles, expanded + Elems(paths), p, kid))
  }

  /** Visited elements end some path on record. */
  ghost predicate Recorded(paths: seq<seq<Item>>, expanded: set<seq<Item>>, v: Item) {
    exists p :: (p in expanded || p in paths) && p != [] && Last(p) == v
  }

  lemma SearchStep(children: Children, start: Item, popped: seq<seq<Item>>, expanded: set<seq<Item>>,
                   cycles: seq<seq<Item>>, paths: seq<seq<Item>>, cycles': seq<seq<Item>>)
    requires popped != [] && Searching(children, start, popped, expanded, cycles)
    requires var path, rest := popped[|popped| - 1], popped[..|popped| - 1];
      && path != [] && rest <= paths && cycles <= cycles'
      && (forall i :: |rest| <= i < |paths| ==> Extension(children, path, paths[i]))
      && (Last(path) in children ==> AllHandled(cycles', Elems(paths), path, children[Last(path)]))
    ensures Searching(children, start, paths, expanded + {popped[|popped| - 1]}, cycles')
  {
    var path, rest := popped[|popped| - 1], popped[..|popped| - 1];
    var expanded' := expanded + {path};
    forall p | p in expanded' || p in paths ensures SimplePath(children, p) && p[0] == start {
      assert path in popped;
      if p in paths && p !in expanded' {
        var i :| 0 <= i < |paths| && paths[i] == p;
        if i < |rest| {
          assert popped[i] == p;
        } else {
          assert p[..|path|][0] == path[0];
        }
      }
    }
    var known, known' := expanded + Elems(popped), expanded' + Elems(paths);
    assert known <= known' by {
      forall p | p in popped && p != path ensures p in paths {
        var i :| 0 <= i < |popped| && popped[i] == p;
        assert paths[i] == p;
      }
    }
    forall p, kid | p in expanded' && Kid(children, Last(p), kid) ensures Handled(cycles', known', p, kid) {
      if p in expanded {
      } else {
      }
    }
    assert [start] in known';
  }

  lemma VisitedRecorded(children: Children, popped: seq<seq<Item>>, expanded: set<seq<Item>>,
                        cycles: seq<seq<Item>>, paths: seq<seq<Item>>, v: Item)
    requires popped != [] && popped[|popped| - 1] != [] && popped[..|popped| - 1] <= paths
    requires var path := popped[|popped| - 1];
      || Recorded(popped, expanded, v)
      || (Kid(children, Last(path), v) && v !in path && Handled(cycles, Elems(paths), path, v))
    ensures Recorded(paths, expanded + {popped[|popped| - 1]}, v)
  {
    var path := popped[|popped| - 1];
    if Recorded(popped, expanded, v) {
      var p :| (p in expanded || p in popped) && p != [] && Last(p) == v;
      if p in popped && p != path {
        var i :| 0 <= i < |popped| && popped[i] == p;
        assert paths[i] == p;
      }
    } else {
      assert path + [v] in paths && Last(path + [v]) == v;
    }
  }

  /** When the stack is empty, every simple path from the start has been taken off it. */
  lemma {:induction false} AllPathsExpanded(children: Children, start: Item, expanded: set<seq<Item>>,
                                            cycles: seq<seq<Item>>, p: seq<Item>)
    requires Searching(children, start, [], expanded, cycles)
    requires SimplePath(children, p) && p[0] == start
    ensures p in expanded
    decreases |p|
  {
    if |p| == 1 {
      assert p == [start];
    } else {
      var q, kid := p[..|p| - 1], p[|p| - 1];
      assert SimplePath(children, q) by {
        forall i | 0 <= i < |q| - 1 ensures Kid(children, q[i], q[i + 1]) {
          assert Kid(children, p[i], p[i + 1]);
        }
      }
      AllPathsExpanded(children, start, expanded, cycles, q);
      assert Kid(children, p[|p| - 2], p[|p| - 2 + 1]);
      assert Handled(cycles, expanded + Elems([]), q, kid);
      assert p == q + [kid];
    }
  }

  lemma RotateCycle(children: Children, c: seq<Item>, k: nat)
    requires SimpleCycle(children, c) && k < |c|
    ensures SimpleCycle(children, Rotate(c, k))
  {
    var r := Rotate(c, k);
    forall i | 0 <= i < |r| - 1 ensures Kid(children, r[i], r[i + 1]) {
      if i < |c| - k - 1 {
        assert Kid(children, c[i + k], c[i + k + 1]);
      } else if i >= |c| - k {
        assert Kid(children, c[i + k - |c|], c[i + k - |c| + 1]);
      }
    }
    if k > 0 {
      assert Kid(children, c[k - 1], c[k - 1 + 1]);
    }
  }

  /** A cycle met for the first time at the end of `p` has been found from this start. */
  lemma CycleAtEnd(children: Children, start: Item, expanded: set<seq<Item>>, cycles: seq<seq<Item>>,
                   p: seq<Item>, c: seq<Item>)
    requires Searching(children, start, [], expanded, cycles)
    requires SimplePath(children, p) && p[0] == start
    requires SimpleCycle(children, c) && Last(p) in c
    requires forall i :: 0 <= i < |p| - 1 ==> p[i] !in c
    ensures Found(cycles, c)
  {
    var v, m := Last(p), |p| - 1;
    var k := IndexOf(c, v);
    var c' := Rotate(c, k);
    RotateCycle(children, c, k);
    assert c'[0] == v;
    assert forall x :: x in c' ==> x in c;
    var q := p[..m] + c';
    assert forall i :: 0 <= i <= m ==> q[i] == p[i];
    assert SimplePath(children, q) by {
      forall i | 0 <= i < |q| - 1 ensures Kid(children, q[i], q[i + 1]) {
        if i < m {
          assert Kid(children, p[i], p[i + 1]);
        } else {
          assert Kid(children, c'[i - m], c'[i - m + 1]);
        }
      }
      forall i, j | 0 <= i < j < |q| ensures q[i] != q[j] {
        if i < m <= j {
          assert c'[j - m] in c';
        }
      }
    }
    AllPathsExpanded(children, start, expanded, cycles, q);
    assert Last(q) == Last(c');
    assert Handled(cycles, expanded + Elems([]), q, v);
    assert q[m] == v;
    assert IndexOf(q, v) == m;
    assert q[m..] == c';
    var d :| d in cycles && Rotation(d, c');
    assert Rotation(c, c');
    RotationSymmetric(c, c');
    RotationTransitive(d, c', c);
  }

  lemma {:induction false} PathEndCovered(children: Children, start: Item, expanded: set<seq<Item>>,
                                          cycles: seq<seq<Item>>, p: seq<Item>, c: seq<Item>)
    requires Searching(children, start, [], expanded, cycles)
    requires SimplePath(children, p) && p[0] == start
    requires SimpleCycle(children, c) && Last(p) in c
    ensures Found(cycles, c)
    decreases |p|
  {
    if i :| 0 <= i < |p| - 1 && p[i] in c {
      var q := p[..i + 1];
      forall j | 0 <= j < |q| - 1 ensures Kid(children, q[j], q[j + 1]) {
        assert Kid(children, p[j], p[j + 1]);
      }
      PathEndCovered(children, start, expanded, cycles, q, c);
    } else {
      CycleAtEnd(children, start, expanded, cycles, p, c);
    }
  }

  lemma SearchComplete(children: Children, start: Item, expanded: set<seq<Item>>, cycles: seq<seq<Item>>)
    requires Searching(children, start, [], expanded, cycles)
    ensures Covered(children, cycles, start)
    ensures forall v :: Recorded([], expanded, v) ==> Covered(children, cycles, v)
  {
    forall v | Recorded([], expanded, v) ensures Covered(children, cycles, v) {
      var p :| p in expanded && p != [] && Last(p) == v;
      forall c | SimpleCycle(children, c) && v in c ensures Found(cycles, c) {
        PathEndCovered(children, start, expanded, cycles, p, c);
      }
    }
    assert [start] in expanded && Last([start]) == start;
    assert Recorded([], expanded, start);
  }

  method SearchFrom(children: Children, start: Item, cycles0: seq<seq<Item>>, visited0: set<Item>)
    returns (cycles: seq<seq<Item>>, visited: set<Item>)
    requires start in children && DistinctCycles(children, cycles0)
    ensures DistinctCycles(children, cycles) && cycles0 <= cycles && visited0 <= visited
    ensures Covered(children, cycles, start)
    ensures forall v :: v in visited - visited0 ==> Covered(children, cycles, v)
  {
    cycles, visited := cycles0, visited0;
    var paths := [[start]];
    ghost var expanded: set<seq<Item>> := {};
    ghost var bound := DegreeBound(children);
    ghost var n := |Universe(children)|;
    while paths != []
      invariant DistinctCycles(children, cycles) && cycles0 <= cycles && visited0 <= visited
      invariant Searching(children, start, paths, expanded, cycles)
      invariant forall v :: v in visited - visited0 ==> Recorded(paths, expanded, v)
      decreases StackWork(n, bound, paths)
    {
      var path := paths[|paths| - 1];
      ghost var popped := paths;
      paths := paths[..|paths| - 1];
      ghost var rest, cyclesBefore, expandedBefore := paths, cycles, expanded;
      expanded := expanded + {path};
      if Last(path) in children {
        paths, cycles, visited := FollowChildren(children, path, paths, cycles, visited);
      }
      SearchStep(children, start, popped, expandedBefore, cyclesBefore, paths, cycles);
      forall v | v in visited - visited0 ensures Recorded(paths, expanded, v) {
        VisitedRecorded(children, popped, expandedBefore, cycles, paths, v);
      }
      ExpandLowersWork(children, bound, path, rest, paths);
    }
    SearchComplete(children, start, expanded, cycles);
  }

  // ---- the whole enumeration ----

  lemma CoveredGrows(children: Children, cycles: seq<seq<Item>>, more: seq<seq<Item>>, v: Item)
    requires cycles <= more && Covered(children, cycles, v)
    ensures Covered(children, more, v)
  {
    forall c | SimpleCycle(children, c) && v in c ensures Found(more, c) {
      FoundGrows(cycles, more, c);
    }
  }

  /** Yields every simple cycle, once up to rotation, whatever the order of the keys. */
  method FindCycles(children: Children) returns (cycles: seq<seq<Item>>)
    ensures AllCycles(children, cycles)
  {
    cycles := [];
    var visited := {};
    var keys := Keys(children.Keys);
    for i := 0 to |keys|
      invariant DistinctCycles(children, cycles)
      invariant forall v :: v in visited || v in keys[..i] ==> Covered(children, cycles, v)
    {
      var parent := keys[i];
      assert keys[..i + 1] == keys[..i] + [parent];
      if parent in visited {
        continue;
      }
      assert parent in Elems(keys);
      ghost var before, visitedBefore := cycles, visited;
      cycles, visited := SearchFrom(children, parent, cycles, visited);
      forall v | v in visited || v in keys[..i + 1] ensures Covered(children, cycles, v) {
        if v in visitedBefore || v in keys[..i] {
          CoveredGrows(children, before, cycles, v);
        }
      }
    }
    forall c | SimpleCycle(children, c) ensures Found(cycles, c) {
      assert Last(c) in Elems(keys);
      assert Last(c) in keys[..|keys|];
    }
  }
}
