/** All permutations of a list, by inserting the first item at every position of every permutation
    of the rest. */
module Permutations {
  import opened Sequences

  function Insert<T>(s: seq<T>, i: nat, x: T): seq<T>
    requires i <= |s|
  {
    s[..i] + [x] + s[i..]
  }

  /** The item at each of the first `n` positions. */
  function Insertions<T>(s: seq<T>, x: T, n: nat): (r: seq<seq<T>>)
    requires n <= |s| + 1
    ensures |r| == n && forall i :: 0 <= i < n ==> r[i] == Insert(s, i, x)
  {
    seq(n, i requires 0 <= i < n => Insert(s, i, x))
  }

  function InsertEverywhere<T>(subs: seq<seq<T>>, x: T): seq<seq<T>> {
    if subs == [] then []
    else
      var n := |subs| - 1;
      InsertEverywhere(subs[..n], x) + Insertions(subs[n], x, |subs[n]| + 1)
  }

  function Perms<T>(s: seq<T>): seq<seq<T>> {
    if |s| <= 1 then [s] else InsertEverywhere(Perms(s[1..]), s[0])
  }

  /** The inner loop: one permutation of the rest, with the item at every position. */
  method InsertAtEach<T(!new)>(subList: seq<T>, item: T) returns (lists: seq<seq<T>>)
    ensures lists == Insertions(subList, item, |subList| + 1)
  {
    lists := [];
    for i := 0 to |subList| + 1
      invariant lists == Insertions(subList, item, i)
    {
      lists := lists + [subList[..i] + [item] + subList[i..]];
    }
  }

  method Permute<T(!new)>(input: seq<T>) returns (outLists: seq<seq<T>>)
    ensures outLists == Perms(input)
    decreases |input|
  {
    hide Insertions;
    outLists := [];
    if |input| > 1 {
      var item := input[0];
      var subLists := Permute(input[1..]);
      for k := 0 to |subLists|
        invariant outLists == InsertEverywhere(subLists[..k], item)
      {
        assert subLists[..k + 1][..k] == subLists[..k];
        var lists := InsertAtEach(subLists[k], item);
        outLists := outLists + lists;
      }
      assert subLists[..|subLists|] == subLists;
    } else {
      outLists := [input];
    }
  }

  // ---- membership ----

  lemma {:induction false} InInsertEverywhere<T(!new)>(subs: seq<seq<T>>, x: T, p: seq<T>)
    ensures p in InsertEverywhere(subs, x) <==>
            exists k, i :: 0 <= k < |subs| && 0 <= i <= |subs[k]| && p == Insert(subs[k], i, x)
  {
    if subs != [] {
      var n := |subs| - 1;
      var init, last := subs[..n], Insertions(subs[n], x, |subs[n]| + 1);
      InInsertEverywhere(init, x, p);
      if p in last {
        var i :| 0 <= i < |last| && last[i] == p;
        assert p == Insert(subs[n], i, x);
      }
      if k, i :| 0 <= k < |subs| && 0 <= i <= |subs[k]| && p == Insert(subs[k], i, x) {
        if k == n {
          assert last[i] == p;
        } else {
          assert init[k] == subs[k];
        }
      }
      if k, i :| 0 <= k < |init| && 0 <= i <= |init[k]| && p == Insert(init[k], i, x) {
        assert subs[k] == init[k];
      }
    }
  }

  lemma InsertMultiset<T>(s: seq<T>, i: nat, x: T)
    requires i <= |s|
    ensures multiset(Insert(s, i, x)) == multiset(s) + multiset{x}
  {
    assert s == s[..i] + s[i..];
  }

  lemma {:induction false} SameLength<T(!new)>(s: seq<T>)
    ensures forall p :: p in Perms(s) ==> |p| == |s|
  {
    if |s| > 1 {
      SameLength(s[1..]);
      var subs := Perms(s[1..]);
      forall p | p in Perms(s) ensures |p| == |s| {
        InInsertEverywhere(subs, s[0], p);
        var k, i :| 0 <= k < |subs| && 0 <= i <= |subs[k]| && p == Insert(subs[k], i, s[0]);
        assert subs[k] in subs;
      }
    }
  }

  lemma SameMembers<T(!new)>(p: seq<T>, s: seq<T>)
    requires multiset(p) == multiset(s)
    ensures |p| == |s| && forall x :: x in p <==> x in s
  {
    assert |multiset(p)| == |p| && |multiset(s)| == |s|;
    assert forall x :: (x in p <==> x in multiset(p)) && (x in s <==> x in multiset(s));
  }

  lemma {:induction false} ArrangementIsFound<T(!new)>(s: seq<T>, p: seq<T>)
    requires multiset(p) == multiset(s)
    ensures p in Perms(s)
    decreases |s|
  {
    SameMembers(p, s);
    if |s| <= 1 {
      assert s != [] ==> p[0] in s;
      assert p == s;
    } else {
      var subs, x := Perms(s[1..]), s[0];
      assert x in p;
      var i :| 0 <= i < |p| && p[i] == x;
      var sub := p[..i] + p[i + 1..];
      RestMultiset(s, p, i);
      assert p == Insert(sub, i, x);
      hide Perms, InsertEverywhere;
      ArrangementIsFound(s[1..], sub);
      InInsertEverywhere(subs, x, p);
      var k :| 0 <= k < |subs| && subs[k] == sub;
    }
  }

  lemma RestMultiset<T>(s: seq<T>, p: seq<T>, i: nat)
    requires s != [] && i < |p| && p[i] == s[0] && multiset(p) == multiset(s)
    ensures multiset(p[..i] + p[i + 1..]) == multiset(s[1..])
  {
    InsertMultiset(p[..i] + p[i + 1..], i, s[0]);
    assert p == Insert(p[..i] + p[i + 1..], i, s[0]);
    assert multiset(p[..i] + p[i + 1..]) == multiset(p) - multiset{s[0]};
    assert s == [s[0]] + s[1..];
    assert multiset(s[1..]) == multiset(s) - multiset{s[0]};
  }

  lemma {:induction false} FoundIsArrangement<T(!new)>(s: seq<T>, p: seq<T>)
    requires p in Perms(s)
    ensures multiset(p) == multiset(s)
    decreases |s|
  {
    if |s| > 1 {
      var subs, x := Perms(s[1..]), s[0];
      InInsertEverywhere(subs, x, p);
      var k, i :| 0 <= k < |subs| && 0 <= i <= |subs[k]| && p == Insert(subs[k], i, x);
      assert subs[k] in subs && s == [x] + s[1..];
      FoundIsArrangement(s[1..], subs[k]);
      InsertMultiset(subs[k], i, x);
    }
  }

  /** The results are exactly the arrangements of the input. */
  lemma ExactlyTheArrangements<T(!new)>(s: seq<T>, p: seq<T>)
    ensures p in Perms(s) <==> multiset(p) == multiset(s)
  {
    if p in Perms(s) { FoundIsArrangement(s, p); }
    if multiset(p) == multiset(s) { ArrangementIsFound(s, p); }
  }

  // ---- how many, and whether they differ ----

  function Factorial(n: nat): nat {
    if n == 0 then 1 else n * Factorial(n - 1)
  }

  lemma {:induction false} InsertEverywhereCount<T>(subs: seq<seq<T>>, x: T, n: nat)
    requires forall k :: 0 <= k < |subs| ==> |subs[k]| == n
    ensures |InsertEverywhere(subs, x)| == |subs| * (n + 1)
  {
    hide Insertions;
    if subs != [] {
      var m := |subs| - 1;
      InsertEverywhereCount(subs[..m], x, n);
      assert m * (n + 1) + (n + 1) == (m + 1) * (n + 1);
    }
  }

  lemma {:induction false} PermutationCount<T(!new)>(s: seq<T>)
    ensures |Perms(s)| == Factorial(|s|)
    decreases |s|
  {
    hide InsertEverywhere;
    if |s| > 1 {
      var subs, n := Perms(s[1..]), |s| - 1;
      PermutationCount(s[1..]);
      SameLength(s[1..]);
      assert forall k :: 0 <= k < |subs| ==> subs[k] in subs;
      InsertEverywhereCount(subs, s[0], n);
    } else if |s| == 1 {
    }
  }

  /** The place and the rest can be read off an insertion of an item that is not in the list. */
  lemma InsertInjective<T(!new)>(a: seq<T>, i: nat, b: seq<T>, j: nat, x: T)
    requires i <= |a| && j <= |b| && x !in a && x !in b
    requires Insert(a, i, x) == Insert(b, j, x)
    ensures i == j && a == b
  {
    var p := Insert(a, i, x);
    assert p[j] == x;
    assert a == p[..i] + p[i + 1..] && b == p[..j] + p[j + 1..];
  }

  lemma {:induction false} DistinctInsertions<T(!new)>(subs: seq<seq<T>>, x: T)
    requires NoDup(subs) && forall k :: 0 <= k < |subs| ==> x !in subs[k]
    ensures NoDup(InsertEverywhere(subs, x))
  {
    if subs != [] {
      var n := |subs| - 1;
      var init, last := InsertEverywhere(subs[..n], x), Insertions(subs[n], x, |subs[n]| + 1);
      DistinctInsertions(subs[..n], x);
      forall i, j | 0 <= i < j < |last| ensures last[i] != last[j] {
        if last[i] == last[j] { InsertInjective(subs[n], i, subs[n], j, x); }
      }
      forall p | p in init ensures p !in last {
        InInsertEverywhere(subs[..n], x, p);
        var k, i :| 0 <= k < n && 0 <= i <= |subs[..n][k]| && p == Insert(subs[..n][k], i, x);
        if p in last {
          var j :| 0 <= j < |last| && last[j] == p;
          InsertInjective(subs[k], i, subs[n], j, x);
        }
      }
      NoDupConcat(init, last);
    }
  }

  lemma {:induction false} DistinctIfInputIs<T(!new)>(s: seq<T>)
    requires NoDup(s)
    ensures NoDup(Perms(s))
    decreases |s|
  {
    if |s| > 1 {
      var subs := Perms(s[1..]);
      DistinctIfInputIs(s[1..]);
      forall k | 0 <= k < |subs| ensures s[0] !in subs[k] {
        assert subs[k] in subs;
        FoundIsArrangement(s[1..], subs[k]);
        SameMembers(subs[k], s[1..]);
      }
      DistinctInsertions(subs, s[0]);
    }
  }

  lemma SharedRepeats<T(!new)>(a: seq<T>, b: seq<T>, x: T)
    requires x in a && x in b
    ensures !NoDup(a + b)
  {
    var i :| 0 <= i < |a| && a[i] == x;
    var j :| 0 <= j < |b| && b[j] == x;
    assert (a + b)[i] == (a + b)[|a| + j];
  }

  lemma RepeatsStay<T(!new)>(a: seq<T>, b: seq<T>)
    requires !NoDup(a) || !NoDup(b)
    ensures !NoDup(a + b)
  {
    if i, j :| 0 <= i < j < |a| && a[i] == a[j] {
      assert (a + b)[i] == (a + b)[j];
    } else {
      var i, j :| 0 <= i < j < |b| && b[i] == b[j];
      assert (a + b)[|a| + i] == (a + b)[|a| + j];
    }
  }

  lemma LastRepeats<T(!new)>(s: seq<T>) returns (i: nat)
    requires !NoDup(s) && NoDup(s[..|s| - 1])
    ensures i < |s| - 1 && s[i] == s[|s| - 1]
  {
    assert forall k :: 0 <= k < |s| - 1 ==> s[..|s| - 1][k] == s[k];
    var a, j :| 0 <= a < j < |s| && s[a] == s[j];
    i := a;
  }

  lemma FirstRepeats<T(!new)>(s: seq<T>)
    requires !NoDup(s) && NoDup(s[1..])
    ensures s[0] in s[1..]
  {
    assert forall k :: 0 < k < |s| ==> s[1..][k - 1] == s[k];
    var a, j :| 0 <= a < j < |s| && s[a] == s[j];
    assert s[j] in s[1..];
  }

  lemma {:induction false} RepeatedSubs<T(!new)>(subs: seq<seq<T>>, x: T)
    requires !NoDup(subs)
    ensures !NoDup(InsertEverywhere(subs, x))
  {
    var n := |subs| - 1;
    var init, last := InsertEverywhere(subs[..n], x), Insertions(subs[n], x, |subs[n]| + 1);
    if !NoDup(subs[..n]) {
      RepeatedSubs(subs[..n], x);
      RepeatsStay(init, last);
    } else {
      var i := LastRepeats(subs);
      assert subs[..n][i] == subs[n];
      var p := Insert(subs[n], 0, x);
      InInsertEverywhere(subs[..n], x, p);
      assert last[0] == p;
      SharedRepeats(init, last, p);
    }
  }

  lemma {:induction false} RepeatedItem<T(!new)>(subs: seq<seq<T>>, x: T, k: nat)
    requires k < |subs| && x in subs[k]
    ensures !NoDup(InsertEverywhere(subs, x))
  {
    var n := |subs| - 1;
    var init, last := InsertEverywhere(subs[..n], x), Insertions(subs[n], x, |subs[n]| + 1);
    if k < n {
      RepeatedItem(subs[..n], x, k);
    } else {
      var s := subs[n];
      var i :| 0 <= i < |s| && s[i] == x;
      assert Insert(s, i, x) == Insert(s, i + 1, x);
      assert last[i] == last[i + 1];
    }
    RepeatsStay(init, last);
  }

  /** The results are pairwise different exactly when the items are. */
  lemma {:induction false} DistinctIff<T(!new)>(s: seq<T>)
    ensures NoDup(Perms(s)) <==> NoDup(s)
    decreases |s|
  {
    if NoDup(s) {
      DistinctIfInputIs(s);
    } else {
      var rest := s[1..];
      if NoDup(rest) {
        FirstRepeats(s);
        ArrangementIsFound(rest, rest);
        var k :| 0 <= k < |Perms(rest)| && Perms(rest)[k] == rest;
        RepeatedItem(Perms(rest), s[0], k);
      } else {
        DistinctIff(rest);
        RepeatedSubs(Perms(rest), s[0]);
      }
    }
  }
}
