/** The list helpers of rad_util that the cycle finder relies on. */
module RadUtil {

  function Rotate<T>(s: seq<T>, k: nat): (r: seq<T>)
    requires k <= |s|
    ensures |r| == |s|
  {
    s[k..] + s[..k]
  }

  ghost predicate Rotation<T(!new)>(a: seq<T>, b: seq<T>) {
    exists k :: 0 <= k <= |a| && Rotate(a, k) == b
  }

  lemma RotationReflexive<T(!new)>(a: seq<T>)
    ensures Rotation(a, a)
  {
    assert Rotate(a, 0) == a;
  }

  lemma RotationSymmetric<T(!new)>(a: seq<T>, b: seq<T>)
    requires Rotation(a, b)
    ensures Rotation(b, a)
  {
    var k :| 0 <= k <= |a| && Rotate(a, k) == b;
    assert Rotate(b, |a| - k) == a;
  }

  lemma RotateTwice<T(!new)>(a: seq<T>, k: nat, l: nat)
    requires k <= |a| && l <= |a|
    ensures Rotate(Rotate(a, k), l) == Rotate(a, if k + l <= |a| then k + l else k + l - |a|)
  {
  }

  lemma RotationTransitive<T(!new)>(a: seq<T>, b: seq<T>, c: seq<T>)
    requires Rotation(a, b) && Rotation(b, c)
    ensures Rotation(a, c)
  {
    var k :| 0 <= k <= |a| && Rotate(a, k) == b;
    var l :| 0 <= l <= |b| && Rotate(b, l) == c;
    RotateTwice(a, k, l);
  }

  /** The head of the second sequence is looked up first, so two empty sequences are not
      accepted. */
  method IsRotated<T(==, !new)>(seq1: seq<T>, seq2: seq<T>) returns (r: bool)
    requires |seq1| == |seq2| ==> seq2 != []
    ensures r <==> Rotation(seq1, seq2)
  {
    if |seq1| != |seq2| {
      return false;
    }
    var startIndexes: seq<nat> := [];
    var headItem := seq2[0];
    for index1 := 0 to |seq1|
      invariant forall k :: k in startIndexes <==> 0 <= k < index1 && seq1[k] == headItem
    {
      if seq1[index1] == headItem {
        startIndexes := startIndexes + [index1];
      }
    }
    var doubleSeq1 := seq1 + seq1;
    for i := 0 to |startIndexes|
      invariant forall k :: k in startIndexes[..i] ==> k <= |seq1| && Rotate(seq1, k) != seq2
    {
      var index1 := startIndexes[i];
      assert index1 in startIndexes && startIndexes[..i + 1] == startIndexes[..i] + [index1];
      assert doubleSeq1[index1..index1 + |seq1|] == Rotate(seq1, index1);
      if doubleSeq1[index1..index1 + |seq1|] == seq2 {
        return true;
      }
    }
    assert startIndexes[..|startIndexes|] == startIndexes;
    forall k | 0 <= k <= |seq1| ensures Rotate(seq1, k) != seq2 {
      var start := if k == |seq1| then 0 else k;
      assert seq1[start] == headItem ==> start in startIndexes;
    }
    return false;
  }
}
