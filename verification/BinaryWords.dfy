/** Fixed-width binary words: conversion to and from integers, the ripple-carry enumeration of all
    words of a width, and the Gray code of their values. */
module BinaryWords {
  datatype Result<T> = Ok(value: T) | ValueError

  function Pow2(n: nat): nat {
    if n == 0 then 1 else 2 * Pow2(n - 1)
  }

  predicate IsBit(c: char) { c == '0' || c == '1' }

  predicate IsWord(s: string) {
    forall i :: 0 <= i < |s| ==> IsBit(s[i])
  }

  function BitValue(c: char): nat { if c == '1' then 1 else 0 }

  // ---- words and their values ----

  /** `int(s, 2)`, the most significant bit first. */
  function Bin2Int(s: string): nat {
    if s == "" then 0 else 2 * Bin2Int(s[..|s| - 1]) + BitValue(s[|s| - 1])
  }

  /** The word of width `n` with value `i`, by its defining property. */
  ghost predicate Represents(s: string, i: nat, n: nat) {
    |s| == n && IsWord(s) && Bin2Int(s) == i
  }

  lemma {:induction false} ValueBound(s: string)
    ensures Bin2Int(s) < Pow2(|s|)
  {
    if s != "" { ValueBound(s[..|s| - 1]); }
  }

  lemma {:induction false} WordUnique(s: string, t: string)
    requires |s| == |t| && IsWord(s) && IsWord(t) && Bin2Int(s) == Bin2Int(t)
    ensures s == t
  {
    if s != "" {
      var n := |s| - 1;
      WordUnique(s[..n], t[..n]);
      assert s == s[..n] + [s[n]] && t == t[..n] + [t[n]];
    }
  }

  lemma ValueSnoc(s: string, c: char)
    ensures Bin2Int(s + [c]) == 2 * Bin2Int(s) + BitValue(c)
  {
    assert (s + [c])[..|s|] == s;
  }

  lemma PowStep(n: nat)
    ensures Pow2(n + 1) == 2 * Pow2(n)
  {
  }

  lemma NoValue()
    ensures Bin2Int("") == 0 && Pow2(0) == 1
  {
  }

  lemma {:induction false} ValueConcat(a: string, b: string)
    ensures Bin2Int(a + b) == Bin2Int(a) * Pow2(|b|) + Bin2Int(b)
  {
    hide Bin2Int, Pow2;
    if b == "" {
      assert a + b == a;
      NoValue();
    } else {
      var n := |b| - 1;
      assert b == b[..n] + [b[n]] && a + b == a + b[..n] + [b[n]];
      ValueConcat(a, b[..n]);
      ValueSnoc(a + b[..n], b[n]);
      ValueSnoc(b[..n], b[n]);
      PowStep(n);
      assert 2 * (Bin2Int(a) * Pow2(n)) == Bin2Int(a) * (2 * Pow2(n));
    }
  }

  lemma {:induction false} ZeroIffNoOne(s: string)
    ensures Bin2Int(s) == 0 <==> '1' !in s
  {
    if s != "" {
      ZeroIffNoOne(s[..|s| - 1]);
      assert s == s[..|s| - 1] + [s[|s| - 1]];
    }
  }

  // ---- int2bin ----

  /** The digits of `hex(i)` behind its prefix. */
  function HexDigits(i: nat): (r: seq<nat>)
    ensures r != [] && forall k :: 0 <= k < |r| ==> r[k] < 16
  {
    if i < 16 then [i] else HexDigits(i / 16) + [i % 16]
  }

  function Nibble(d: nat): (s: string)
    requires d < 16
    ensures |s| == 4 && IsWord(s) && Bin2Int(s) == d
  {
    var bit := (b: nat) => if b % 2 == 1 then '1' else '0';
    var s := [bit(d / 8), bit(d / 4), bit(d / 2), bit(d)];
    NibbleValue(s);
    s
  }

  lemma NibbleValue(s: string)
    requires |s| == 4
    ensures Bin2Int(s) == 8 * BitValue(s[0]) + 4 * BitValue(s[1]) + 2 * BitValue(s[2]) + BitValue(s[3])
  {
    hide Bin2Int;
    NoValue();
    ValueSnoc("", s[0]);
    ValueSnoc([s[0]], s[1]);
    ValueSnoc([s[0], s[1]], s[2]);
    ValueSnoc([s[0], s[1], s[2]], s[3]);
    assert s == [s[0], s[1], s[2], s[3]];
    assert "" + [s[0]] == [s[0]] && [s[0]] + [s[1]] == [s[0], s[1]];
    assert [s[0], s[1]] + [s[2]] == [s[0], s[1], s[2]];
    assert [s[0], s[1], s[2]] + [s[3]] == s;
  }

  function Nibbles(digits: seq<nat>): (s: string)
    requires forall k :: 0 <= k < |digits| ==> digits[k] < 16
    ensures IsWord(s)
  {
    if digits == [] then "" else Nibbles(digits[..|digits| - 1]) + Nibble(digits[|digits| - 1])
  }

  lemma {:induction false} NibblesValue(i: nat)
    ensures Bin2Int(Nibbles(HexDigits(i))) == i
  {
    hide Bin2Int, Nibble, Pow2;
    if i < 16 {
      assert HexDigits(i)[..0] == [];
      assert "" + Nibble(i) == Nibble(i);
    } else {
      NibblesValue(i / 16);
      var d := HexDigits(i);
      assert d[..|d| - 1] == HexDigits(i / 16);
      ValueConcat(Nibbles(HexDigits(i / 16)), Nibble(i % 16));
      NoValue();
      PowStep(0);
      PowStep(1);
      PowStep(2);
      PowStep(3);
      hide Nibbles, HexDigits;
      assert Pow2(4) == 16 && i == (i / 16) * 16 + i % 16;
    }
  }

  function Zeros(n: nat): (s: string)
    ensures |s| == n && forall i :: 0 <= i < n ==> s[i] == '0'
  {
    seq(n, i => '0')
  }

  /** Drops leading digits down to width `n`, unless one of them is a 1, or pads with zeros. */
  method Int2Bin(i: nat, n: nat) returns (r: Result<string>)
    requires n >= 1
    ensures i < Pow2(n) ==> r.Ok? && Represents(r.value, i, n)
    ensures i >= Pow2(n) ==> r.ValueError?
  {
    hide Bin2Int, Pow2, Nibbles, HexDigits;
    NibblesValue(i);
    var result := Nibbles(HexDigits(i));
    var cut := if |result| <= n then 0 else |result| - n;
    var head, tail := result[..cut], result[cut..];
    assert result == head + tail;
    ValueConcat(head, tail);
    ValueBound(tail);
    ZeroIffNoOne(head);
    PowMonotone(|tail|, n);
    if '1' in head {
      assert |tail| == n;
      return ValueError;
    }
    var pad := Zeros(n - |tail|);
    ValueConcat(pad, tail);
    ZeroIffNoOne(pad);
    r := Ok(pad + tail);
  }

  lemma {:induction false} PowMonotone(m: nat, n: nat)
    requires m <= n
    ensures Pow2(m) <= Pow2(n)
  {
    if m < n { PowMonotone(m, n - 1); }
  }

  // ---- the ripple-carry enumeration ----

  function Reverse(s: string): (r: string)
    ensures |r| == |s| && forall i :: 0 <= i < |s| ==> r[i] == s[|s| - 1 - i]
  {
    seq(|s|, i requires 0 <= i < |s| => s[|s| - 1 - i])
  }

  /** The value of a word with its least significant bit first. */
  function LowFirst(v: string): nat {
    Bin2Int(Reverse(v))
  }

  lemma LowFirstSplit(v: string, i: nat)
    requires i <= |v|
    ensures LowFirst(v) == LowFirst(v[..i]) + Pow2(i) * LowFirst(v[i..])
  {
    hide Bin2Int, Pow2;
    assert Reverse(v) == Reverse(v[i..]) + Reverse(v[..i]);
    ValueConcat(Reverse(v[i..]), Reverse(v[..i]));
  }

  /** Setting bit `i` from 0 to 1 adds its weight; back from 1 to 0 takes it away. */
  lemma FlipBit(v: string, i: nat, c: char)
    requires i < |v| && IsBit(v[i]) && IsBit(c)
    ensures LowFirst(v[i := c]) == LowFirst(v) + Pow2(i) * BitValue(c) - Pow2(i) * BitValue(v[i])
  {
    hide LowFirst;
    var w := v[i := c];
    LowFirstSplit(v, i);
    LowFirstSplit(w, i);
    LowFirstSplit(v[i..], 1);
    LowFirstSplit(w[i..], 1);
    assert w[..i] == v[..i] && w[i..][1..] == v[i..][1..];
    assert v[i..][..1] == [v[i]] && w[i..][..1] == [c];
    OneBit(v[i]);
    OneBit(c);
    var rest := Pow2(1) * LowFirst(v[i..][1..]);
    assert Pow2(i) * (BitValue(c) + rest) == Pow2(i) * BitValue(c) + Pow2(i) * rest;
    assert Pow2(i) * (BitValue(v[i]) + rest) == Pow2(i) * BitValue(v[i]) + Pow2(i) * rest;
  }

  lemma OneBit(c: char)
    ensures LowFirst([c]) == BitValue(c)
  {
    assert Reverse([c]) == [c] == "" + [c];
    ValueSnoc("", c);
  }

  lemma {:induction false} AllZeros(n: nat)
    ensures Bin2Int(Zeros(n)) == 0
  {
    ZeroIffNoOne(Zeros(n));
  }

  /** One increment: `v` counts up by one, and `carry` tells whether it has wrapped to zero. */
  method Increment(v: array<char>, bits: nat) returns (carry: bool)
    requires bits == v.Length && IsWord(v[..])
    modifies v
    ensures IsWord(v[..])
    ensures LowFirst(v[..]) + (if carry then Pow2(bits) else 0) == LowFirst(old(v[..])) + 1
  {
    var toggle := new int[bits + 1];
    for k := 0 to bits + 1
      invariant forall j :: 0 <= j < k ==> toggle[j] == if j == 0 then 1 else 0
      invariant v[..] == old(v[..])
    {
      toggle[k] := if k == 0 then 1 else 0;
    }
    NoValue();
    hide LowFirst, Pow2;
    var i := 0;
    while i < bits && toggle[i] == 1
      invariant 0 <= i <= bits && IsWord(v[..])
      invariant toggle[i] == 0 || toggle[i] == 1
      invariant forall j :: i < j <= bits ==> toggle[j] == 0
      invariant LowFirst(v[..]) + Pow2(i) * toggle[i] == LowFirst(old(v[..])) + 1
    {
      FlipBit(v[..], i, if v[i] == '0' then '1' else '0');
      PowStep(i);
      ghost var before := v[..];
      if v[i] == '0' {
        v[i] := '1';
        toggle[i + 1] := 0;
        assert v[..] == before[i := '1'];
      } else {
        v[i] := '0';
        toggle[i + 1] := 1;
        assert v[..] == before[i := '0'];
      }
      i := i + 1;
    }
    carry := toggle[bits] == 1;
  }

  lemma RangeStart(bits: nat)
    ensures IsWord(Zeros(bits)) && LowFirst(Zeros(bits)) == 0 < Pow2(bits)
  {
    assert Reverse(Zeros(bits)) == Zeros(bits);
    AllZeros(bits);
    ValueBound(Zeros(bits));
  }

  lemma LowFirstRepresents(v: string)
    requires IsWord(v)
    ensures Represents(Reverse(v), LowFirst(v), |v|) && LowFirst(v) < Pow2(|v|)
  {
    ValueBound(Reverse(v));
  }

  /** All words of a width, counting up; none at all for width 0. */
  method BinaryRange(bits: nat) returns (l: seq<string>)
    ensures bits == 0 ==> l == []
    ensures bits >= 1 ==> |l| == Pow2(bits) && forall k :: 0 <= k < |l| ==> Represents(l[k], k, bits)
  {
    hide LowFirst, Reverse, Pow2, IsWord, Represents;
    l := [];
    var v := new char[bits](_ => '0');
    var done := bits == 0;
    RangeStart(bits);
    assert v[..] == Zeros(bits);
    while !done
      invariant v.Length == bits && IsWord(v[..])
      invariant bits == 0 ==> l == []
      invariant if done then |l| == Pow2(bits) || bits == 0 else |l| == LowFirst(v[..]) < Pow2(bits)
      invariant forall k :: 0 <= k < |l| ==> Represents(l[k], k, bits)
      decreases Pow2(bits) - |l|, !done
    {
      LowFirstRepresents(v[..]);
      l := l + [Reverse(v[..])];
      done := Increment(v, bits);
      LowFirstRepresents(v[..]);
    }
  }

  // ---- Gray code ----

  /** The exclusive or of two natural numbers, bit by bit. */
  function Xor(a: nat, b: nat): nat {
    if a == 0 && b == 0 then 0 else (if a % 2 == b % 2 then 0 else 1) + 2 * Xor(a / 2, b / 2)
  }

  /** The number of bits in which two numbers differ. */
  function Distance(a: nat, b: nat): nat {
    if a == 0 && b == 0 then 0 else (if a % 2 == b % 2 then 0 else 1) + Distance(a / 2, b / 2)
  }

  function GrayEncode(i: nat): nat {
    Xor(i, i / 2)
  }

  lemma GrayBits(i: nat)
    ensures GrayEncode(i) % 2 == (if i % 2 == (i / 2) % 2 then 0 else 1)
    ensures GrayEncode(i) / 2 == GrayEncode(i / 2)
  {
  }

  /** Bit `k` of a number, counted from the lowest. */
  function Bit(n: nat, k: nat): nat {
    if k == 0 then n % 2 else Bit(n / 2, k - 1)
  }

  /** Each bit of the code is the exclusive or of the number's bit and the next higher one. */
  lemma {:induction false} GrayBit(i: nat, k: nat)
    ensures Bit(GrayEncode(i), k) == if Bit(i, k) == Bit(i, k + 1) then 0 else 1
  {
    GrayBits(i);
    if k > 0 { GrayBit(i / 2, k - 1); }
  }

  /** The characters of a word are the bits of its value, the highest first. */
  lemma {:induction false} WordBit(s: string, k: nat)
    requires IsWord(s)
    ensures Bit(Bin2Int(s), k) == if k < |s| && s[|s| - 1 - k] == '1' then 1 else 0
  {
    if s == "" {
      NoValue();
      NoBits(k);
    } else {
      var front, c := s[..|s| - 1], s[|s| - 1];
      assert s == front + [c];
      ValueSnoc(front, c);
      hide Bin2Int;
      assert Bin2Int(s) / 2 == Bin2Int(front) && Bin2Int(s) % 2 == BitValue(c);
      if k > 0 { WordBit(front, k - 1); }
    }
  }

  lemma {:induction false} NoBits(k: nat)
    ensures Bit(0, k) == 0
  {
    if k > 0 { NoBits(k - 1); }
  }

  lemma {:induction false} DistanceZero(a: nat)
    ensures Distance(a, a) == 0
  {
    if a > 0 { DistanceZero(a / 2); }
  }

  lemma DistanceStep(a: nat, b: nat)
    ensures Distance(a, b) == (if a % 2 == b % 2 then 0 else 1) + Distance(a / 2, b / 2)
  {
  }

  /** Neighbours differ in exactly one bit. */
  lemma {:induction false} GrayNeighbours(i: nat)
    ensures Distance(GrayEncode(i), GrayEncode(i + 1)) == 1
  {
    hide Distance, GrayEncode;
    GrayBits(i);
    GrayBits(i + 1);
    DistanceStep(GrayEncode(i), GrayEncode(i + 1));
    if i % 2 == 0 {
      DistanceZero(GrayEncode(i / 2));
    } else {
      GrayNeighbours(i / 2);
    }
  }

  lemma GraySmall()
    ensures GrayEncode(0) == 0 && GrayEncode(1) == 1 && Distance(0, 0) == 0 && Pow2(0) == 1
  {
  }

  /** The last code word and the first differ in one bit, too. */
  lemma {:induction false} GrayWrapsAround(bits: nat)
    requires bits >= 1
    ensures Pow2(bits) >= 2 && GrayEncode(Pow2(bits) - 1) == Pow2(bits - 1)
    ensures Distance(GrayEncode(Pow2(bits) - 1), GrayEncode(0)) == 1
  {
    hide GrayEncode, Distance, Pow2;
    GraySmall();
    PowMonotone(0, bits - 1);
    PowStep(bits - 1);
    GrayBits(Pow2(bits) - 1);
    DistanceStep(GrayEncode(Pow2(bits) - 1), GrayEncode(0));
    if bits > 1 {
      GrayWrapsAround(bits - 1);
      PowStep(bits - 2);
    }
  }

  /** The number with this Gray code. */
  function GrayDecode(g: nat): nat {
    if g == 0 then 0
    else
      var h := GrayDecode(g / 2);
      2 * h + if g % 2 == h % 2 then 0 else 1
  }

  lemma {:induction false} DecodeEncode(i: nat)
    ensures GrayDecode(GrayEncode(i)) == i
  {
    if i > 0 {
      GrayBits(i);
      DecodeEncode(i / 2);
    }
  }

  lemma {:induction false} EncodeDecode(g: nat)
    ensures GrayEncode(GrayDecode(g)) == g
  {
    if g > 0 {
      EncodeDecode(g / 2);
      GrayBits(GrayDecode(g));
      assert GrayDecode(g) / 2 == GrayDecode(g / 2);
    }
  }

  lemma {:induction false} GrayBound(i: nat, bits: nat)
    ensures i < Pow2(bits) <==> GrayEncode(i) < Pow2(bits)
  {
    if bits == 0 {
      DecodeEncode(i);
      assert GrayDecode(0) == 0;
    } else {
      GrayBits(i);
      GrayBound(i / 2, bits - 1);
    }
  }

  /** Below every power of two the code is a permutation: each value is the code of exactly one
      number in the range. */
  lemma GrayIsPermutation(g: nat, bits: nat)
    requires g < Pow2(bits)
    ensures exists i: nat :: i < Pow2(bits) && GrayEncode(i) == g && forall j: nat :: GrayEncode(j) == g ==> j == i
  {
    var i := GrayDecode(g);
    EncodeDecode(g);
    GrayBound(i, bits);
    forall j: nat | GrayEncode(j) == g ensures j == i {
      DecodeEncode(j);
    }
  }
}
