/** Fixed-width unsigned words as bit sequences, most significant bit first, and the
    mask arithmetic of the routing trie on them.

    A word of the source (`u32` or `u128`) is a sequence of 32 or 128 bits; the width is
    the length of the sequence. The operators below are the bitwise ones of the source;
    the lemmas say what the masks built from them mean in terms of prefixes. */
module Bits {

  type Word = seq<bool>

  function Zero(w: nat): Word {
    seq(w, _ => false)
  }

  function MaxValue(w: nat): Word {
    seq(w, _ => true)
  }

  function One(w: nat): Word
    requires w > 0
  {
    Zero(w - 1) + [true]
  }

  function And(a: Word, b: Word): Word
    requires |a| == |b|
  {
    seq(|a|, i requires 0 <= i < |a| => a[i] && b[i])
  }

  function Xor(a: Word, b: Word): Word
    requires |a| == |b|
  {
    seq(|a|, i requires 0 <= i < |a| => a[i] != b[i])
  }

  // A shift by the whole width overflows in the source, hence the strict bounds.
  function ShiftLeft(a: Word, n: nat): Word
    requires n < |a|
  {
    a[n..] + Zero(n)
  }

  function ShiftRight(a: Word, n: nat): Word
    requires n < |a|
  {
    Zero(n) + a[..|a| - n]
  }

  function RotateRight(a: Word, n: nat): Word
    requires n < |a|
  {
    a[|a| - n..] + a[..|a| - n]
  }

  function LeadingZeros(a: Word): nat {
    if a == [] || a[0] then 0 else 1 + LeadingZeros(a[1..])
  }

  /** The unsigned integer that a word stands for. */
  function ValueOf(a: Word): nat {
    if a == [] then 0 else 2 * ValueOf(a[..|a| - 1]) + (if a[|a| - 1] then 1 else 0)
  }

  // ----- the mask functions of the trie -----

  function ToMask(w: nat, prefixLen: nat): Word
    requires prefixLen <= w
  {
    if prefixLen == 0 then Zero(w) else ShiftLeft(MaxValue(w), w - prefixLen)
  }

  function NextBitMask1(w: nat, len: nat): Word
    requires len < w
  {
    ShiftRight(RotateRight(One(w), if w == 1 then 0 else 1), len)
  }

  function Min(a: nat, b: nat): nat {
    if a <= b then a else b
  }

  function CommonPrefixLen(k1: Word, len1: nat, k2: Word, len2: nat): nat
    requires |k1| == |k2|
  {
    Min(Min(len1, len2), LeadingZeros(Xor(k1, k2)))
  }

  /** The word that starts with `p` and is zero afterwards. */
  function Pad(w: nat, p: Word): Word
    requires |p| <= w
  {
    p + Zero(w - |p|)
  }

  // ----- what the masks mean -----

  lemma MaskKeepsPrefix(k: Word, len: nat)
    requires len <= |k|
    ensures And(k, ToMask(|k|, len)) == Pad(|k|, k[..len])
  {
    var m := ToMask(|k|, len);
    assert forall i :: 0 <= i < |k| ==> m[i] == (i < len);
    assert And(k, m) == Pad(|k|, k[..len]);
  }

  lemma MaskedEqualIffSamePrefix(a: Word, b: Word, len: nat)
    requires |a| == |b| && len <= |a|
    ensures And(a, ToMask(|a|, len)) == And(b, ToMask(|a|, len)) <==> a[..len] == b[..len]
  {
    MaskKeepsPrefix(a, len);
    MaskKeepsPrefix(b, len);
    assert Pad(|a|, a[..len])[..len] == a[..len];
    assert Pad(|a|, b[..len])[..len] == b[..len];
  }

  lemma MaskDeterminesLength(w: nat, len1: nat, len2: nat)
    requires len1 <= w && len2 <= w
    ensures ToMask(w, len1) == ToMask(w, len2) <==> len1 == len2
    ensures ToMask(w, len1) == MaxValue(w) <==> len1 == w
  {
    var m1, m2 := ToMask(w, len1), ToMask(w, len2);
    assert forall i :: 0 <= i < w ==> m1[i] == (i < len1) && m2[i] == (i < len2);
    if len1 < len2 {
      assert m1[len1] != m2[len1];
    } else if len2 < len1 {
      assert m1[len2] != m2[len2];
    }
    if len1 == w {
      assert m1 == MaxValue(w);
    } else {
      assert m1[len1] != MaxValue(w)[len1];
    }
  }

  lemma NextBitMaskSelectsBit(k: Word, len: nat)
    requires len < |k|
    ensures And(k, NextBitMask1(|k|, len)) != Zero(|k|) <==> k[len]
  {
    var w := |k|;
    var top := RotateRight(One(w), if w == 1 then 0 else 1);
    assert forall i :: 0 <= i < w ==> top[i] == (i == 0);
    var m := NextBitMask1(w, len);
    assert forall i :: 0 <= i < w ==> m[i] == (i == len);
    var r := And(k, m);
    assert forall i :: 0 <= i < w ==> r[i] == (i == len && k[len]);
    if k[len] {
      assert r[len] != Zero(w)[len];
    } else {
      assert r == Zero(w);
    }
  }

  lemma {:induction false} LeadingZerosMeaning(a: Word)
    ensures LeadingZeros(a) <= |a|
    ensures forall i :: 0 <= i < LeadingZeros(a) ==> !a[i]
    ensures LeadingZeros(a) < |a| ==> a[LeadingZeros(a)]
  {
    if a != [] && !a[0] {
      LeadingZerosMeaning(a[1..]);
      forall i | 0 <= i < LeadingZeros(a) ensures !a[i] {
        if i > 0 { assert a[i] == a[1..][i - 1]; }
      }
    }
  }

  lemma CommonPrefixMeaning(k1: Word, len1: nat, k2: Word, len2: nat)
    requires |k1| == |k2| && len1 <= |k1| && len2 <= |k2|
    ensures var c := CommonPrefixLen(k1, len1, k2, len2);
            && c <= len1 && c <= len2
            && k1[..c] == k2[..c]
            && (c < len1 && c < len2 ==> k1[c] != k2[c])
  {
    var x := Xor(k1, k2);
    LeadingZerosMeaning(x);
    var c := CommonPrefixLen(k1, len1, k2, len2);
    forall i | 0 <= i < c ensures k1[i] == k2[i] {
      assert !x[i];
    }
  }

  // ----- order -----

  lemma {:induction false} ValueOfBounds(a: Word)
    ensures ValueOf(a) < Pow2(|a|)
  {
    if a != [] {
      ValueOfBounds(a[..|a| - 1]);
    }
  }

  function Pow2(n: nat): (r: nat)
    ensures r >= 1
  {
    if n == 0 then 1 else 2 * Pow2(n - 1)
  }

  lemma {:induction false} ValueOfAppend(a: Word, b: Word)
    ensures ValueOf(a + b) == ValueOf(a) * Pow2(|b|) + ValueOf(b)
  {
    if b == [] {
      assert a + b == a;
    } else {
      var b0, bit := b[..|b| - 1], if b[|b| - 1] then 1 else 0;
      assert ValueOf(a + b) == 2 * ValueOf(a + b0) + bit by {
        assert (a + b)[..|a + b| - 1] == a + b0;
      }
      ValueOfAppend(a, b0);
      DoubleTimes(ValueOf(a), Pow2(|b0|));
    }
  }

  lemma DoubleTimes(a: nat, n: nat)
    ensures a * (2 * n) == 2 * (a * n)
  {}

  /** Words that agree up to position `i` and differ there compare as integers by that bit. */
  lemma FirstDifferenceDecides(a: Word, b: Word, i: nat)
    requires |a| == |b| && i < |a|
    requires a[..i] == b[..i] && !a[i] && b[i]
    ensures ValueOf(a) < ValueOf(b)
  {
    var p, ta, tb := a[..i], a[i + 1..], b[i + 1..];
    var a1, b1 := p + [false], p + [true];
    assert a == a1 + ta && b == b1 + tb;
    ValueOfAppend(a1, ta);
    ValueOfAppend(b1, tb);
    ValueOfBounds(ta);
    assert a1[..i] == p && b1[..i] == p;
    AddOneTimes(ValueOf(a1), Pow2(|ta|));
  }

  lemma AddOneTimes(a: nat, n: nat)
    ensures (a + 1) * n == a * n + n
  {}
}
