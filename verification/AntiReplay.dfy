/** The anti-replay window of RFC 6479: a circular bitmap that stands for the set of accepted
    sequence numbers.

    Sequence numbers are naturals below 2^64; `seq >> 5`, `& 31` and `& 63` of the source are
    written as quotient and remainders, which `ShiftsAndMasks` justifies for 64-bit words.
    The words of the bitmap are 32-bit vectors. */
module AntiReplay {

  const SIZE_OF_INTEGER: nat := 32
  const BITMAP_LEN: nat := 64
  const WINDOW_SIZE: nat := 2016
  const U64: nat := 0x1_0000_0000_0000_0000

  lemma ShiftsAndMasks(seq_: bv64)
    ensures seq_ & 31 == seq_ % 32
    ensures seq_ >> 5 == seq_ / 32
    ensures (seq_ >> 5) & 63 == seq_ / 32 % 64
  {}

  // ----- the specification: the set of accepted numbers -----

  datatype Window = Window(last: nat, accepted: set<nat>) {
    predicate Valid() {
      && last < U64
      && (forall s :: s in accepted ==> s <= last)
      && (last != 0 ==> last in accepted)
    }

    /** Newer than everything accepted, or in the window and never accepted. */
    predicate Fresh(s: nat) {
      s > last || (last - s <= WINDOW_SIZE && s !in accepted)
    }

    function Accept(s: nat): Window {
      if Fresh(s) then Window(if s > last then s else last, accepted + {s}) else this
    }
  }

  const EMPTY := Window(0, {})

  // ----- the bitmap -----

  function Mask(b: nat): bv32
    requires b < SIZE_OF_INTEGER
  {
    (1 as bv32) << b
  }

  predicate Bit(w: bv32, b: nat)
    requires b < SIZE_OF_INTEGER
  {
    w & Mask(b) != 0
  }

  lemma ShiftedOnes(b: bv32, c: bv32)
    requires b < 32 && c < 32
    ensures b != c ==> ((1 as bv32) << b) & ((1 as bv32) << c) == 0
    ensures (1 as bv32) << b != 0
  {}

  lemma ShiftAmount(b: nat)
    requires b < SIZE_OF_INTEGER
    ensures (b as bv32) as nat == b
  {}

  lemma ShiftAmountBound(b: nat)
    requires b < SIZE_OF_INTEGER
    ensures (b as bv32) < 32
  {}

  lemma MasksDisjoint(b: nat, c: nat)
    requires b < SIZE_OF_INTEGER && c < SIZE_OF_INTEGER
    ensures b != c ==> Mask(b) & Mask(c) == 0
    ensures Mask(b) != 0
  {
    ShiftAmount(b);
    ShiftAmount(c);
    ShiftAmountBound(b);
    ShiftAmountBound(c);
    ShiftedOnes(b as bv32, c as bv32);
  }

  lemma OrOther(w: bv32, m: bv32, n: bv32)
    requires m & n == 0
    ensures (w | m) & n == w & n
  {}

  lemma OrSame(w: bv32, m: bv32)
    ensures (w | m) & m == m
  {}

  lemma SetSame(w: bv32, b: nat)
    requires b < SIZE_OF_INTEGER
    ensures Bit(w | Mask(b), b)
  {
    MasksDisjoint(b, b);
    OrSame(w, Mask(b));
  }

  lemma SetOther(w: bv32, b: nat, c: nat)
    requires b < SIZE_OF_INTEGER && c < SIZE_OF_INTEGER && b != c
    ensures Bit(w | Mask(b), c) <==> Bit(w, c)
  {
    MasksDisjoint(b, c);
    OrOther(w, Mask(b), Mask(c));
  }

  lemma SetBit(w: bv32, b: nat, c: nat)
    requires b < SIZE_OF_INTEGER && c < SIZE_OF_INTEGER
    ensures Bit(w | Mask(b), c) <==> b == c || Bit(w, c)
  {
    if b == c { SetSame(w, b); } else { SetOther(w, b, c); }
  }

  lemma NoBits(c: nat)
    requires c < SIZE_OF_INTEGER
    ensures !Bit(0, c)
  {}

  function Block(s: nat): nat { s / SIZE_OF_INTEGER }

  function Slot(s: nat): nat { Block(s) % BITMAP_LEN }

  /** The bit of `s` says whether it was accepted. */
  ghost predicate Tells(bits: seq<bv32>, s: nat, accepted: set<nat>)
    requires |bits| == BITMAP_LEN
  {
    Bit(bits[Slot(s)], s % SIZE_OF_INTEGER) <==> s in accepted
  }

  /** The bitmap is right about the newest 64 blocks, of which `top` is the last. */
  ghost predicate Tracks(bits: seq<bv32>, top: nat, accepted: set<nat>) {
    && |bits| == BITMAP_LEN
    && forall s: nat :: Block(s) <= top < Block(s) + BITMAP_LEN ==> Tells(bits, s, accepted)
  }

  lemma NextBlock(bits: seq<bv32>, top: nat, accepted: set<nat>)
    requires Tracks(bits, top, accepted)
    requires forall s :: s in accepted ==> Block(s) <= top
    ensures Tracks(bits[(top + 1) % BITMAP_LEN := 0], top + 1, accepted)
  {
    var bits' := bits[(top + 1) % BITMAP_LEN := 0];
    forall s: nat | Block(s) <= top + 1 < Block(s) + BITMAP_LEN ensures Tells(bits', s, accepted) {
      if Block(s) == top + 1 {
        NoBits(s % SIZE_OF_INTEGER);
      } else {
        assert Slot(s) != (top + 1) % BITMAP_LEN;
        assert Tells(bits, s, accepted);
      }
    }
  }

  lemma AllCleared(bits: seq<bv32>, top: nat, accepted: set<nat>)
    requires |bits| == BITMAP_LEN && forall i :: 0 <= i < BITMAP_LEN ==> bits[i] == 0
    requires forall s :: s in accepted ==> Block(s) + BITMAP_LEN <= top
    ensures Tracks(bits, top, accepted)
  {
    forall s: nat | Block(s) <= top < Block(s) + BITMAP_LEN ensures Tells(bits, s, accepted) {
      NoBits(s % SIZE_OF_INTEGER);
    }
  }

  /** `w'` is `w` with bit `b` set. */
  ghost predicate Marked(w: bv32, w': bv32, b: nat) {
    forall c: nat :: c < SIZE_OF_INTEGER ==> (Bit(w', c) <==> b == c || Bit(w, c))
  }

  lemma OrMarks(w: bv32, b: nat)
    requires b < SIZE_OF_INTEGER
    ensures Marked(w, w | Mask(b), b)
  {
    forall c: nat | c < SIZE_OF_INTEGER ensures Bit(w | Mask(b), c) <==> b == c || Bit(w, c) {
      SetBit(w, b, c);
    }
  }

  lemma MarkAccepted(bits: seq<bv32>, top: nat, accepted: set<nat>, x: nat, word: bv32)
    requires Tracks(bits, top, accepted) && Block(x) <= top < Block(x) + BITMAP_LEN
    requires Marked(bits[Slot(x)], word, x % SIZE_OF_INTEGER)
    ensures Tracks(bits[Slot(x) := word], top, accepted + {x})
  {
    var bits' := bits[Slot(x) := word];
    forall s: nat | Block(s) <= top < Block(s) + BITMAP_LEN ensures Tells(bits', s, accepted + {x}) {
      assert Tells(bits, s, accepted);
      SameSlot(s, x, top);
    }
  }

  /** How far two numbers may be apart to be in 64 neighbouring blocks of 32 wherever they lie: the
      window is all that the bitmap can hold. */
  lemma WindowIsLargest(size: nat)
    ensures (forall s: nat, last: nat :: s <= last <= s + size ==> HeldTogether(s, last)) <==> size <= WINDOW_SIZE
    ensures WINDOW_SIZE == 2016
  {
    if size > WINDOW_SIZE {
      assert !HeldTogether(31, 2048);
    }
  }

  predicate HeldTogether(s: nat, last: nat) {
    last / 32 < s / 32 + 64
  }

  lemma SameSlot(s: nat, x: nat, top: nat)
    requires Block(s) <= top < Block(s) + BITMAP_LEN && Block(x) <= top < Block(x) + BITMAP_LEN
    ensures Slot(s) == Slot(x) ==> Block(s) == Block(x)
    ensures Slot(s) == Slot(x) && s % SIZE_OF_INTEGER == x % SIZE_OF_INTEGER ==> s == x
  {}

  // ----- the data structure -----

  class AntiReplay {
    var bitmap: array<bv32>
    var last: nat
    ghost var window: Window

    ghost predicate Valid()
      reads this, bitmap
    {
      && bitmap.Length == BITMAP_LEN
      && last == window.last
      && window.Valid()
      && Tracks(bitmap[..], Block(last), window.accepted)
    }

    constructor ()
      ensures Valid() && fresh(bitmap) && window == EMPTY
    {
      last, window := 0, EMPTY;
      bitmap := new bv32[BITMAP_LEN](_ => 0);
      new;
      AllClearedAtStart(bitmap[..]);
    }

    method Check(s: nat) returns (ok: bool)
      requires Valid() && s < U64
      ensures ok <==> window.Fresh(s)
      ensures ok <==> window.last < s || (window.last - s <= 2016 && s !in window.accepted)
    {
      // Larger is always good.
      if s > last {
        return true;
      }
      if last - s > WINDOW_SIZE {
        return false;
      }
      var bitLocation := s % SIZE_OF_INTEGER;
      var index := s / SIZE_OF_INTEGER % BITMAP_LEN;
      assert Tells(bitmap[..], s, window.accepted);
      return bitmap[index] & Mask(bitLocation) == 0;
    }

    /** Should only be called if the check passes. */
    method Update(s: nat)
      requires Valid() && s < U64 && window.Fresh(s)
      modifies this, bitmap
      ensures Valid() && bitmap == old(bitmap) && window == old(window).Accept(s)
    {
      if s > last {
        Advance(s);
      }
      var index, bitLocation := s / SIZE_OF_INTEGER % BITMAP_LEN, s % SIZE_OF_INTEGER;
      ghost var before := bitmap[..];
      ghost var word := SetAt(index, bitLocation);
      MarkAccepted(before, Block(last), window.accepted, s, word);
      window := window.Accept(s);
    }

    method SetAt(index: nat, bitLocation: nat) returns (ghost word: bv32)
      requires index < bitmap.Length && bitLocation < SIZE_OF_INTEGER
      modifies bitmap
      ensures bitmap[..] == old(bitmap[..])[index := word]
      ensures Marked(old(bitmap[index]), word, bitLocation)
    {
      OrMarks(bitmap[index], bitLocation);
      bitmap[index] := bitmap[index] | Mask(bitLocation);
      word := bitmap[index];
    }

    /** Moves the window up to a newer number, clearing the blocks that come into it. */
    method Advance(s: nat)
      requires Valid() && last < s
      modifies this`last, bitmap
      ensures last == s && Tracks(bitmap[..], Block(s), window.accepted)
    {
      var index, indexCur := s / SIZE_OF_INTEGER, last / SIZE_OF_INTEGER;
      var diff := index - indexCur;
      if diff >= BITMAP_LEN {
        Clear();
        AllCleared(bitmap[..], index, window.accepted);
      } else {
        for i := 0 to diff
          modifies bitmap
          invariant Tracks(bitmap[..], indexCur + i, window.accepted)
        {
          NextBlock(bitmap[..], indexCur + i, window.accepted);
          var realIndex := (indexCur + i + 1) % BITMAP_LEN;
          bitmap[realIndex] := 0;
        }
      }
      last := s;
    }

    /** Forgets everything: nothing accepted is near the new number. */
    method Clear()
      requires bitmap.Length == BITMAP_LEN
      modifies bitmap
      ensures forall i :: 0 <= i < BITMAP_LEN ==> bitmap[i] == 0
    {
      for i := 0 to BITMAP_LEN
        invariant forall j :: 0 <= j < i ==> bitmap[j] == 0
      {
        bitmap[i] := 0;
      }
    }

    method CheckAndUpdate(s: nat) returns (ok: bool)
      requires Valid() && s < U64
      modifies this, bitmap
      ensures Valid() && bitmap == old(bitmap)
      ensures ok <==> old(window).Fresh(s)
      ensures ok <==> old(window).last < s || (old(window).last - s <= 2016 && s !in old(window).accepted)
      ensures window == old(window).Accept(s)
      ensures window == if !ok then old(window)
                        else Window(if old(window).last < s then s else old(window).last, old(window).accepted + {s})
    {
      ok := Check(s);
      if ok {
        Update(s);
      }
    }
  }

  lemma AllClearedAtStart(bits: seq<bv32>)
    requires |bits| == BITMAP_LEN && forall i :: 0 <= i < BITMAP_LEN ==> bits[i] == 0
    ensures Tracks(bits, 0, {})
  {
    AllCleared(bits, 0, {});
  }

  // ----- runs -----

  /** The window after a run of numbers, each checked and recorded if fresh. */
  function Run(seqs: seq<nat>): Window {
    if seqs == [] then EMPTY else Run(seqs[..|seqs| - 1]).Accept(seqs[|seqs| - 1])
  }

  /** Whether number `i` of the run was let through. */
  predicate Delivered(seqs: seq<nat>, i: nat)
    requires i < |seqs|
  {
    Run(seqs[..i]).Fresh(seqs[i])
  }

  ghost predicate AllU64(seqs: seq<nat>) {
    forall i :: 0 <= i < |seqs| ==> seqs[i] < U64
  }

  ghost predicate WasDelivered(seqs: seq<nat>, s: nat) {
    exists i :: 0 <= i < |seqs| && seqs[i] == s && Delivered(seqs, i)
  }

  lemma DeliveredBefore(seqs: seq<nat>, n: nat, i: nat)
    requires i < n <= |seqs|
    ensures Delivered(seqs[..n], i) <==> Delivered(seqs, i)
  {
    assert seqs[..n][..i] == seqs[..i];
  }

  lemma WasDeliveredSnoc(seqs: seq<nat>, s: nat)
    requires seqs != []
    ensures var n := |seqs| - 1;
            WasDelivered(seqs, s) <==>
            WasDelivered(seqs[..n], s) || (seqs[n] == s && Run(seqs[..n]).Fresh(s))
  {
    var n := |seqs| - 1;
    if i :| 0 <= i < n && seqs[..n][i] == s && Delivered(seqs[..n], i) {
      DeliveredBefore(seqs, n, i);
      assert seqs[i] == s;
    }
    if i :| 0 <= i < |seqs| && seqs[i] == s && Delivered(seqs, i) {
      if i < n {
        DeliveredBefore(seqs, n, i);
        assert seqs[..n][i] == s;
      }
    }
    if seqs[n] == s && Run(seqs[..n]).Fresh(s) {
      assert Delivered(seqs, n);
    }
  }

  /** On every run the accepted numbers are those that were delivered, and `last` is the
      largest number of the run. */
  lemma {:induction false} RunMeaning(seqs: seq<nat>)
    requires AllU64(seqs)
    ensures Run(seqs).Valid()
    ensures forall s :: s in Run(seqs).accepted <==> WasDelivered(seqs, s)
    ensures forall i :: 0 <= i < |seqs| ==> seqs[i] <= Run(seqs).last
    ensures seqs != [] && Run(seqs).last != 0 ==> Run(seqs).last in seqs
  {
    if seqs != [] {
      var n := |seqs| - 1;
      RunMeaning(seqs[..n]);
      assert seqs == seqs[..n] + [seqs[n]];
      forall s ensures s in Run(seqs).accepted <==> WasDelivered(seqs, s) {
        WasDeliveredSnoc(seqs, s);
      }
    }
  }

  /** No number is delivered twice. */
  lemma DeliveredAtMostOnce(seqs: seq<nat>, i: nat, j: nat)
    requires AllU64(seqs) && i < j < |seqs| && seqs[i] == seqs[j]
    ensures !(Delivered(seqs, i) && Delivered(seqs, j))
  {
    RunMeaning(seqs[..j]);
    DeliveredBefore(seqs, j, i);
    if Delivered(seqs, i) {
      assert seqs[..j][i] == seqs[j] && WasDelivered(seqs[..j], seqs[j]);
    }
  }

  /** A number is delivered exactly if nothing in the run so far is more than the window ahead
      of it, and either it is newer than everything so far or it has not been delivered yet. */
  lemma DeliveredIff(seqs: seq<nat>, i: nat)
    requires AllU64(seqs) && i < |seqs|
    ensures Delivered(seqs, i) <==>
      && (forall j :: 0 <= j < i ==> seqs[j] <= seqs[i] + 2016)
      && (forall j :: 0 <= j < i && seqs[j] == seqs[i] ==> !Delivered(seqs, j))
  {
    var before := seqs[..i];
    RunMeaning(before);
    forall j | 0 <= j < i ensures before[j] == seqs[j] && (Delivered(before, j) <==> Delivered(seqs, j)) {
      DeliveredBefore(seqs, i, j);
    }
    var w, s := Run(before), seqs[i];
    assert s in w.accepted <==> exists j :: 0 <= j < i && seqs[j] == s && Delivered(seqs, j) by {
      if j :| 0 <= j < i && seqs[j] == s && Delivered(seqs, j) {
        assert before[j] == s && Delivered(before, j);
      }
    }
    if w.last != 0 && i > 0 {
      var j :| 0 <= j < i && before[j] == w.last;
      assert seqs[j] == w.last;
    }
  }

  /** The bitmap gives the answers of the specification on every run. */
  method CheckAll(seqs: seq<nat>) returns (oks: seq<bool>)
    requires AllU64(seqs)
    ensures |oks| == |seqs|
    ensures forall i :: 0 <= i < |seqs| ==> (oks[i] <==> Delivered(seqs, i))
  {
    var ar := new AntiReplay();
    oks := [];
    for n := 0 to |seqs|
      invariant ar.Valid() && fresh(ar) && fresh(ar.bitmap) && ar.window == Run(seqs[..n])
      invariant |oks| == n && forall i :: 0 <= i < n ==> (oks[i] <==> Delivered(seqs, i))
    {
      assert seqs[..n + 1][..n] == seqs[..n];
      var ok := ar.CheckAndUpdate(seqs[n]);
      oks := oks + [ok];
    }
  }
}
