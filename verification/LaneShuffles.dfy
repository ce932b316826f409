/** The processor's shuffles of a row of four lanes, over any way of cutting a lane into parts. */
module LaneShuffles {
  import opened ChaChaRounds

  /** Two bits of a shuffle's immediate. */
  function Selector(imm: nat, k: nat): nat
    requires k < 4
  {
    match k
    case 0 => imm % 4
    case 1 => imm / 4 % 4
    case 2 => imm / 16 % 4
    case 3 => imm / 64 % 4
  }

  // ----- whole lanes -----

  function Lane<W>(v: Vec<W>, k: nat): W
    requires k < 4
  {
    match k
    case 0 => v.a
    case 1 => v.b
    case 2 => v.c
    case 3 => v.d
  }

  /** PSHUFD: lane `k` of the result is the lane that selector `k` names. */
  function ShuffleLanes<W>(v: Vec<W>, imm: nat): Vec<W> {
    Vec(Lane(v, Selector(imm, 0)), Lane(v, Selector(imm, 1)), Lane(v, Selector(imm, 2)), Lane(v, Selector(imm, 3)))
  }

  /** The immediate whose selectors are `w`, `x`, `y` and `z`. */
  function Immediate(w: nat, x: nat, y: nat, z: nat): nat {
    64 * z + 16 * y + 4 * x + w
  }

  /** The lane shuffles of the vector unit move the lanes to the left, as the portable code does. */
  lemma LanesMoveLeft<W>(v: Vec<W>)
    ensures ShuffleLanes(v, Immediate(1, 2, 3, 0)) == ShuffleLeft(v, 1)
    ensures ShuffleLanes(v, Immediate(2, 3, 0, 1)) == ShuffleLeft(v, 2)
    ensures ShuffleLanes(v, Immediate(3, 0, 1, 2)) == ShuffleLeft(v, 3)
  {}

  // ----- half-words -----

  /** The two halves of a word. */
  datatype Halves<!W, !H> = Halves(lo: W -> H, hi: W -> H, join: (H, H) -> W) {
    function Half(w0: W, w1: W, k: nat): H
      requires k < 4
    {
      match k
      case 0 => lo(w0)
      case 1 => hi(w0)
      case 2 => lo(w1)
      case 3 => hi(w1)
    }

    /** Two lanes of which the four halves are shuffled. */
    function ShuffleTwo(w0: W, w1: W, imm: nat): (W, W) {
      (join(Half(w0, w1, Selector(imm, 0)), Half(w0, w1, Selector(imm, 1))),
       join(Half(w0, w1, Selector(imm, 2)), Half(w0, w1, Selector(imm, 3))))
    }
  }

  /** PSHUFLW. */
  function ShuffleLow<W, H>(h: Halves<W, H>, v: Vec<W>, imm: nat): Vec<W> {
    var (a, b) := h.ShuffleTwo(v.a, v.b, imm);
    Vec(a, b, v.c, v.d)
  }

  /** PSHUFHW. */
  function ShuffleHigh<W, H>(h: Halves<W, H>, v: Vec<W>, imm: nat): Vec<W> {
    var (c, d) := h.ShuffleTwo(v.c, v.d, imm);
    Vec(v.a, v.b, c, d)
  }

  const SWAP_HALVES: nat := 0xb1

  /** What joining a word's halves the other way around comes to. */
  ghost predicate Swapped<W(!new), H>(h: Halves<W, H>, f: W -> W) {
    forall w :: h.join(h.hi(w), h.lo(w)) == f(w)
  }

  /** The two half-word shuffles do that to each lane. */
  lemma HalvesSwap<W(!new), H>(h: Halves<W, H>, f: W -> W, v: Vec<W>)
    ensures Swapped(h, f) ==> ShuffleLow(h, ShuffleHigh(h, v, SWAP_HALVES), SWAP_HALVES) == OnLanes(f, v)
  {}

  // ----- bytes -----

  /** The four bytes of a word, least significant first. */
  datatype Bytes<!W, !B> = Bytes(b0: W -> B, b1: W -> B, b2: W -> B, b3: W -> B, join: (B, B, B, B) -> W) {
    function Of(w: W): seq<B> {
      [b0(w), b1(w), b2(w), b3(w)]
    }

    function OfRow(v: Vec<W>): (r: seq<B>)
      ensures |r| == 16
    {
      Of(v.a) + Of(v.b) + Of(v.c) + Of(v.d)
    }

    /** Word `i` of a sequence of bytes. */
    function WordAt(s: seq<B>, i: nat): W
      requires 4 * i + 4 <= |s|
    {
      join(s[4 * i], s[4 * i + 1], s[4 * i + 2], s[4 * i + 3])
    }
  }

  /** Which byte goes to each of the sixteen places. */
  type Places = s: seq<nat> | |s| == 16 && forall i :: 0 <= i < 16 ==> s[i] < 16 witness seq(16, i => 0)

  /** PSHUFB. */
  function ShuffleBytes<W, B>(b: Bytes<W, B>, v: Vec<W>, p: Places): Vec<W> {
    var s := b.OfRow(v);
    Vec(b.join(s[p[0]], s[p[1]], s[p[2]], s[p[3]]), b.join(s[p[4]], s[p[5]], s[p[6]], s[p[7]]),
        b.join(s[p[8]], s[p[9]], s[p[10]], s[p[11]]), b.join(s[p[12]], s[p[13]], s[p[14]], s[p[15]]))
  }

  function PlacesFor16(): Places { [2, 3, 0, 1, 6, 7, 4, 5, 10, 11, 8, 9, 14, 15, 12, 13] }
  function PlacesFor8(): Places { [3, 0, 1, 2, 7, 4, 5, 6, 11, 8, 9, 10, 15, 12, 13, 14] }
  function PlacesFor24(): Places { [1, 2, 3, 0, 5, 6, 7, 4, 9, 10, 11, 8, 13, 14, 15, 12] }

  function OnLanes<W>(f: W -> W, v: Vec<W>): Vec<W> {
    Vec(f(v.a), f(v.b), f(v.c), f(v.d))
  }

  /** What joining a word's bytes comes to when they start with the third, the fourth or the second. */
  ghost predicate FromThird<W(!new), B>(b: Bytes<W, B>, f: W -> W) {
    forall w :: b.join(b.b2(w), b.b3(w), b.b0(w), b.b1(w)) == f(w)
  }

  ghost predicate FromFourth<W(!new), B>(b: Bytes<W, B>, f: W -> W) {
    forall w :: b.join(b.b3(w), b.b0(w), b.b1(w), b.b2(w)) == f(w)
  }

  ghost predicate FromSecond<W(!new), B>(b: Bytes<W, B>, f: W -> W) {
    forall w :: b.join(b.b1(w), b.b2(w), b.b3(w), b.b0(w)) == f(w)
  }

  /** The byte shuffles do that to each lane. */
  lemma BytesPermute<W(!new), B>(b: Bytes<W, B>, f: W -> W, v: Vec<W>)
    ensures FromThird(b, f) ==> ShuffleBytes(b, v, PlacesFor16()) == OnLanes(f, v)
    ensures FromFourth(b, f) ==> ShuffleBytes(b, v, PlacesFor8()) == OnLanes(f, v)
    ensures FromSecond(b, f) ==> ShuffleBytes(b, v, PlacesFor24()) == OnLanes(f, v)
  {}

  // ----- loads and stores, word by word -----

  method LoadLe<W(0), B>(b: Bytes<W, B>, addr: seq<B>) returns (v: Vec<W>)
    requires |addr| == 16
    ensures v == Vec(b.WordAt(addr, 0), b.WordAt(addr, 1), b.WordAt(addr, 2), b.WordAt(addr, 3))
  {
    var result := new W[4];
    for i := 0 to 4
      invariant forall j :: 0 <= j < i ==> result[j] == b.WordAt(addr, j)
    {
      var bytes := addr[4 * i..4 * i + 4];
      result[i] := b.join(bytes[0], bytes[1], bytes[2], bytes[3]);
    }
    v := Vec(result[0], result[1], result[2], result[3]);
  }

  method StoreLe<W, B>(b: Bytes<W, B>, v: Vec<W>, addr: array<B>, at: nat)
    requires at + 16 <= addr.Length
    modifies addr
    ensures addr[..] == old(addr[..at]) + b.OfRow(v) + old(addr[at + 16..])
  {
    var words := [v.a, v.b, v.c, v.d];
    for i := 0 to 4
      invariant forall k :: 0 <= k < at ==> addr[k] == old(addr[k])
      invariant forall k :: at + 16 <= k < addr.Length ==> addr[k] == old(addr[k])
      invariant forall k :: 0 <= k < 4 * i ==> addr[at + k] == b.OfRow(v)[k]
    {
      var bytes := b.Of(words[i]);
      for j := 0 to 4
        invariant forall k :: 0 <= k < at ==> addr[k] == old(addr[k])
        invariant forall k :: at + 16 <= k < addr.Length ==> addr[k] == old(addr[k])
        invariant forall k :: 0 <= k < 4 * i + j ==> addr[at + k] == b.OfRow(v)[k]
      {
        addr[at + 4 * i + j] := bytes[j];
      }
    }
    assert addr[at..at + 16] == b.OfRow(v);
    assert addr[..] == addr[..at] + addr[at..at + 16] + addr[at + 16..];
  }

  /** When each word is joined from its bytes, what is loaded is stored as it was. */
  lemma StoreUndoesLoad<W, B>(b: Bytes<W, B>, s: seq<B>)
    requires |s| == 16
    requires forall i :: 0 <= i < 4 ==>
      b.Of(b.WordAt(s, i)) == [s[4 * i], s[4 * i + 1], s[4 * i + 2], s[4 * i + 3]]
    ensures b.OfRow(Vec(b.WordAt(s, 0), b.WordAt(s, 1), b.WordAt(s, 2), b.WordAt(s, 3))) == s
  {
    assert b.Of(b.WordAt(s, 0)) == s[0..4];
    assert b.Of(b.WordAt(s, 1)) == s[4..8];
    assert b.Of(b.WordAt(s, 2)) == s[8..12];
    assert b.Of(b.WordAt(s, 3)) == s[12..16];
    assert s == s[0..4] + s[4..8] + s[8..12] + s[12..16];
  }
}
