/** HChaCha on rows of four 32-bit words, for each of the machines that the rows can live on. */
module HChaCha {
  import opened ChaChaRounds
  import opened LaneShuffles
  import opened HChaChaRows

  type Word = bv32

  /** A byte, as a word below 256. */
  type Octet = b: bv32 | b <= 0xff

  type Row = Vec<Word>

  // ----- bytes of a word -----

  function Octet0(w: Word): Octet { w & 0xff }
  function Octet1(w: Word): Octet { (w >> 8) & 0xff }
  function Octet2(w: Word): Octet { (w >> 16) & 0xff }
  function Octet3(w: Word): Octet { (w >> 24) & 0xff }

  function FromLe(a: Octet, b: Octet, c: Octet, d: Octet): Word {
    a | (b << 8) | (c << 16) | (d << 24)
  }

  lemma WordOfOctets(a: Octet, b: Octet, c: Octet, d: Octet)
    ensures var w := FromLe(a, b, c, d);
            Octet0(w) == a && Octet1(w) == b && Octet2(w) == c && Octet3(w) == d
  {}

  // ----- processors -----

  datatype Cpu = Fallback | Sse2 | Ssse3

  /** Rotation by each of the amounts. */
  function RotateLeft(w: Word, amt: Amount): Word {
    match amt
    case 0 => w
    case 1 => w.RotateLeft(1)
    case 2 => w.RotateLeft(2)
    case 3 => w.RotateLeft(3)
    case 4 => w.RotateLeft(4)
    case 5 => w.RotateLeft(5)
    case 6 => w.RotateLeft(6)
    case 7 => w.RotateLeft(7)
    case 8 => w.RotateLeft(8)
    case 9 => w.RotateLeft(9)
    case 10 => w.RotateLeft(10)
    case 11 => w.RotateLeft(11)
    case 12 => w.RotateLeft(12)
    case 13 => w.RotateLeft(13)
    case 14 => w.RotateLeft(14)
    case 15 => w.RotateLeft(15)
    case 16 => w.RotateLeft(16)
    case 17 => w.RotateLeft(17)
    case 18 => w.RotateLeft(18)
    case 19 => w.RotateLeft(19)
    case 20 => w.RotateLeft(20)
    case 21 => w.RotateLeft(21)
    case 22 => w.RotateLeft(22)
    case 23 => w.RotateLeft(23)
    case 24 => w.RotateLeft(24)
    case 25 => w.RotateLeft(25)
    case 26 => w.RotateLeft(26)
    case 27 => w.RotateLeft(27)
    case 28 => w.RotateLeft(28)
    case 29 => w.RotateLeft(29)
    case 30 => w.RotateLeft(30)
    case 31 => w.RotateLeft(31)
  }

  function RotateLanes(v: Row, amt: Amount): Row {
    Vec(RotateLeft(v.a, amt), RotateLeft(v.b, amt), RotateLeft(v.c, amt), RotateLeft(v.d, amt))
  }

  /** The two shifts of each amount. */
  function ShiftOr(w: Word, amt: Amount): Word {
    match amt
    case 0 => w
    case 1 => (w << 1) | (w >> 31)
    case 2 => (w << 2) | (w >> 30)
    case 3 => (w << 3) | (w >> 29)
    case 4 => (w << 4) | (w >> 28)
    case 5 => (w << 5) | (w >> 27)
    case 6 => (w << 6) | (w >> 26)
    case 7 => (w << 7) | (w >> 25)
    case 8 => (w << 8) | (w >> 24)
    case 9 => (w << 9) | (w >> 23)
    case 10 => (w << 10) | (w >> 22)
    case 11 => (w << 11) | (w >> 21)
    case 12 => (w << 12) | (w >> 20)
    case 13 => (w << 13) | (w >> 19)
    case 14 => (w << 14) | (w >> 18)
    case 15 => (w << 15) | (w >> 17)
    case 16 => (w << 16) | (w >> 16)
    case 17 => (w << 17) | (w >> 15)
    case 18 => (w << 18) | (w >> 14)
    case 19 => (w << 19) | (w >> 13)
    case 20 => (w << 20) | (w >> 12)
    case 21 => (w << 21) | (w >> 11)
    case 22 => (w << 22) | (w >> 10)
    case 23 => (w << 23) | (w >> 9)
    case 24 => (w << 24) | (w >> 8)
    case 25 => (w << 25) | (w >> 7)
    case 26 => (w << 26) | (w >> 6)
    case 27 => (w << 27) | (w >> 5)
    case 28 => (w << 28) | (w >> 4)
    case 29 => (w << 29) | (w >> 3)
    case 30 => (w << 30) | (w >> 2)
    case 31 => (w << 31) | (w >> 1)
  }

  function RotateLeftAny(v: Row, amt: Amount): Row {
    Vec(ShiftOr(v.a, amt), ShiftOr(v.b, amt), ShiftOr(v.c, amt), ShiftOr(v.d, amt))
  }

  /** How each kind of processor rotates the lanes. */
  function RotateLeftConst(cpu: Cpu, v: Row, amt: Amount): Row {
    match cpu
    case Fallback => RotateLanes(v, amt)
    case Sse2 =>
      if amt == 16 then ShuffleLow(HalvesOf(), ShuffleHigh(HalvesOf(), v, SWAP_HALVES), SWAP_HALVES)
      else RotateLeftAny(v, amt)
    case Ssse3 =>
      if amt == 16 then ShuffleBytes(BytesOf(), v, PlacesFor16())
      else if amt == 8 then ShuffleBytes(BytesOf(), v, PlacesFor8())
      else if amt == 24 then ShuffleBytes(BytesOf(), v, PlacesFor24())
      else RotateLeftAny(v, amt)
  }

  lemma ShiftOrRotates(w: Word, amt: Amount)
    ensures ShiftOr(w, amt) == RotateLeft(w, amt)
  {}

  /** Half of a word, as a word below 2^16. */
  type HalfWord = h: bv32 | h <= 0xffff

  function LowHalf(w: Word): HalfWord { w & 0xffff }
  function HighHalf(w: Word): HalfWord { w >> 16 }
  function FromHalves(lo: HalfWord, hi: HalfWord): Word { lo | (hi << 16) }

  function HalvesOf(): Halves<Word, HalfWord> {
    Halves(LowHalf, HighHalf, FromHalves)
  }

  function BytesOf(): Bytes<Word, Octet> {
    Bytes(Octet0, Octet1, Octet2, Octet3, FromLe)
  }

  function By16(w: Word): Word { w.RotateLeft(16) }
  function By8(w: Word): Word { w.RotateLeft(8) }
  function By24(w: Word): Word { w.RotateLeft(24) }

  lemma HalvesAsShifts(w: Word)
    ensures FromHalves(HighHalf(w), LowHalf(w)) == (w >> 16) | ((w & 0xffff) << 16)
  {}

  lemma ShiftsBy16(w: Word)
    ensures (w >> 16) | ((w & 0xffff) << 16) == w.RotateLeft(16)
  {}

  lemma SwappedIs16(w: Word)
    ensures FromHalves(HighHalf(w), LowHalf(w)) == By16(w)
  {
    HalvesAsShifts(w);
    ShiftsBy16(w);
  }

  lemma FromThirdIs16(w: Word)
    ensures FromLe(Octet2(w), Octet3(w), Octet0(w), Octet1(w)) == By16(w)
  {}

  lemma FromFourthIs8(w: Word)
    ensures FromLe(Octet3(w), Octet0(w), Octet1(w), Octet2(w)) == By8(w)
  {}

  lemma FromSecondIs24(w: Word)
    ensures FromLe(Octet1(w), Octet2(w), Octet3(w), Octet0(w)) == By24(w)
  {}

  lemma WordsRotate()
    ensures Swapped(HalvesOf(), By16) && FromThird(BytesOf(), By16)
    ensures FromFourth(BytesOf(), By8) && FromSecond(BytesOf(), By24)
  {
    var h, b := HalvesOf(), BytesOf();
    forall w: Word
      ensures h.join(h.hi(w), h.lo(w)) == By16(w)
      ensures b.join(b.b2(w), b.b3(w), b.b0(w), b.b1(w)) == By16(w)
      ensures b.join(b.b3(w), b.b0(w), b.b1(w), b.b2(w)) == By8(w)
      ensures b.join(b.b1(w), b.b2(w), b.b3(w), b.b0(w)) == By24(w)
    {
      SwappedIs16(w);
      FromThirdIs16(w);
      FromFourthIs8(w);
      FromSecondIs24(w);
    }
  }

  /** The two half-word shuffles rotate each lane by 16. */
  lemma SwappedHalves(v: Row)
    ensures ShuffleLow(HalvesOf(), ShuffleHigh(HalvesOf(), v, SWAP_HALVES), SWAP_HALVES) == RotateLanes(v, 16)
  {
    WordsRotate();
    HalvesSwap(HalvesOf(), By16, v);
  }

  /** The byte shuffles rotate each lane by 16, 8 and 24. */
  lemma ShuffledBytes16(v: Row)
    ensures ShuffleBytes(BytesOf(), v, PlacesFor16()) == RotateLanes(v, 16)
  {
    WordsRotate();
    BytesPermute(BytesOf(), By16, v);
  }

  lemma ShuffledBytes8(v: Row)
    ensures ShuffleBytes(BytesOf(), v, PlacesFor8()) == RotateLanes(v, 8)
  {
    WordsRotate();
    BytesPermute(BytesOf(), By8, v);
  }

  lemma ShuffledBytes24(v: Row)
    ensures ShuffleBytes(BytesOf(), v, PlacesFor24()) == RotateLanes(v, 24)
  {
    WordsRotate();
    BytesPermute(BytesOf(), By24, v);
  }

  lemma ShiftsRotate(v: Row, amt: Amount)
    ensures RotateLeftAny(v, amt) == RotateLanes(v, amt)
  {
    ShiftOrRotates(v.a, amt);
    ShiftOrRotates(v.b, amt);
    ShiftOrRotates(v.c, amt);
    ShiftOrRotates(v.d, amt);
  }

  /** Every implementation of the rotation is the rotation of each lane. */
  lemma RotationsAgree(cpu: Cpu, v: Row, amt: Amount)
    ensures RotateLeftConst(cpu, v, amt) == RotateLanes(v, amt)
  {
    SwappedHalves(v);
    ShuffledBytes16(v);
    ShuffledBytes8(v);
    ShuffledBytes24(v);
    ShiftsRotate(v, amt);
  }

  /** How each kind of processor moves the lanes. */
  function ShuffleLeftOn(cpu: Cpu, v: Row, amt: Shift): Row {
    if cpu == Fallback then ShuffleLeft(v, amt)
    else
      match amt
      case 1 => ShuffleLanes(v, Immediate(1, 2, 3, 0))
      case 2 => ShuffleLanes(v, Immediate(2, 3, 0, 1))
      case 3 => ShuffleLanes(v, Immediate(3, 0, 1, 2))
  }

  function AddWords(x: Word, y: Word): Word { x + y }
  function XorWords(x: Word, y: Word): Word { x ^ y }

  /** Addition modulo 2^32, exclusive or, and rotation. */
  function Words32(): Ops<Word> {
    Ops(AddWords, XorWords, RotateLeft)
  }

  function MachineOf(cpu: Cpu): Machine<Word> {
    Machine(Words32(), (v: Row, n: Amount) => RotateLeftConst(cpu, v, n), (v: Row, k: Shift) => ShuffleLeftOn(cpu, v, k))
  }

  lemma MachinesAreLawful(cpu: Cpu)
    ensures MachineOf(cpu).Lawful()
  {
    var m := MachineOf(cpu);
    forall v, n: Amount
      ensures m.rotate(v, n)
           == Vec(m.words.rotl(v.a, n), m.words.rotl(v.b, n), m.words.rotl(v.c, n), m.words.rotl(v.d, n))
    {
      RotationsAgree(cpu, v, n);
    }
    forall v, k: Shift
      ensures m.shuffleLeft(v, k) == ShuffleLeft(v, k)
    {
      LanesMoveLeft(v);
    }
  }

  /** Storing what was loaded gives the bytes back. */
  lemma LoadedBytesAreStored(s: seq<Octet>)
    requires |s| == 16
    ensures var b := BytesOf();
            b.OfRow(Vec(b.WordAt(s, 0), b.WordAt(s, 1), b.WordAt(s, 2), b.WordAt(s, 3))) == s
  {
    var b := BytesOf();
    forall i | 0 <= i < 4
      ensures b.Of(b.WordAt(s, i)) == [s[4 * i], s[4 * i + 1], s[4 * i + 2], s[4 * i + 3]]
    {
      WordOfOctets(s[4 * i], s[4 * i + 1], s[4 * i + 2], s[4 * i + 3]);
    }
    StoreUndoesLoad(b, s);
  }

  // ----- HChaCha -----

  function Constants(): Row {
    Vec(0x61707865, 0x3320646e, 0x79622d32, 0x6b206574)
  }

  /** The constants are the text "expand 32-byte k". */
  lemma ConstantsSpell()
    ensures BytesOf().OfRow(Constants())
         == [0x65, 0x78, 0x70, 0x61, 0x6e, 0x64, 0x20, 0x33, 0x32, 0x2d, 0x62, 0x79, 0x74, 0x65, 0x20, 0x6b]
  {}

  /** HChaCha of section 2.2 of draft-irtf-cfrg-xchacha, on bytes. */
  function Reference(key: seq<Octet>, nonce: seq<Octet>): seq<Octet>
    requires |key| == 32 && |nonce| == 16
  {
    Hash(Words32(), BytesOf(), Constants(), key, nonce)
  }

  /** The same on every processor. */
  method HChaCha(cpu: Cpu, key: seq<Octet>, nonce: seq<Octet>) returns (out: seq<Octet>)
    requires |key| == 32 && |nonce| == 16
    ensures out == Reference(key, nonce)
  {
    MachinesAreLawful(cpu);
    out := HashRows(MachineOf(cpu), BytesOf(), Constants(), key, nonce);
  }
}
