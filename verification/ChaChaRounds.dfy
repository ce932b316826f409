/** The ChaCha rounds in two forms: as quarter rounds on a state of sixteen words, and as operations
    on the four rows of that state. Both are over arbitrary word operations. */
module ChaChaRounds {

  /** A row of four lanes. */
  datatype Vec<W> = Vec(a: W, b: W, c: W, d: W)

  /** A number of bits to rotate by. */
  type Amount = n: nat | n <= 31

  /** The operations on words. */
  datatype Ops<!W(!new)> = Ops(add: (W, W) -> W, xor: (W, W) -> W, rotl: (W, Amount) -> W)

  /** A number of lanes to move by. */
  type Shift = k: nat | 1 <= k <= 3 witness 1

  function ShuffleLeft<W>(v: Vec<W>, amt: Shift): Vec<W> {
    match amt
    case 1 => Vec(v.b, v.c, v.d, v.a)
    case 2 => Vec(v.c, v.d, v.a, v.b)
    case 3 => Vec(v.d, v.a, v.b, v.c)
  }

  /** A machine has its own way of rotating and of moving all the lanes of a row. */
  datatype Machine<!W(!new)> = Machine(
    words: Ops<W>, rotate: (Vec<W>, Amount) -> Vec<W>, shuffleLeft: (Vec<W>, Shift) -> Vec<W>)
  {
    ghost predicate Lawful() {
      && (forall v, n :: rotate(v, n)
            == Vec(words.rotl(v.a, n), words.rotl(v.b, n), words.rotl(v.c, n), words.rotl(v.d, n)))
      && (forall v, k :: shuffleLeft(v, k) == ShuffleLeft(v, k))
    }

    function ShuffleRight(v: Vec<W>, amt: Shift): Vec<W> {
      shuffleLeft(v, 4 - amt)
    }
  }

  // ----- quarter rounds -----

  /** The quarter round of section 2.1 of RFC 8439. */
  function QuarterRound<W(!new)>(o: Ops<W>, q: Vec<W>): Vec<W> {
    var a := o.add(q.a, q.b);
    var d := o.rotl(o.xor(q.d, a), 16);
    var c := o.add(q.c, d);
    var b := o.rotl(o.xor(q.b, c), 12);
    var a' := o.add(a, b);
    var d' := o.rotl(o.xor(d, a'), 8);
    var c' := o.add(c, d');
    var b' := o.rotl(o.xor(b, c'), 7);
    Vec(a', b', c', d')
  }

  /** QUARTERROUND(x, y, z, w) of section 2.2 of RFC 8439. */
  function QuarterRoundAt<W(!new)>(o: Ops<W>, s: seq<W>, x: nat, y: nat, z: nat, w: nat): (r: seq<W>)
    requires |s| == 16 && x < 16 && y < 16 && z < 16 && w < 16
    ensures |r| == 16
  {
    var q := QuarterRound(o, Vec(s[x], s[y], s[z], s[w]));
    s[x := q.a][y := q.b][z := q.c][w := q.d]
  }

  function ColumnRound<W(!new)>(o: Ops<W>, s: seq<W>): (r: seq<W>)
    requires |s| == 16
    ensures |r| == 16
  {
    var s1 := QuarterRoundAt(o, s, 0, 4, 8, 12);
    var s2 := QuarterRoundAt(o, s1, 1, 5, 9, 13);
    var s3 := QuarterRoundAt(o, s2, 2, 6, 10, 14);
    QuarterRoundAt(o, s3, 3, 7, 11, 15)
  }

  function DiagonalRound<W(!new)>(o: Ops<W>, s: seq<W>): (r: seq<W>)
    requires |s| == 16
    ensures |r| == 16
  {
    var s1 := QuarterRoundAt(o, s, 0, 5, 10, 15);
    var s2 := QuarterRoundAt(o, s1, 1, 6, 11, 12);
    var s3 := QuarterRoundAt(o, s2, 2, 7, 8, 13);
    QuarterRoundAt(o, s3, 3, 4, 9, 14)
  }

  function DoubleRound<W(!new)>(o: Ops<W>, s: seq<W>): (r: seq<W>)
    requires |s| == 16
    ensures |r| == 16
  {
    DiagonalRound(o, ColumnRound(o, s))
  }

  function DoubleRounds<W(!new)>(o: Ops<W>, s: seq<W>, n: nat): (r: seq<W>)
    requires |s| == 16
    ensures |r| == 16
  {
    if n == 0 then s else DoubleRound(o, DoubleRounds(o, s, n - 1))
  }

  // ----- rows -----

  datatype Rows<W> = Rows(r0: Vec<W>, r1: Vec<W>, r2: Vec<W>, r3: Vec<W>)

  function Add<W(!new)>(o: Ops<W>, x: Vec<W>, y: Vec<W>): Vec<W> {
    Vec(o.add(x.a, y.a), o.add(x.b, y.b), o.add(x.c, y.c), o.add(x.d, y.d))
  }

  function Xor<W(!new)>(o: Ops<W>, x: Vec<W>, y: Vec<W>): Vec<W> {
    Vec(o.xor(x.a, y.a), o.xor(x.b, y.b), o.xor(x.c, y.c), o.xor(x.d, y.d))
  }

  function Round<W(!new)>(m: Machine<W>, s: Rows<W>): Rows<W> {
    var r0 := Add(m.words, s.r0, s.r1);
    var r3 := m.rotate(Xor(m.words, s.r3, r0), 16);
    var r2 := Add(m.words, s.r2, r3);
    var r1 := m.rotate(Xor(m.words, s.r1, r2), 12);
    var r0' := Add(m.words, r0, r1);
    var r3' := m.rotate(Xor(m.words, r3, r0'), 8);
    var r2' := Add(m.words, r2, r3');
    var r1' := m.rotate(Xor(m.words, r1, r2'), 7);
    Rows(r0', r1', r2', r3')
  }

  function Shuffle<W(!new)>(m: Machine<W>, s: Rows<W>): Rows<W> {
    Rows(m.shuffleLeft(s.r0, 1), m.shuffleLeft(s.r1, 2), m.shuffleLeft(s.r2, 3), s.r3)
  }

  function Unshuffle<W(!new)>(m: Machine<W>, s: Rows<W>): Rows<W> {
    Rows(m.ShuffleRight(s.r0, 1), m.ShuffleRight(s.r1, 2), m.ShuffleRight(s.r2, 3), s.r3)
  }

  function RoundPair<W(!new)>(m: Machine<W>, s: Rows<W>): Rows<W> {
    Unshuffle(m, Round(m, Shuffle(m, Round(m, s))))
  }

  // ----- the two forms agree -----

  /** The sixteen words, row after row. */
  function Words<W>(s: Rows<W>): (r: seq<W>)
    ensures |r| == 16
  {
    [s.r0.a, s.r0.b, s.r0.c, s.r0.d, s.r1.a, s.r1.b, s.r1.c, s.r1.d,
     s.r2.a, s.r2.b, s.r2.c, s.r2.d, s.r3.a, s.r3.b, s.r3.c, s.r3.d]
  }

  /** A round works on the four lanes independently, and on each it is a quarter round. */
  lemma RoundIsQuarterRounds<W(!new)>(m: Machine<W>, s: Rows<W>)
    requires m.Lawful()
    ensures var r := Round(m, s);
      && Vec(r.r0.a, r.r1.a, r.r2.a, r.r3.a) == QuarterRound(m.words, Vec(s.r0.a, s.r1.a, s.r2.a, s.r3.a))
      && Vec(r.r0.b, r.r1.b, r.r2.b, r.r3.b) == QuarterRound(m.words, Vec(s.r0.b, s.r1.b, s.r2.b, s.r3.b))
      && Vec(r.r0.c, r.r1.c, r.r2.c, r.r3.c) == QuarterRound(m.words, Vec(s.r0.c, s.r1.c, s.r2.c, s.r3.c))
      && Vec(r.r0.d, r.r1.d, r.r2.d, r.r3.d) == QuarterRound(m.words, Vec(s.r0.d, s.r1.d, s.r2.d, s.r3.d))
  {}

  lemma RoundIsColumnRound<W(!new)>(m: Machine<W>, s: Rows<W>)
    requires m.Lawful()
    ensures Words(Round(m, s)) == ColumnRound(m.words, Words(s))
  {
    RoundIsQuarterRounds(m, s);
  }

  lemma ShuffledRoundIsDiagonalRound<W(!new)>(m: Machine<W>, s: Rows<W>)
    requires m.Lawful()
    ensures Words(Unshuffle(m, Round(m, Shuffle(m, s)))) == DiagonalRound(m.words, Words(s))
  {
    RoundIsQuarterRounds(m, Shuffle(m, s));
  }

  lemma RoundPairIsDoubleRound<W(!new)>(m: Machine<W>, s: Rows<W>)
    requires m.Lawful()
    ensures Words(RoundPair(m, s)) == DoubleRound(m.words, Words(s))
  {
    RoundIsColumnRound(m, s);
    ShuffledRoundIsDiagonalRound(m, Round(m, s));
  }
}
