/** The byte ring between the tunnel driver and the program. Records are a four-byte length and
    the packet, padded to a multiple of four; a record that starts near the end of the ring
    overruns into the extra area behind it instead of wrapping around.

    Positions in the proofs are counted without wrapping: the ring index of position `v` is
    `v % CAPACITY`. */
module Ring {
  import opened Bits
  import opened LittleEndian
  import opened Wrappers

  const CAPACITY: nat := 128 * 1024
  const MAX_PACKET: nat := 0x10000
  const DATA_LEN: nat := CAPACITY + 0x10000

  function Align4(len: nat): nat {
    (len + 3) / 4 * 4
  }

  /** The next multiple of four. */
  lemma Align4Meaning(len: nat)
    ensures Align4(len) % 4 == 0 && len <= Align4(len) < len + 4
  {}

  lemma QuotientOfFour(n: nat, q: nat)
    requires 4 * q <= n < 4 * q + 4
    ensures n / 4 * 4 == 4 * q
  {}

  /** The source adds three to a 32-bit number and clears the two low bits of the sum. */
  lemma Align4IsMasking(len: nat, sum: Word, mask: Word)
    requires |sum| == 32 && ValueOf(sum) == len + 3
    requires |mask| == 32 && forall i :: 0 <= i < 32 ==> mask[i] == (i < 30)
    ensures ValueOf(And(sum, mask)) == Align4(len)
  {
    var masked, top := And(sum, mask), sum[..30];
    assert masked[..31] == top + [false] && masked[..31][..30] == top && sum[..31][..30] == top;
    assert ValueOf(masked[..31]) == 2 * ValueOf(top) && ValueOf(masked) == 4 * ValueOf(top);
    assert ValueOf(sum[..31]) == 2 * ValueOf(top) + if sum[30] then 1 else 0;
    assert 4 * ValueOf(top) <= ValueOf(sum) < 4 * ValueOf(top) + 4;
    QuotientOfFour(ValueOf(sum), ValueOf(top));
  }

  // ----- records -----

  type Packet = seq<Byte>

  function Size(p: Packet): nat {
    4 + Align4(|p|)
  }

  /** The bytes that are written for a packet. */
  function Record(p: Packet): seq<Byte> {
    ToLe(|p|, 4) + p
  }

  function Index(v: nat): nat {
    v % CAPACITY
  }

  ghost predicate RecordAt(data: seq<Byte>, pos: nat, p: Packet) {
    && |p| < MAX_PACKET
    && pos + |Record(p)| <= |data|
    && data[pos..pos + |Record(p)|] == Record(p)
  }

  /** The records of `ps` lie one after the other from position `v` to position `end`. */
  ghost predicate Live(data: seq<Byte>, v: nat, ps: seq<Packet>, end: nat)
    decreases |ps|
  {
    if ps == [] then v == end
    else RecordAt(data, Index(v), ps[0]) && Live(data, v + Size(ps[0]), ps[1..], end)
  }

  /** The ring holds the packets `ps` between the positions `hv` and `tv`. */
  ghost predicate Holds(data: seq<Byte>, hv: nat, ps: seq<Packet>, tv: nat) {
    && |data| == DATA_LEN
    && hv % 4 == 0 && tv % 4 == 0
    && hv <= tv < hv + CAPACITY
    && Live(data, hv, ps, tv)
  }

  lemma {:induction false} LiveForward(data: seq<Byte>, v: nat, ps: seq<Packet>, end: nat)
    requires Live(data, v, ps, end)
    ensures v <= end && (v == end <==> ps == [])
    ensures ps != [] ==> v + Size(ps[0]) <= end
    decreases |ps|
  {
    if ps != [] {
      LiveForward(data, v + Size(ps[0]), ps[1..], end);
    }
  }

  /** The bytes behind the newest record, as far as they fit in front of the oldest one, are in
      bounds and meet no byte of any record between `u` and the newest. */
  lemma FreeBytesAreFree(hv: nat, u: nat, n: nat, tv: nat, i: nat)
    requires hv <= u && u + n <= tv && tv + i < hv + CAPACITY
    ensures !(Index(u) <= Index(tv) + i < Index(u) + n)
  {
    var a, b := u / CAPACITY, tv / CAPACITY;
    assert u == a * CAPACITY + Index(u) && tv == b * CAPACITY + Index(tv);
    assert b <= a + 1;
  }

  /** Changing only free bytes leaves every live record as it is. */
  lemma {:induction false} FreeBytesMayChange(data: seq<Byte>, data': seq<Byte>, hv: nat, v: nat,
                                              ps: seq<Packet>, tv: nat, n: nat)
    requires Live(data, v, ps, tv) && hv <= v && tv + n <= hv + CAPACITY
    requires |data| == |data'|
    requires forall j :: 0 <= j < |data| && !(Index(tv) <= j < Index(tv) + n) ==> data'[j] == data[j]
    ensures Live(data', v, ps, tv)
    decreases |ps|
  {
    if ps != [] {
      var p := ps[0];
      LiveForward(data, v, ps, tv);
      var pos, len := Index(v), |Record(p)|;
      forall k | pos <= k < pos + len ensures data'[k] == data[k] {
        if Index(tv) <= k < Index(tv) + n {
          FreeBytesAreFree(hv, v, Size(p), tv, k - Index(tv));
        }
      }
      assert data'[pos..pos + len] == data[pos..pos + len];
      FreeBytesMayChange(data, data', hv, v + Size(p), ps[1..], tv, n);
    }
  }

  lemma StillHolds(data: seq<Byte>, data': seq<Byte>, hv: nat, ps: seq<Packet>, tv: nat, n: nat)
    requires Holds(data, hv, ps, tv) && tv + n <= hv + CAPACITY && |data| == |data'|
    requires forall j :: 0 <= j < |data| && !(Index(tv) <= j < Index(tv) + n) ==> data'[j] == data[j]
    ensures Holds(data', hv, ps, tv)
  {
    FreeBytesMayChange(data, data', hv, hv, ps, tv, n);
  }

  lemma {:induction false} LiveSnoc(data: seq<Byte>, v: nat, ps: seq<Packet>, end: nat, p: Packet)
    requires Live(data, v, ps, end) && RecordAt(data, Index(end), p)
    ensures Live(data, v, ps + [p], end + Size(p))
    decreases |ps|
  {
    if ps != [] {
      LiveSnoc(data, v + Size(ps[0]), ps[1..], end, p);
      assert (ps + [p])[1..] == ps[1..] + [p];
    } else {
      assert ps + [p] == [p];
    }
  }

  lemma SizeAligned(v: nat, p: Packet)
    ensures v % 4 == 0 ==> (v + Size(p)) % 4 == 0
  {}

  lemma HoldsSnoc(data: seq<Byte>, hv: nat, ps: seq<Packet>, tv: nat, p: Packet)
    requires Holds(data, hv, ps, tv) && RecordAt(data, Index(tv), p) && tv + Size(p) < hv + CAPACITY
    ensures Holds(data, hv, ps + [p], tv + Size(p))
  {
    LiveSnoc(data, hv, ps, tv, p);
    SizeAligned(tv, p);
  }

  lemma HoldsTail(data: seq<Byte>, hv: nat, ps: seq<Packet>, tv: nat)
    requires Holds(data, hv, ps, tv) && ps != []
    ensures Holds(data, hv + Size(ps[0]), ps[1..], tv)
  {
    LiveForward(data, hv, ps, tv);
    SizeAligned(hv, ps[0]);
  }

  // ----- what the two ends compute from the indices -----

  /** The room that the writer sees. */
  function HeadUnmod(head: nat, tail: nat): nat {
    if head > tail then head else head + CAPACITY
  }

  function TailUnmod(head: nat, tail: nat): nat {
    if head > tail then tail + CAPACITY else tail
  }

  lemma IndexDistance(hv: nat, tv: nat)
    requires hv <= tv < hv + CAPACITY
    ensures HeadUnmod(Index(hv), Index(tv)) - Index(tv) == hv + CAPACITY - tv
    ensures TailUnmod(Index(hv), Index(tv)) - Index(hv) == tv - hv
    ensures Index(hv) == Index(tv) <==> hv == tv
  {
    var a, b := hv / CAPACITY, tv / CAPACITY;
    assert hv == a * CAPACITY + Index(hv) && tv == b * CAPACITY + Index(tv);
  }

  lemma IndexAligned(v: nat)
    requires v % 4 == 0
    ensures Index(v) % 4 == 0 && Index(v) <= CAPACITY - 4
  {
    var a, b := v / CAPACITY, v / 4;
    assert Index(v) == 4 * (b - 32768 * a);
  }

  lemma AdvanceIndex(v: nat, n: nat)
    ensures Index(Index(v) + n) == Index(v + n)
  {
    var a := v / CAPACITY;
    assert v == a * CAPACITY + Index(v);
    assert (Index(v) + n) + a * CAPACITY == v + n;
    ModAddMultiple(Index(v) + n, a);
  }

  lemma {:induction false} ModAddMultiple(x: nat, a: nat)
    ensures (x + a * CAPACITY) % CAPACITY == x % CAPACITY
  {
    if a > 0 {
      ModAddMultiple(x, a - 1);
      assert x + a * CAPACITY == (x + (a - 1) * CAPACITY) + CAPACITY;
    }
  }

  lemma EmptyIffEqual(data: seq<Byte>, hv: nat, ps: seq<Packet>, tv: nat)
    requires Holds(data, hv, ps, tv)
    ensures Index(hv) == Index(tv) <==> ps == []
  {
    LiveForward(data, hv, ps, tv);
    IndexDistance(hv, tv);
  }

  /** What a reader finds that has seen the tail `ts`, behind the oldest record: its length and
      bytes, and that the record ends before the tail. */
  lemma OldestRecord(data: seq<Byte>, hv: nat, ps: seq<Packet>, tv: nat, ts: nat)
    requires Holds(data, hv, ps, tv) && ps != []
    requires ts <= tv && (ts == tv || hv + Size(ps[0]) <= ts)
    ensures var p, h := ps[0], Index(hv);
      && RecordAt(data, h, p)
      && h + 4 + |p| <= |data|
      && FromLe(data[h..h + 4]) == |p| < MAX_PACKET
      && data[h + 4..h + 4 + |p|] == p
      && hv + Size(p) <= ts
      && h + Size(p) <= TailUnmod(h, Index(ts))
      && (h + Size(p)) % CAPACITY == Index(hv + Size(p))
  {
    LiveForward(data, hv, ps, tv);
    RecordBytes(data, Index(hv), ps[0]);
    IndexDistance(hv, ts);
    AdvanceIndex(hv, Size(ps[0]));
  }

  /** A writer that has seen the head at position `hs` writes exactly if the record fits between
      the tail and that head, and then ends up at the right index. */
  lemma RoomSeen(hs: nat, tv: nat, p: Packet)
    requires hs <= tv < hs + CAPACITY
    ensures var t := Index(tv);
      && (t + Size(p) < HeadUnmod(Index(hs), t) <==> tv + Size(p) < hs + CAPACITY)
      && (t + Size(p)) % CAPACITY == Index(tv + Size(p))
  {
    IndexDistance(hs, tv);
    AdvanceIndex(tv, Size(p));
  }

  lemma NextIndex(at: nat, len: nat)
    ensures (at + 4 + Align4(len)) % CAPACITY == (at + 4 + (len + 3) / 4 * 4) % 0x2_0000
  {}

  /** The bytes in use, from the two indices. */
  lemma UsedBytes(hv: nat, tv: nat)
    requires hv <= tv < hv + CAPACITY
    ensures (Index(tv) - Index(hv)) % 0x2_0000 == tv - hv
  {
    IndexDistance(hv, tv);
    var d := Index(tv) - Index(hv);
    assert d == tv - hv || d + CAPACITY == tv - hv;
  }

  /** The writer's test and the new tail, from the two indices alone. */
  lemma WriterSees(hv: nat, tv: nat, p: Packet)
    requires hv <= tv < hv + CAPACITY
    ensures Index(tv) + 4 + Align4(|p|) < HeadUnmod(Index(hv), Index(tv)) <==> tv + Size(p) < hv + CAPACITY
    ensures tv + Size(p) < hv + CAPACITY <==>
      (Index(tv) - Index(hv)) % 0x2_0000 + 4 + (|p| + 3) / 4 * 4 < 0x2_0000
    ensures (Index(tv) + 4 + Align4(|p|)) % CAPACITY == Index(tv + Size(p))
  {
    RoomSeen(hv, tv, p);
    UsedBytes(hv, tv);
  }

  /** At the offset `at` lie the length of the packet, in four bytes and the least significant one
      first, and the packet itself. */
  ghost predicate Stored(data: seq<Byte>, at: nat, p: Packet) {
    && at + 4 + |p| <= |data|
    && data[at] == |p| % 256 && data[at + 1] == |p| / 256 && data[at + 2] == data[at + 3] == 0
    && data[at + 4..at + 4 + |p|] == p
  }

  lemma RecordLayout(p: Packet)
    requires |p| < 0x1_0000
    ensures Record(p) == [|p| % 256, |p| / 256, 0, 0] + p
  {
    var n := |p|;
    assert ToLe(n, 4) == [n % 256] + ToLe(n / 256, 3);
    assert ToLe(n / 256, 3) == [n / 256] + ToLe(0, 2);
    assert ToLe(0, 2) == [0] + ToLe(0, 1);
  }

  lemma RecordIsStored(data: seq<Byte>, at: nat, p: Packet)
    requires RecordAt(data, at, p)
    ensures Stored(data, at, p)
  {
    RecordLayout(p);
    var r := data[at..at + |Record(p)|];
    assert data[at] == r[0] && data[at + 1] == r[1] && data[at + 2] == r[2] && data[at + 3] == r[3];
    assert data[at + 4..at + 4 + |p|] == r[4..];
  }

  // ----- the ring used by one thread at a time -----

  datatype WriteResult = Written(len: nat) | WriteWouldBlock | InvalidInput | WriteInvalidData
  datatype ReadResult = Read(bytes: seq<Byte>) | ReadWouldBlock | ReadInvalidData

  class TunRing {
    var head: nat
    var tail: nat
    var alertable: bool
    const data: array<Byte>
    // The packets in the ring, oldest first, and the positions they occupy.
    ghost var packets: seq<Packet>
    ghost var hv: nat
    ghost var tv: nat

    ghost predicate Valid()
      reads this, data
    {
      && head == Index(hv) && tail == Index(tv)
      && Holds(data[..], hv, packets, tv)
    }

    constructor ()
      ensures Valid() && fresh(data) && packets == [] && head == 0 && tail == 0 && !alertable
    {
      head, tail, alertable := 0, 0, false;
      packets, hv, tv := [], 0, 0;
      data := new Byte[DATA_LEN](_ => 0);
    }

    /** Reads the oldest packet into a buffer of `bufLen` bytes. */
    method Read(bufLen: nat) returns (r: ReadResult)
      requires Valid()
      modifies this`head, this`packets, this`hv
      ensures Valid()
      ensures old(packets) == [] ==> r == ReadWouldBlock && packets == [] && head == old(head)
      ensures old(packets) != [] ==>
        && var p := old(packets)[0];
        && r == ReadResult.Read(if |p| <= bufLen then p else p[..bufLen])
        && packets == old(packets)[1..]
        && head == (old(head) + 4 + (|p| + 3) / 4 * 4) % 0x2_0000
    {
      EmptyHere();
      if head == tail {
        return ReadWouldBlock;
      }
      if head >= CAPACITY {
        return ReadInvalidData;
      }
      OldestHere();
      var len := FromLe(data[head..head + 4]);
      if len >= MAX_PACKET {
        return ReadInvalidData;
      }
      var newHeadUnmod := head + 4 + Align4(len);
      var tailUnmod := if head > tail then tail + CAPACITY else tail;
      if newHeadUnmod > tailUnmod {
        return ReadInvalidData;
      }
      r := Take(len, bufLen, newHeadUnmod % CAPACITY);
    }

    /** Copies the oldest packet out and moves the head. */
    method Take(len: nat, bufLen: nat, newHead: nat) returns (r: ReadResult)
      requires Valid() && Oldest(newHead) && len == |packets[0]|
      modifies this`head, this`packets, this`hv
      ensures Valid() && packets == old(packets)[1..] && head == newHead
      ensures var p := old(packets)[0]; r == ReadResult.Read(if |p| <= bufLen then p else p[..bufLen])
    {
      BytesHere(bufLen);
      var copyLen := if len < bufLen then len else bufLen;
      r := ReadResult.Read(data[head + 4..head + 4 + copyLen]);
      Pop(newHead);
    }

    lemma EmptyHere()
      requires Valid()
      ensures head == tail <==> packets == []
      ensures head < CAPACITY
    {
      EmptyIffEqual(data[..], hv, packets, tv);
    }

    /** What the reader finds at the head. */
    lemma OldestHere()
      requires Valid() && packets != []
      ensures var n := |packets[0]|;
        && head + 4 <= data.Length
        && FromLe(data[head..head + 4]) == n < MAX_PACKET
        && head + 4 + Align4(n) <= TailUnmod(head, tail)
        && Oldest((head + 4 + Align4(n)) % CAPACITY)
        && (head + 4 + Align4(n)) % CAPACITY == (head + 4 + (n + 3) / 4 * 4) % 0x2_0000
    {
      OldestRecord(data[..], hv, packets, tv, tv);
      NextIndex(head, |packets[0]|);
      assert data[head..head + 4] == data[..][head..head + 4];
    }

    lemma BytesHere(bufLen: nat)
      requires Valid() && packets != []
      ensures var p := packets[0]; var copyLen := if |p| < bufLen then |p| else bufLen;
        && head + 4 + |p| <= data.Length
        && data[head + 4..head + 4 + copyLen] == Truncated(p, bufLen)
    {
      OldestRecord(data[..], hv, packets, tv, tv);
      CopiedBytes(data[..], head, packets[0], bufLen);
      var n := if |packets[0]| < bufLen then |packets[0]| else bufLen;
      assert data[head + 4..head + 4 + n] == data[..][head + 4..head + 4 + n];
    }

    ghost predicate Oldest(newHead: nat)
      reads this, data
    {
      && packets != [] && newHead == Index(hv + Size(packets[0]))
      && hv + Size(packets[0]) <= tv
    }

    method Pop(newHead: nat)
      requires Valid() && Oldest(newHead)
      modifies this`head, this`packets, this`hv
      ensures Valid() && packets == old(packets)[1..] && head == newHead
    {
      HoldsTail(data[..], hv, packets, tv);
      head := newHead;
      hv, packets := hv + Size(packets[0]), packets[1..];
    }

    /** Writes a packet, if there is room. */
    method Write(buf: Packet) returns (r: WriteResult)
      requires Valid()
      modifies this`tail, this`packets, this`tv, data
      ensures Valid()
      // The record must fit, padded, with at least one byte left of the 128 KiB.
      ensures r == if |buf| >= 0x1_0000 then InvalidInput
                   else if old(tail - head) % 0x2_0000 + 4 + (|buf| + 3) / 4 * 4 < 0x2_0000 then Written(|buf|)
                   else WriteWouldBlock
      ensures packets == if r.Written? then old(packets) + [buf] else old(packets)
      ensures !r.Written? ==> tail == old(tail) && data[..] == old(data[..])
      ensures r.Written? ==> tail == (old(tail) + 4 + (|buf| + 3) / 4 * 4) % 0x2_0000
      ensures r.Written? ==> Stored(data[..], old(tail), buf)
    {
      if |buf| >= MAX_PACKET {
        return InvalidInput;
      }
      if tail >= CAPACITY {
        return WriteInvalidData;
      }
      RoomHere(buf);
      var headUnmod := if head > tail then head else head + CAPACITY;
      var newTailUnmod := tail + 4 + Align4(|buf|);
      if newTailUnmod >= headUnmod {
        return WriteWouldBlock;
      }
      var newTail := newTailUnmod % CAPACITY;
      Store(newTail, buf);
      return Written(|buf|);
    }

    /** The writer's test, and what it is good for. */
    lemma RoomHere(buf: Packet)
      requires Valid()
      ensures tail < CAPACITY
      ensures tail + 4 + Align4(|buf|) < HeadUnmod(head, tail) <==>
        (tail - head) % 0x2_0000 + 4 + (|buf| + 3) / 4 * 4 < 0x2_0000
      ensures tail + 4 + Align4(|buf|) < HeadUnmod(head, tail) ==> tv + Size(buf) < hv + CAPACITY
      ensures (tail + 4 + Align4(|buf|)) % CAPACITY == Index(tv + Size(buf))
      ensures (tail + 4 + Align4(|buf|)) % CAPACITY == (tail + 4 + (|buf| + 3) / 4 * 4) % 0x2_0000
    {
      WriterSees(hv, tv, buf);
      NextIndex(tail, |buf|);
    }

    method Store(newTail: nat, buf: Packet)
      requires Valid() && |buf| < MAX_PACKET
      requires newTail == Index(tv + Size(buf)) && tv + Size(buf) < hv + CAPACITY
      modifies this`tail, this`packets, this`tv, data
      ensures Valid() && packets == old(packets) + [buf] && tail == newTail
      ensures Stored(data[..], old(tail), buf)
    {
      CopyIn(tail, buf);
      RecordIsStored(data[..], tail, buf);
      Push(newTail, buf);
    }

    method Push(newTail: nat, ghost buf: Packet)
      requires Valid() && RecordAt(data[..], Index(tv), buf)
      requires newTail == Index(tv + Size(buf)) && tv + Size(buf) < hv + CAPACITY
      modifies this`tail, this`packets, this`tv
      ensures Valid() && packets == old(packets) + [buf] && tail == newTail
    {
      HoldsSnoc(data[..], hv, packets, tv, buf);
      tail := newTail;
      tv, packets := tv + Size(buf), packets + [buf];
    }

    /** Copies the length and the packet behind the newest record. */
    method CopyIn(at: nat, buf: Packet)
      requires Valid() && at == tail && |buf| < MAX_PACKET && tv + Size(buf) < hv + CAPACITY
      modifies data
      ensures Valid() && RecordAt(data[..], Index(tv), buf)
    {
      IndexAligned(tv);
      ghost var before := data[..];
      CopyBytes(at, ToLe(|buf|, 4) + buf);
      assert data[..][at..at + 4 + |buf|] == Record(buf);
      StillHolds(before, data[..], hv, packets, tv, Size(buf));
    }

    method CopyBytes(at: nat, bytes: seq<Byte>)
      requires at + |bytes| <= data.Length
      modifies data
      ensures data[at..at + |bytes|] == bytes
      ensures forall j :: 0 <= j < data.Length && !(at <= j < at + |bytes|) ==> data[j] == old(data[j])
    {
      for i := 0 to |bytes|
        invariant forall j :: 0 <= j < i ==> data[at + j] == bytes[j]
        invariant forall j :: 0 <= j < data.Length && !(at <= j < at + i) ==> data[j] == old(data[j])
      {
        data[at + i] := bytes[i];
      }
    }
  }

  function Truncated(p: Packet, bufLen: nat): seq<Byte> {
    if |p| < bufLen then p else p[..bufLen]
  }

  lemma CopiedBytes(data: seq<Byte>, pos: nat, p: Packet, bufLen: nat)
    requires RecordAt(data, pos, p)
    ensures data[pos + 4..pos + 4 + (if |p| < bufLen then |p| else bufLen)] == Truncated(p, bufLen)
  {
    RecordBytes(data, pos, p);
    var bytes := data[pos + 4..pos + 4 + |p|];
    assert |p| >= bufLen ==> bytes[..bufLen] == data[pos + 4..pos + 4 + bufLen];
  }

  lemma RecordLength(p: Packet)
    requires |p| < MAX_PACKET
    ensures FromLe(Record(p)[..4]) == |p|
  {
    PowersOf256();
    FromToLe(|p|, 4);
    assert Record(p)[..4] == ToLe(|p|, 4);
  }

  lemma RecordBytes(data: seq<Byte>, pos: nat, p: Packet)
    requires RecordAt(data, pos, p)
    ensures FromLe(data[pos..pos + 4]) == |p|
    ensures data[pos + 4..pos + 4 + |p|] == p
  {
    RecordLength(p);
    var r := data[pos..pos + |Record(p)|];
    assert data[pos..pos + 4] == r[..4];
    assert data[pos + 4..pos + 4 + |p|] == r[4..];
  }
}
