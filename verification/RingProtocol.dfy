/** The byte ring with a writer and a reader at work at the same time, together with the wake-up
    protocol. Every load, every store and every copied byte is a step of its own, and the steps
    of the two ends interleave in any order; somebody else may set the event at any time.

    Both ends run the code of the source: `TunRing.write` and the writing half of
    `TunRegisterRings.write` at one end, `TunRing.read` and the retry loop of
    `TunRegisterRings.read` at the other. */
module RingProtocol {
  import opened LittleEndian
  import opened Ring

  /** Where the writer is. `hs` is the position behind the head that it has loaded. */
  datatype Writer =
    | WIdle
    | WLoadHead(buf: Packet)
    | WLoadTail(buf: Packet, head: nat, hs: nat)
    | WCopy(buf: Packet, tail: nat, newTail: nat, done: nat)
    | WTestAlertable
    | WSetEvent
    | WFailed

  /** Where the reader is. `again` tells the second attempt, after asking to be woken, from the
      first; `ts` is the position behind the tail that it has loaded. */
  datatype Reader =
    | RIdle
    | RLoadHead(bufLen: nat, again: bool)
    | RLoadTail(bufLen: nat, again: bool, head: nat)
    | RLoadLen(bufLen: nat, head: nat, tail: nat, ts: nat, got: seq<Byte>)
    | RCopy(bufLen: nat, head: nat, newHead: nat, copyLen: nat, got: seq<Byte>)
    | RSetAlertable(bufLen: nat)
    | RWait(bufLen: nat)
    | RClearAlertable(bufLen: nat)
    | RFailed

  datatype Delivery = Delivery(bytes: seq<Byte>, bufLen: nat)

  /** `written` and `delivered` are the histories of the two ends; `hv` and `tv` are head and
      tail counted without wrapping. */
  datatype State = State(
    data: seq<Byte>, head: nat, tail: nat, alertable: bool, event: bool,
    writer: Writer, reader: Reader,
    hv: nat, tv: nat, written: seq<Packet>, delivered: seq<Delivery>)

  datatype Step =
    | BeginWrite(buf: Packet) // a call of the writer
    | WriterStep
    | BeginRead(bufLen: nat)  // a call of the reader
    | ReaderStep
    | SpuriousEvent

  function Init(): State {
    State(seq(DATA_LEN, _ => 0), 0, 0, false, false, WIdle, RIdle, 0, 0, [], [])
  }

  predicate Enabled(s: State, step: Step) {
    match step
    case BeginWrite(_) => s.writer.WIdle?
    case WriterStep => !s.writer.WIdle? && !s.writer.WFailed? && WriterInBounds(s)
    case BeginRead(_) => s.reader.RIdle?
    case ReaderStep => !s.reader.RIdle? && !s.reader.RFailed? && (s.reader.RWait? ==> s.event) && ReaderInBounds(s)
    case SpuriousEvent => true
  }

  /** The byte that the writer is about to store lies in the data array. */
  predicate WriterInBounds(s: State) {
    s.writer.WCopy? && s.writer.done < 4 + |s.writer.buf| ==> s.writer.tail + s.writer.done < |s.data|
  }

  /** The byte that the reader is about to load lies in the data array. */
  predicate ReaderInBounds(s: State) {
    match s.reader
    case RLoadLen(_, head, _, _, got) => |got| < 4 ==> head + |got| < |s.data|
    case RCopy(_, head, _, copyLen, got) => |got| < copyLen ==> head + 4 + |got| < |s.data|
    case _ => true
  }

  function Next(s: State, step: Step): State
    requires Enabled(s, step)
  {
    match step
    case BeginWrite(buf) =>
      // A packet that is too long is refused.
      if |buf| >= MAX_PACKET then s else s.(writer := WLoadHead(buf))
    case WriterStep => WriterNext(s)
    case BeginRead(bufLen) => s.(reader := RLoadHead(bufLen, false))
    case ReaderStep => ReaderNext(s)
    case SpuriousEvent => s.(event := true)
  }

  function WriterNext(s: State): State
    requires Enabled(s, WriterStep)
  {
    match s.writer
    case WLoadHead(buf) => s.(writer := WLoadTail(buf, s.head, s.hv))
    case WLoadTail(buf, head, _) =>
      var tail := s.tail;
      if tail >= CAPACITY then s.(writer := WFailed)
      else if tail + Size(buf) >= HeadUnmod(head, tail) then s.(writer := WIdle) // would block
      else s.(writer := WCopy(buf, tail, (tail + Size(buf)) % CAPACITY, 0))
    case WCopy(buf, tail, newTail, done) =>
      if done < 4 + |buf| then
        s.(data := s.data[tail + done := Record(buf)[done]], writer := WCopy(buf, tail, newTail, done + 1))
      else
        s.(tail := newTail, tv := s.tv + Size(buf), written := s.written + [buf], writer := WTestAlertable)
    case WTestAlertable => s.(writer := if s.alertable then WSetEvent else WIdle)
    case WSetEvent => s.(event := true, writer := WIdle)
  }

  function ReaderNext(s: State): State
    requires Enabled(s, ReaderStep)
  {
    match s.reader
    case RLoadHead(bufLen, again) => s.(reader := RLoadTail(bufLen, again, s.head))
    case RLoadTail(bufLen, again, head) =>
      if head == s.tail then s.(reader := if again then RWait(bufLen) else RSetAlertable(bufLen))
      else if head >= CAPACITY then s.(reader := RFailed)
      else s.(reader := RLoadLen(bufLen, head, s.tail, s.tv, []))
    case RLoadLen(bufLen, head, tail, ts, got) =>
      if |got| < 4 then s.(reader := RLoadLen(bufLen, head, tail, ts, got + [s.data[head + |got|]]))
      else
        var len := FromLe(got);
        if len >= MAX_PACKET || head + 4 + Align4(len) > TailUnmod(head, tail) then s.(reader := RFailed)
        else s.(reader := RCopy(bufLen, head, (head + 4 + Align4(len)) % CAPACITY, if len < bufLen then len else bufLen, []))
    case RCopy(bufLen, head, newHead, copyLen, got) =>
      if |got| < copyLen then
        s.(reader := RCopy(bufLen, head, newHead, copyLen, got + [s.data[head + 4 + |got|]]))
      else
        s.(head := newHead, hv := s.hv + Passed(s), delivered := s.delivered + [Delivery(got, bufLen)], reader := RIdle)
    case RSetAlertable(bufLen) => s.(alertable := true, reader := RLoadHead(bufLen, true))
    case RWait(bufLen) => s.(event := false, reader := RClearAlertable(bufLen))
    case RClearAlertable(bufLen) => s.(alertable := false, reader := RLoadHead(bufLen, false))
  }

  /** How far the head moves when the reader is done with a packet. */
  function Passed(s: State): nat {
    if |s.delivered| < |s.written| then Size(s.written[|s.delivered|]) else 0
  }

  // ----- the invariant -----

  /** The packets written and not yet read. */
  function Pending(s: State): seq<Packet> {
    if |s.delivered| <= |s.written| then s.written[|s.delivered|..] else []
  }

  /** What was delivered is what was written, in order, cut to the reader's buffer. */
  ghost predicate InOrder(s: State) {
    && |s.delivered| <= |s.written|
    && forall i :: 0 <= i < |s.delivered| ==>
         s.delivered[i].bytes == Truncated(s.written[i], s.delivered[i].bufLen)
  }

  ghost predicate RingOk(s: State) {
    && s.head == Index(s.hv) && s.tail == Index(s.tv)
    && Holds(s.data, s.hv, Pending(s), s.tv)
    && InOrder(s)
  }

  /** The writer knows the room at least up to a head that it saw earlier, and has stored a
      prefix of the record into it. */
  ghost predicate WriterOk(s: State) {
    match s.writer
    case WLoadHead(buf) => |buf| < MAX_PACKET
    case WLoadTail(buf, head, hs) =>
      |buf| < MAX_PACKET && head == Index(hs) && hs <= s.hv && s.tv < hs + CAPACITY
    case WCopy(buf, tail, newTail, done) =>
      && |buf| < MAX_PACKET && done <= 4 + |buf|
      && tail == s.tail && newTail == Index(s.tv + Size(buf))
      && s.tv + Size(buf) < s.hv + CAPACITY
      && tail + done <= |s.data| && s.data[tail..tail + done] == Record(buf)[..done]
    case WFailed => false
    case _ => true
  }

  /** The reader looks at the oldest packet, which lies before the tail that it saw, and has
      loaded a prefix of its record. */
  ghost predicate ReaderOk(s: State) {
    match s.reader
    case RLoadTail(_, _, head) => head == s.head
    case RLoadLen(_, head, tail, ts, got) =>
      && head == s.head && tail == Index(ts) && Pending(s) != []
      && s.hv + Size(Pending(s)[0]) <= ts <= s.tv
      && |got| <= 4 && got == Record(Pending(s)[0])[..|got|]
    case RCopy(bufLen, head, newHead, copyLen, got) =>
      && head == s.head && Pending(s) != []
      && var p := Pending(s)[0];
      && newHead == Index(s.hv + Size(p))
      && copyLen == (if |p| < bufLen then |p| else bufLen)
      && |got| <= copyLen && got == p[..|got|]
    case RFailed => false
    case _ => true
  }

  /** Between asking to be woken and withdrawing the request the flag is up, and nobody waits
      with packets in the ring unless the event is set or the writer is about to set it. */
  ghost predicate WakeOk(s: State) {
    && (s.reader.RWait? ==> s.alertable)
    && (s.reader.RLoadHead? && s.reader.again ==> s.alertable)
    && (s.reader.RLoadTail? && s.reader.again ==> s.alertable)
    && (s.reader.RWait? && Pending(s) != [] ==> s.event || s.writer.WTestAlertable? || s.writer.WSetEvent?)
  }

  ghost predicate Invariant(s: State) {
    RingOk(s) && WriterOk(s) && ReaderOk(s) && WakeOk(s)
  }

  lemma InvariantInit()
    ensures Invariant(Init())
  {}

  // ----- the writer's steps -----

  lemma WriterLoadsTail(s: State)
    requires Invariant(s) && s.writer.WLoadTail?
    ensures Invariant(WriterNext(s))
  {
    RoomSeen(s.writer.hs, s.tv, s.writer.buf);
  }

  lemma WriterInRoom(s: State)
    requires Invariant(s) && s.writer.WCopy?
    ensures WriterInBounds(s)
    ensures s.writer.tail % 4 == 0 && s.writer.tail + 4 + |s.writer.buf| <= DATA_LEN
  {
    IndexAligned(s.tv);
  }

  lemma WriterStoresByte(s: State)
    requires Invariant(s) && s.writer.WCopy? && s.writer.done < 4 + |s.writer.buf| && Enabled(s, WriterStep)
    ensures Invariant(WriterNext(s))
  {
    var s' := WriterNext(s);
    var WCopy(buf, tail, _, done) := s.writer;
    FreeBytesMayChange(s.data, s'.data, s.hv, s.hv, Pending(s), s.tv, Size(buf));
    assert s'.data[tail..tail + done + 1] == s.data[tail..tail + done] + [Record(buf)[done]];
    assert Record(buf)[..done + 1] == Record(buf)[..done] + [Record(buf)[done]];
  }

  lemma WriterStoresTail(s: State)
    requires Invariant(s) && s.writer.WCopy? && s.writer.done == 4 + |s.writer.buf| && Enabled(s, WriterStep)
    ensures Invariant(WriterNext(s))
  {
    var s' := WriterNext(s);
    var buf := s.writer.buf;
    assert Record(buf)[..4 + |buf|] == Record(buf);
    HoldsSnoc(s.data, s.hv, Pending(s), s.tv, buf);
    assert Pending(s') == Pending(s) + [buf];
  }

  lemma WriterKeepsInvariant(s: State)
    requires Invariant(s) && Enabled(s, WriterStep)
    ensures Invariant(WriterNext(s))
  {
    match s.writer {
      case WLoadTail(_, _, _) => WriterLoadsTail(s);
      case WCopy(buf, _, _, done) =>
        if done < 4 + |buf| { WriterStoresByte(s); } else { WriterStoresTail(s); }
      case _ =>
    }
  }

  // ----- the reader's steps -----

  lemma ReaderLoadsTail(s: State)
    requires Invariant(s) && s.reader.RLoadTail?
    ensures Invariant(ReaderNext(s))
  {
    EmptyIffEqual(s.data, s.hv, Pending(s), s.tv);
    LiveForward(s.data, s.hv, Pending(s), s.tv);
  }

  lemma ReaderInRecord(s: State)
    requires Invariant(s)
    ensures ReaderInBounds(s)
    ensures s.reader.RLoadLen? && |s.reader.got| < 4 ==>
              s.data[s.reader.head + |s.reader.got|] == Record(Pending(s)[0])[|s.reader.got|]
    ensures s.reader.RCopy? && |s.reader.got| < s.reader.copyLen ==>
              s.data[s.reader.head + 4 + |s.reader.got|] == Pending(s)[0][|s.reader.got|]
  {
    if s.reader.RLoadLen? || s.reader.RCopy? {
      OldestRecord(s.data, s.hv, Pending(s), s.tv, s.tv);
      var h, r := s.head, Record(Pending(s)[0]);
      forall k | 0 <= k < |r| ensures s.data[h + k] == r[k] {
        assert s.data[h + k] == s.data[h..h + |r|][k];
      }
    }
  }

  lemma PrefixGrows<X>(s: seq<X>, n: nat)
    requires n < |s|
    ensures s[..n + 1] == s[..n] + [s[n]]
  {}

  lemma ReaderLoadsLengthByte(s: State)
    requires Invariant(s) && Enabled(s, ReaderStep) && s.reader.RLoadLen? && |s.reader.got| < 4
    ensures Invariant(ReaderNext(s))
  {
    ReaderInRecord(s);
    PrefixGrows(Record(Pending(s)[0]), |s.reader.got|);
  }

  lemma ReaderCopiesByte(s: State)
    requires Invariant(s) && Enabled(s, ReaderStep) && s.reader.RCopy? && |s.reader.got| < s.reader.copyLen
    ensures Invariant(ReaderNext(s))
  {
    ReaderInRecord(s);
    PrefixGrows(Pending(s)[0], |s.reader.got|);
  }

  lemma ReaderKnowsLength(s: State)
    requires Invariant(s) && s.reader.RLoadLen? && |s.reader.got| == 4
    ensures Invariant(ReaderNext(s))
  {
    var h, p := s.head, Pending(s)[0];
    RecordLength(p);
    assert FromLe(s.reader.got) == |p|;
    OldestRecord(s.data, s.hv, Pending(s), s.tv, s.reader.ts);
    assert h + 4 + Align4(|p|) == h + Size(p);
  }

  lemma ReaderStoresHead(s: State)
    requires Invariant(s) && s.reader.RCopy? && |s.reader.got| == s.reader.copyLen
    ensures Invariant(ReaderNext(s))
  {
    var s' := ReaderNext(s);
    var p := Pending(s)[0];
    HoldsTail(s.data, s.hv, Pending(s), s.tv);
    assert p == s.written[|s.delivered|];
    assert Pending(s') == Pending(s)[1..];
    assert s.reader.got == Truncated(p, s.reader.bufLen);
  }

  lemma ReaderKeepsInvariant(s: State)
    requires Invariant(s) && Enabled(s, ReaderStep)
    ensures Invariant(ReaderNext(s))
  {
    match s.reader {
      case RLoadTail(_, _, _) => ReaderLoadsTail(s);
      case RLoadLen(_, _, _, _, got) =>
        if |got| < 4 { ReaderLoadsLengthByte(s); } else { ReaderKnowsLength(s); }
      case RCopy(_, _, _, copyLen, got) =>
        if |got| < copyLen { ReaderCopiesByte(s); } else { ReaderStoresHead(s); }
      case _ =>
    }
  }

  // ----- every run -----

  lemma StepKeepsInvariant(s: State, step: Step)
    requires Invariant(s) && Enabled(s, step)
    ensures Invariant(Next(s, step))
  {
    match step {
      case WriterStep => WriterKeepsInvariant(s);
      case ReaderStep => ReaderKeepsInvariant(s);
      case _ =>
    }
  }

  ghost predicate ValidRun(steps: seq<Step>)
    decreases |steps|, 0
  {
    steps == [] ||
    var before := steps[..|steps| - 1];
    ValidRun(before) && Enabled(After(before), steps[|steps| - 1])
  }

  ghost function After(steps: seq<Step>): State
    requires ValidRun(steps)
    decreases |steps|, 1
  {
    if steps == [] then Init() else Next(After(steps[..|steps| - 1]), steps[|steps| - 1])
  }

  lemma {:induction false} InvariantOnRuns(steps: seq<Step>)
    requires ValidRun(steps)
    ensures Invariant(After(steps))
    decreases |steps|
  {
    if steps == [] {
      InvariantInit();
    } else {
      InvariantOnRuns(steps[..|steps| - 1]);
      StepKeepsInvariant(After(steps[..|steps| - 1]), steps[|steps| - 1]);
    }
  }

  /** Packets come out in the order in which they went in, unmodified and without loss: those
      delivered so far are the first ones written, and the rest lie intact in the ring. */
  lemma RingIsFifo(steps: seq<Step>)
    requires ValidRun(steps)
    ensures var s := After(steps);
      && |s.delivered| <= |s.written|
      && (forall i :: 0 <= i < |s.delivered| ==>
            s.delivered[i].bytes == Truncated(s.written[i], s.delivered[i].bufLen))
      && Live(s.data, s.hv, s.written[|s.delivered|..], s.tv)
  {
    InvariantOnRuns(steps);
  }

  /** The indices stay aligned and below the capacity, no byte access is out of bounds, and
      neither end ever finds invalid data. */
  lemma IndicesStaySound(steps: seq<Step>)
    requires ValidRun(steps)
    ensures var s := After(steps);
      && s.head % 4 == 0 && s.head < CAPACITY
      && s.tail % 4 == 0 && s.tail < CAPACITY
      && WriterInBounds(s) && ReaderInBounds(s)
      && !s.writer.WFailed? && !s.reader.RFailed?
  {
    InvariantOnRuns(steps);
    var s := After(steps);
    IndexAligned(s.hv);
    IndexAligned(s.tv);
    if s.writer.WCopy? { WriterInRoom(s); }
    ReaderInRecord(s);
  }

  /** The position of packet `k`. */
  function PositionOf(v: nat, ps: seq<Packet>, k: nat): nat
    requires k < |ps|
    decreases k
  {
    if k == 0 then v else PositionOf(v + Size(ps[0]), ps[1..], k - 1)
  }

  lemma {:induction false} PositionInRing(data: seq<Byte>, v: nat, ps: seq<Packet>, end: nat, k: nat)
    requires Live(data, v, ps, end) && k < |ps|
    ensures v <= PositionOf(v, ps, k) && PositionOf(v, ps, k) + Size(ps[k]) <= end
    decreases k
  {
    LiveForward(data, v, ps, end);
    if k > 0 {
      PositionInRing(data, v + Size(ps[0]), ps[1..], end, k - 1);
    }
  }

  /** The writer never stores into a record that has not been read. */
  lemma WriterAvoidsLivePackets(steps: seq<Step>, k: nat)
    requires ValidRun(steps)
    requires After(steps).writer.WCopy? && After(steps).writer.done < 4 + |After(steps).writer.buf|
    requires k < |Pending(After(steps))|
    ensures var s := After(steps);
      var pos, p := Index(PositionOf(s.hv, Pending(s), k)), Pending(s)[k];
      !(pos <= s.writer.tail + s.writer.done < pos + Size(p))
  {
    InvariantOnRuns(steps);
    var s := After(steps);
    var u := PositionOf(s.hv, Pending(s), k);
    PositionInRing(s.data, s.hv, Pending(s), s.tv, k);
    FreeBytesAreFree(s.hv, u, Size(Pending(s)[k]), s.tv, s.writer.done);
  }

  /** No wake-up is lost: a reader that waits while there are packets has been woken, or the
      writer's next one or two steps wake it. */
  lemma NoLostWakeUp(steps: seq<Step>)
    requires ValidRun(steps)
    requires After(steps).reader.RWait? && Pending(After(steps)) != [] && !After(steps).event
    ensures var s := After(steps);
      Enabled(s, WriterStep) &&
      var s1 := Next(s, WriterStep);
      s1.event || (Enabled(s1, WriterStep) && Next(s1, WriterStep).event)
  {
    InvariantOnRuns(steps);
  }

  /** The two ends never get stuck with packets in the ring: unless the reader is between calls,
      one of them can go on. */
  lemma NeverStuck(steps: seq<Step>)
    requires ValidRun(steps) && Pending(After(steps)) != [] && !After(steps).reader.RIdle?
    ensures Enabled(After(steps), ReaderStep) || Enabled(After(steps), WriterStep)
  {
    IndicesStaySound(steps);
    if After(steps).reader.RWait? && !After(steps).event {
      NoLostWakeUp(steps);
    }
  }

  // ----- calls complete -----

  /** What the reader does on its own in `n` steps, as far as it gets. */
  ghost function Reads(s: State, n: nat): State
    decreases n
  {
    if n > 0 && Enabled(s, ReaderStep) then Reads(Next(s, ReaderStep), n - 1) else s
  }

  /** What the writer does on its own in `n` steps. */
  ghost function Writes(s: State, n: nat): State
    decreases n
  {
    if n > 0 && Enabled(s, WriterStep) then Writes(Next(s, WriterStep), n - 1) else s
  }

  /** The reader is done, with these histories and the head here. */
  ghost predicate HasRead(s: State, delivered: seq<Delivery>, written: seq<Packet>, head: nat) {
    s.reader.RIdle? && s.delivered == delivered && s.written == written && s.head == head
  }

  /** What has been delivered when the oldest packet has been, too. */
  ghost function OneMore(s: State, bufLen: nat): seq<Delivery>
    requires Pending(s) != []
  {
    s.delivered + [Delivery(Truncated(Pending(s)[0], bufLen), bufLen)]
  }

  lemma CopyStep(s: State)
    requires Invariant(s) && s.reader.RCopy?
    ensures Enabled(s, ReaderStep) && Invariant(ReaderNext(s))
    ensures var s' := ReaderNext(s); var r := s.reader;
      if |r.got| < r.copyLen then
        && s' == s.(reader := s'.reader) && s'.reader.RCopy? && |s'.reader.got| == |r.got| + 1
        && s'.reader.copyLen == r.copyLen && s'.reader.bufLen == r.bufLen && s'.reader.newHead == r.newHead
      else HasRead(s', OneMore(s, r.bufLen), s.written, r.newHead)
  {
    ReaderInRecord(s);
    ReaderKeepsInvariant(s);
  }

  lemma {:induction false} CopyCompletes(s: State, n: nat)
    requires Invariant(s) && s.reader.RCopy? && n == s.reader.copyLen - |s.reader.got| + 1
    ensures HasRead(Reads(s, n), OneMore(s, s.reader.bufLen), s.written, s.reader.newHead)
    decreases n
  {
    CopyStep(s);
    var s' := ReaderNext(s);
    assert Reads(s, n) == Reads(s', n - 1);
    if n > 1 {
      CopyCompletes(s', n - 1);
    }
  }

  lemma LengthByteStep(s: State)
    requires Invariant(s) && s.reader.RLoadLen? && |s.reader.got| < 4
    ensures Enabled(s, ReaderStep) && Invariant(ReaderNext(s))
    ensures var s' := ReaderNext(s);
      && s' == s.(reader := s'.reader) && s'.reader.RLoadLen?
      && |s'.reader.got| == |s.reader.got| + 1 && s'.reader.bufLen == s.reader.bufLen
  {
    ReaderInRecord(s);
    ReaderLoadsLengthByte(s);
  }

  lemma LengthKnownStep(s: State)
    requires Invariant(s) && s.reader.RLoadLen? && |s.reader.got| == 4
    ensures Enabled(s, ReaderStep) && Invariant(ReaderNext(s))
    ensures var s' := ReaderNext(s); var p, bufLen := Pending(s)[0], s.reader.bufLen;
      && s' == s.(reader := s'.reader) && s'.reader.RCopy? && s'.reader.got == [] && s'.reader.bufLen == bufLen
      && s'.reader.copyLen == |Truncated(p, bufLen)| && s'.reader.newHead == Index(s.hv + Size(p))
  {
    ReaderKnowsLength(s);
  }

  lemma LengthKnownCompletes(s: State, n: nat)
    requires Invariant(s) && s.reader.RLoadLen? && |s.reader.got| == 4
    requires n == 2 + |Truncated(Pending(s)[0], s.reader.bufLen)|
    ensures HasRead(Reads(s, n), OneMore(s, s.reader.bufLen), s.written, Index(s.hv + Size(Pending(s)[0])))
  {
    LengthKnownStep(s);
    var s' := ReaderNext(s);
    CopyCompletes(s', n - 1);
    assert Reads(s, n) == Reads(s', n - 1);
  }

  lemma {:induction false} LengthCompletes(s: State, n: nat)
    requires Invariant(s) && s.reader.RLoadLen?
    requires n == 6 - |s.reader.got| + |Truncated(Pending(s)[0], s.reader.bufLen)|
    ensures HasRead(Reads(s, n), OneMore(s, s.reader.bufLen), s.written, Index(s.hv + Size(Pending(s)[0])))
    decreases n
  {
    if |s.reader.got| == 4 {
      LengthKnownCompletes(s, n);
    } else {
      LengthByteStep(s);
      var s' := ReaderNext(s);
      LengthCompletes(s', n - 1);
      assert Reads(s, n) == Reads(s', n - 1);
    }
  }

  /** The reader's look at the two indices. */
  lemma ReadBegins(s: State, bufLen: nat, n: nat)
    requires Invariant(s) && s.reader.RIdle?
    ensures var s2 := Reads(Next(s, BeginRead(bufLen)), 2);
      && Reads(Next(s, BeginRead(bufLen)), n + 2) == Reads(s2, n)
      && s2 == s.(reader := s2.reader) && Invariant(s2)
      && s2.reader == if Pending(s) == [] then RSetAlertable(bufLen) else RLoadLen(bufLen, s.head, s.tail, s.tv, [])
  {
    var s0 := Next(s, BeginRead(bufLen));
    var s1 := ReaderNext(s0);
    EmptyIffEqual(s.data, s.hv, Pending(s), s.tv);
    ReaderKeepsInvariant(s1);
    var s2 := ReaderNext(s1);
    assert Reads(s0, n + 2) == Reads(s1, n + 1) == Reads(s2, n);
    assert Reads(s0, 2) == Reads(s1, 1) == Reads(s2, 0);
  }

  lemma HeadAfter(s: State, p: Packet)
    requires Invariant(s)
    ensures Index(s.hv + Size(p)) == (s.head + 4 + (|p| + 3) / 4 * 4) % 0x2_0000
  {
    AdvanceIndex(s.hv, Size(p));
    NextIndex(Index(s.hv), |p|);
  }

  lemma ReadFrom(s: State, bufLen: nat, n: nat)
    requires Invariant(s) && s.reader.RIdle? && Pending(s) != [] && n == |Truncated(Pending(s)[0], bufLen)|
    ensures HasRead(Reads(Next(s, BeginRead(bufLen)), 8 + n), OneMore(s, bufLen), s.written,
                    Index(s.hv + Size(Pending(s)[0])))
  {
    ReadBegins(s, bufLen, 6 + n);
    LengthCompletes(Reads(Next(s, BeginRead(bufLen)), 2), 6 + n);
  }

  /** A call of the reader needs no help to deliver the oldest packet when there is one, and goes to
      ask to be woken when there is none. */
  lemma ReadCompletes(steps: seq<Step>, s: State, bufLen: nat)
    requires ValidRun(steps) && s == After(steps) && s.reader.RIdle?
    ensures Pending(s) == [] ==> Reads(Next(s, BeginRead(bufLen)), 2).reader == RSetAlertable(bufLen)
    ensures Pending(s) != [] ==>
      var p := Pending(s)[0]; var bytes := if |p| < bufLen then p else p[..bufLen];
      HasRead(Reads(Next(s, BeginRead(bufLen)), 8 + |bytes|), s.delivered + [Delivery(bytes, bufLen)], s.written,
              (s.head + 4 + (|p| + 3) / 4 * 4) % 0x2_0000)
  {
    InvariantOnRuns(steps);
    if Pending(s) == [] {
      ReadBegins(s, bufLen, 0);
    } else {
      ReadFrom(s, bufLen, |Truncated(Pending(s)[0], bufLen)|);
      HeadAfter(s, Pending(s)[0]);
    }
  }

  /** The writer has published the packet `p`. */
  ghost predicate HasWritten(s: State, s': State, p: Packet, newTail: nat) {
    && s'.written == s.written + [p]
    && s'.tail == newTail && Stored(s'.data, s.tail, p)
    && s'.writer.WTestAlertable? && s'.delivered == s.delivered
  }

  lemma StoreStep(s: State)
    requires Invariant(s) && s.writer.WCopy?
    ensures Enabled(s, WriterStep) && Invariant(WriterNext(s))
    ensures var s' := WriterNext(s); var w := s.writer;
      if w.done < 4 + |w.buf| then
        && s' == s.(data := s'.data, writer := s'.writer)
        && s'.writer == WCopy(w.buf, w.tail, w.newTail, w.done + 1)
      else HasWritten(s, s', w.buf, w.newTail)
  {
    WriterInRoom(s);
    WriterKeepsInvariant(s);
    if s.writer.done == 4 + |s.writer.buf| {
      RecordIsComplete(s);
    }
  }

  lemma RecordIsComplete(s: State)
    requires Invariant(s) && s.writer.WCopy? && s.writer.done == 4 + |s.writer.buf|
    ensures Stored(s.data, s.tail, s.writer.buf)
  {
    var p := s.writer.buf;
    assert Record(p)[..4 + |p|] == Record(p);
    RecordIsStored(s.data, s.tail, p);
  }

  lemma {:induction false} StoresComplete(s: State, n: nat)
    requires Invariant(s) && s.writer.WCopy? && n == 5 + |s.writer.buf| - s.writer.done
    ensures HasWritten(s, Writes(s, n), s.writer.buf, s.writer.newTail)
    decreases n
  {
    StoreStep(s);
    var s' := WriterNext(s);
    assert Writes(s, n) == Writes(s', n - 1);
    if n > 1 {
      StoresComplete(s', n - 1);
    }
  }

  /** The writer's look at the two indices. */
  lemma WriteBegins(s: State, buf: Packet, n: nat)
    requires Invariant(s) && s.writer.WIdle? && |buf| < MAX_PACKET
    ensures var s2 := Writes(Next(s, BeginWrite(buf)), 2);
      && Writes(Next(s, BeginWrite(buf)), n + 2) == Writes(s2, n)
      && s2 == s.(writer := s2.writer) && Invariant(s2)
      && s2.writer == if s.tail + Size(buf) < HeadUnmod(s.head, s.tail)
                      then WCopy(buf, s.tail, (s.tail + Size(buf)) % CAPACITY, 0) else WIdle
  {
    var s0 := Next(s, BeginWrite(buf));
    var s1 := WriterNext(s0);
    WriterKeepsInvariant(s1);
    TwoWrites(s0, s1, n);
    TwoWrites(s0, s1, 0);
  }

  lemma TwoWrites(s0: State, s1: State, n: nat)
    requires Enabled(s0, WriterStep) && s1 == WriterNext(s0) && Enabled(s1, WriterStep)
    ensures Writes(s0, n + 2) == Writes(WriterNext(s1), n)
  {
    assert Writes(s0, n + 2) == Writes(s1, n + 1);
  }

  /** The writer's test, and the new tail. */
  lemma WriterDecides(s: State, buf: Packet)
    requires Invariant(s)
    ensures s.tail + Size(buf) < HeadUnmod(s.head, s.tail) <==>
      (s.tail - s.head) % 0x2_0000 + 4 + (|buf| + 3) / 4 * 4 < 0x2_0000
    ensures (s.tail + Size(buf)) % CAPACITY == (s.tail + 4 + (|buf| + 3) / 4 * 4) % 0x2_0000
  {
    WriterSees(s.hv, s.tv, buf);
    NextIndex(s.tail, |buf|);
  }

  lemma WriteFrom(s: State, buf: Packet)
    requires Invariant(s) && s.writer.WIdle? && |buf| < MAX_PACKET
    ensures s.tail + Size(buf) < HeadUnmod(s.head, s.tail) ==>
      HasWritten(s, Writes(Next(s, BeginWrite(buf)), 7 + |buf|), buf, (s.tail + Size(buf)) % CAPACITY)
    ensures s.tail + Size(buf) >= HeadUnmod(s.head, s.tail) ==> Writes(Next(s, BeginWrite(buf)), 2) == s
  {
    WriteBegins(s, buf, 5 + |buf|);
    if s.tail + Size(buf) < HeadUnmod(s.head, s.tail) {
      StoresComplete(Writes(Next(s, BeginWrite(buf)), 2), 5 + |buf|);
    }
  }

  /** A call of the writer needs no help to publish the packet exactly when the record fits with a
      byte to spare; otherwise nothing changes. A packet of 64 KiB or more is refused. */
  lemma WriteCompletes(steps: seq<Step>, s: State, buf: Packet)
    requires ValidRun(steps) && s == After(steps) && s.writer.WIdle?
    ensures |buf| >= 0x1_0000 ==> Next(s, BeginWrite(buf)) == s
    ensures |buf| < 0x1_0000 ==>
      var fits := (s.tail - s.head) % 0x2_0000 + 4 + (|buf| + 3) / 4 * 4 < 0x2_0000;
      && (fits ==> HasWritten(s, Writes(Next(s, BeginWrite(buf)), 7 + |buf|), buf,
                              (s.tail + 4 + (|buf| + 3) / 4 * 4) % 0x2_0000))
      && (!fits ==> Writes(Next(s, BeginWrite(buf)), 2) == s)
  {
    InvariantOnRuns(steps);
    if |buf| < 0x1_0000 {
      WriterDecides(s, buf);
      WriteFrom(s, buf);
    }
  }

  /** Behind a packet the writer sets the event exactly if the reader has asked to be woken. */
  lemma WakesIffAsked(s: State)
    requires s.writer.WTestAlertable?
    ensures Writes(s, 2) == s.(event := s.event || s.alertable, writer := WIdle)
  {
    var s1 := Next(s, WriterStep);
    assert Writes(s, 2) == Writes(s1, 1);
    if s.alertable {
      assert Writes(s1, 1) == Writes(Next(s1, WriterStep), 0);
    }
  }
}
