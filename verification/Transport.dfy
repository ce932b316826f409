/** One transport session as a caller of a single thread sees it: numbering and framing of
    sent packets, and the checks on received ones. The cipher is a pair of functions given to
    the session; what concurrent senders do to the counter is in module `SendCounter`. */
module Transport {
  import opened LittleEndian
  import opened Wrappers
  import AR = AntiReplay

  const U64: nat := 0x1_0000_0000_0000_0000
  const REKEY_AFTER_MESSAGES: nat := 0xffff_ffff_fffe_ffff
  const REJECT_AFTER_MESSAGES: nat := 0xffff_ffff_ffff_ffef
  const HEADER: seq<Byte> := [4, 0, 0, 0]

  // ----- the session -----

  /** Authenticated encryption under a fixed key, the counter being the nonce. */
  datatype Cipher = Cipher(seal: (nat, seq<Byte>) -> seq<Byte>, open: (nat, seq<Byte>) -> Option<seq<Byte>>)

  /** What a packet must carry besides an authentic payload. */
  predicate WellFramed(msg: seq<Byte>) {
    |msg| >= 32 && msg[0..4] == HEADER && Counter(msg) < REJECT_AFTER_MESSAGES
  }

  function Counter(msg: seq<Byte>): nat
    requires |msg| >= 16
  {
    FromLe(msg[8..16])
  }

  /** The eight bytes of a counter, least significant first. */
  function CounterBytes(n: nat): seq<Byte> {
    [n % 256, n / 0x100 % 256, n / 0x1_0000 % 256, n / 0x100_0000 % 256, n / 0x1_0000_0000 % 256,
     n / 0x100_0000_0000 % 256, n / 0x1_0000_0000_0000 % 256, n / 0x100_0000_0000_0000 % 256]
  }

  /** The packets that can be accepted: 32 bytes or more, the first of them 4, 0, 0 and 0, and a
      counter below the limit. */
  lemma WellFramedIff(msg: seq<Byte>)
    ensures WellFramed(msg) <==>
      && |msg| >= 32 && msg[0] == 4 && msg[1] == msg[2] == msg[3] == 0
      && exists n: nat :: n < 0xffff_ffff_ffff_ffef && msg[8..16] == CounterBytes(n)
    ensures WellFramed(msg) ==> msg[8..16] == CounterBytes(Counter(msg))
  {
    if |msg| >= 32 {
      FramedCounter(msg);
      forall n: nat | n < 0xffff_ffff_ffff_ffef && msg[8..16] == CounterBytes(n) ensures Counter(msg) == n {
        EightBytes(n);
        PowersOf256();
        FromToLe(n, 8);
      }
      assert msg[0..4] == [msg[0], msg[1], msg[2], msg[3]];
    }
  }

  lemma FramedCounter(msg: seq<Byte>)
    requires |msg| >= 16
    ensures Counter(msg) < U64 && msg[8..16] == CounterBytes(Counter(msg))
  {
    var b := msg[8..16];
    PowersOf256();
    FromLeBound(b);
    ToFromLe(b);
    EightBytes(Counter(msg));
  }

  class Transport {
    const peerId: seq<Byte>
    const isInitiator: bool
    const sendCipher: Cipher
    const recvCipher: Cipher
    var shouldHandshake: bool
    var hasReceived: bool
    var notTooOld: bool
    var sendCounter: nat
    var recvAr: AR.AntiReplay

    ghost predicate Valid()
      reads this, recvAr, recvAr.bitmap
    {
      recvAr.Valid() && sendCounter < U64 && |peerId| == 4
    }

    constructor (peerId: seq<Byte>, isInitiator: bool, sendCipher: Cipher, recvCipher: Cipher)
      requires |peerId| == 4
      ensures Valid() && fresh(recvAr) && fresh(recvAr.bitmap)
      ensures recvAr.window == AR.EMPTY && sendCounter == 0
      ensures notTooOld && !hasReceived && !shouldHandshake
      ensures GetShouldSend() <==> isInitiator
      ensures this.peerId == peerId && this.isInitiator == isInitiator
      ensures this.sendCipher == sendCipher && this.recvCipher == recvCipher
    {
      this.peerId, this.isInitiator := peerId, isInitiator;
      this.sendCipher, this.recvCipher := sendCipher, recvCipher;
      shouldHandshake, hasReceived, notTooOld, sendCounter := false, false, true, 0;
      recvAr := new AR.AntiReplay();
    }

    predicate GetShouldSend()
      reads this
    {
      (isInitiator || hasReceived) && notTooOld
    }

    /** The session gets too old. */
    method Expire()
      requires Valid()
      modifies this`notTooOld
      ensures Valid() && !notTooOld && !GetShouldSend()
    {
      notTooOld := false;
    }

    /** Returns the packet, if any, and whether this session thinks we should rekey. */
    method Encrypt(msg: seq<Byte>) returns (out: Option<seq<Byte>>, shouldRekey: bool)
      requires Valid()
      modifies this`sendCounter, this`notTooOld
      ensures Valid()
      ensures sendCounter == (old(sendCounter) + 1) % 0x1_0000_0000_0000_0000
      ensures out.Some? <==> old(sendCounter) < 0xffff_ffff_ffff_ffef
      ensures notTooOld <==> old(notTooOld) && out.Some?
      ensures GetShouldSend() <==> old(GetShouldSend()) && out.Some?
      ensures shouldRekey <==> isInitiator && (shouldHandshake || old(sendCounter) >= 0xffff_ffff_fffe_ffff)
      ensures out.Some? ==>
        var p := out.value;
        && |p| >= 16 && p[0..4] == [4, 0, 0, 0] && p[4..8] == peerId && p[8..16] == CounterBytes(old(sendCounter))
        && Counter(p) == old(sendCounter)
        && p[16..] == sendCipher.seal(old(sendCounter), msg)
    {
      var c := sendCounter;
      sendCounter := (sendCounter + 1) % U64;
      shouldRekey := isInitiator && (shouldHandshake || c >= REKEY_AFTER_MESSAGES);
      if c >= REJECT_AFTER_MESSAGES {
        notTooOld := false;
        return None, shouldRekey;
      }
      PowersOf256();
      FromToLe(c, 8);
      var head := HEADER + peerId + ToLe(c, 8);
      assert head[8..16] == ToLe(c, 8);
      var p := head + sendCipher.seal(c, msg);
      assert p[8..16] == head[8..16];
      EightBytes(c);
      out := Some(p);
    }

    /** Returns the payload, if the packet is accepted, and whether we should rekey. */
    method Decrypt(msg: seq<Byte>) returns (out: Option<seq<Byte>>, shouldRekey: bool)
      requires Valid()
      modifies this`hasReceived, recvAr, recvAr.bitmap
      ensures Valid() && recvAr.bitmap == old(recvAr.bitmap)
      ensures out.Some? <==>
        && old(notTooOld)
        && WellFramed(msg)
        && recvCipher.open(Counter(msg), msg[16..]).Some?
        && old(recvAr.window).Fresh(Counter(msg))
      ensures out.Some? ==> out == recvCipher.open(Counter(msg), msg[16..])
      ensures recvAr.window == if out.Some? then old(recvAr.window).Accept(Counter(msg)) else old(recvAr.window)
      ensures hasReceived <==> old(hasReceived) || (out.Some? && !isInitiator)
      ensures GetShouldSend() <==> old(GetShouldSend()) || out.Some?
      ensures shouldRekey <==> out.Some? && !isInitiator && shouldHandshake
    {
      if |msg| < 32 || !notTooOld || msg[0..4] != HEADER {
        return None, false;
      }
      var counter := FromLe(msg[8..16]);
      if counter >= REJECT_AFTER_MESSAGES {
        return None, false;
      }
      var payload := recvCipher.open(counter, msg[16..]);
      if payload.None? {
        return None, false;
      }
      var ok := recvAr.CheckAndUpdate(counter);
      if !ok {
        return None, false;
      }
      if !isInitiator {
        hasReceived := true;
        return payload, shouldHandshake;
      } else {
        return payload, false;
      }
    }
  }

  /** A packet encrypted at one end of a session is delivered at the other, once: the second
      copy is rejected. */
  method SendReceiveReplay(a: Transport, b: Transport, msg: seq<Byte>)
      returns (first: Option<seq<Byte>>, second: Option<seq<Byte>>)
    requires a.Valid() && b.Valid() && a != b && a.recvAr != b.recvAr && a.recvAr.bitmap != b.recvAr.bitmap
    requires a.sendCounter < REJECT_AFTER_MESSAGES && b.notTooOld
    requires b.recvAr.window.Fresh(a.sendCounter)
    requires b.recvCipher.open(a.sendCounter, a.sendCipher.seal(a.sendCounter, msg)) == Some(msg)
    requires |a.sendCipher.seal(a.sendCounter, msg)| == |msg| + 16
    modifies a, b, b.recvAr, b.recvAr.bitmap
    ensures first == Some(msg) && second == None
  {
    var packet, _ := a.Encrypt(msg);
    var r;
    first, r := b.Decrypt(packet.value);
    second, r := b.Decrypt(packet.value);
  }

  // ----- runs of a session -----

  datatype Event = Receive(packet: seq<Byte>) | Send(payload: seq<Byte>) | Expire

  /** An authentic packet of the session. */
  predicate Authentic(c: Cipher, e: Event) {
    e.Receive? && WellFramed(e.packet) && c.open(Counter(e.packet), e.packet[16..]).Some?
  }

  /** Event `i` is a packet that was delivered, the payload being `outs[i]`. */
  predicate Delivered(events: seq<Event>, outs: seq<Option<seq<Byte>>>, i: nat)
    requires |outs| <= |events|
  {
    i < |outs| && events[i].Receive? && |events[i].packet| >= 16 && outs[i].Some?
  }

  function Number(events: seq<Event>, i: nat): nat
    requires i < |events|
  {
    if events[i].Receive? && |events[i].packet| >= 16 then Counter(events[i].packet) else 0
  }

  /** Event `i` switches the session off: its time is over, or a packet is past the limit. */
  predicate SwitchesOff(events: seq<Event>, outs: seq<Option<seq<Byte>>>, i: nat)
    requires |outs| <= |events|
  {
    i < |outs| && (events[i].Expire? || (events[i].Send? && outs[i].None?))
  }

  /** What decides about event `i` of a run: the session is on, the packet is authentic, nothing
      authentic is more than the window ahead of it, and its number was not delivered before. The
      run starts with the replay window `start`. */
  ghost predicate IsDue(c: Cipher, start: AR.Window, on: bool, events: seq<Event>, outs: seq<Option<seq<Byte>>>, i: nat)
    requires i < |events| && |outs| <= |events|
  {
    && on && (forall j :: 0 <= j < i ==> !SwitchesOff(events, outs, j))
    && Authentic(c, events[i])
    && start.last <= Number(events, i) + AR.WINDOW_SIZE
    && (forall j :: 0 <= j < i && Authentic(c, events[j]) ==> Number(events, j) <= Number(events, i) + AR.WINDOW_SIZE)
    && Number(events, i) !in start.accepted
    && (forall j :: 0 <= j < i && Delivered(events, outs, j) ==> Number(events, j) != Number(events, i))
  }

  /** The window after a run: the numbers of the start and the delivered ones. */
  ghost predicate Recorded(w: AR.Window, start: AR.Window, events: seq<Event>, outs: seq<Option<seq<Byte>>>)
    requires |outs| <= |events|
  {
    && (forall n :: n in w.accepted <==>
          n in start.accepted || exists j :: 0 <= j < |outs| && Delivered(events, outs, j) && Number(events, j) == n)
    && (w.last == start.last || exists j :: 0 <= j < |outs| && Delivered(events, outs, j) && Number(events, j) == w.last)
    && start.last <= w.last
  }

  ghost predicate StillOn(on: bool, events: seq<Event>, outs: seq<Option<seq<Byte>>>)
    requires |outs| <= |events|
  {
    on && forall j :: 0 <= j < |outs| ==> !SwitchesOff(events, outs, j)
  }

  lemma StillOnStep(on: bool, events: seq<Event>, outs: seq<Option<seq<Byte>>>, out: Option<seq<Byte>>)
    requires |outs| < |events|
    ensures StillOn(on, events, outs + [out]) <==> StillOn(on, events, outs) && !SwitchesOff(events, outs + [out], |outs|)
  {
    var longer := outs + [out];
    assert forall j :: 0 <= j < |outs| ==> longer[j] == outs[j];
    assert forall j :: 0 <= j < |outs| ==> (SwitchesOff(events, longer, j) <==> SwitchesOff(events, outs, j));
  }

  ghost predicate NoneNewer(w: AR.Window, c: Cipher, events: seq<Event>, n: nat)
    requires n <= |events|
  {
    forall j :: 0 <= j < n && Authentic(c, events[j]) ==> Number(events, j) <= w.last
  }

  lemma FreshIsDue(c: Cipher, w: AR.Window, start: AR.Window, on: bool, events: seq<Event>, outs: seq<Option<seq<Byte>>>)
    requires |outs| < |events| && Recorded(w, start, events, outs) && w.Valid()
    requires StillOn(on, events, outs)
    requires NoneNewer(w, c, events, |outs|)
    requires forall j :: 0 <= j < |outs| && Delivered(events, outs, j) ==> Authentic(c, events[j])
    requires Authentic(c, events[|outs|])
    ensures w.Fresh(Number(events, |outs|)) <==> IsDue(c, start, on, events, outs, |outs|)
  {
    assert Number(events, |outs|) in w.accepted ==> !IsDue(c, start, on, events, outs, |outs|);
  }

  lemma LongerRun(c: Cipher, start: AR.Window, on: bool, events: seq<Event>, outs: seq<Option<seq<Byte>>>,
                  out: Option<seq<Byte>>, i: nat)
    requires |outs| < |events| && i <= |outs|
    ensures IsDue(c, start, on, events, outs + [out], i) <==> IsDue(c, start, on, events, outs, i)
    ensures i < |outs| ==> (Delivered(events, outs + [out], i) <==> Delivered(events, outs, i))
    ensures i < |outs| ==> (SwitchesOff(events, outs + [out], i) <==> SwitchesOff(events, outs, i))
  {
    var longer := outs + [out];
    assert forall j :: 0 <= j < i ==> longer[j] == outs[j];
    assert forall j :: 0 <= j < i ==> (Delivered(events, longer, j) <==> Delivered(events, outs, j));
    assert forall j :: 0 <= j < i ==> (SwitchesOff(events, longer, j) <==> SwitchesOff(events, outs, j));
  }

  /** All that was due was delivered, and nothing else. */
  ghost predicate DeliveriesOk(c: Cipher, start: AR.Window, on: bool, events: seq<Event>, outs: seq<Option<seq<Byte>>>)
    requires |outs| <= |events|
  {
    && (forall i :: 0 <= i < |outs| ==> (Delivered(events, outs, i) <==> IsDue(c, start, on, events, outs, i)))
    && (forall i :: 0 <= i < |outs| && Delivered(events, outs, i) ==>
          outs[i] == c.open(Number(events, i), events[i].packet[16..]))
  }

  /** What the session knows after a run. */
  ghost predicate WindowOk(c: Cipher, start: AR.Window, on: bool, events: seq<Event>, outs: seq<Option<seq<Byte>>>,
                           w: AR.Window, isOn: bool)
    requires |outs| <= |events|
  {
    && Recorded(w, start, events, outs)
    && (isOn ==> NoneNewer(w, c, events, |outs|))
    && (isOn <==> StillOn(on, events, outs))
  }

  /** The window and the switch after event `i` gave `out`. */
  ghost predicate StepOk(c: Cipher, e: Event, out: Option<seq<Byte>>, w: AR.Window, isOn: bool, w': AR.Window, isOn': bool) {
    match e
    case Receive(p) =>
      && isOn' == isOn
      && (out.Some? <==> isOn && Authentic(c, e) && w.Fresh(Counter(p)))
      && (out.Some? ==> out == c.open(Counter(p), p[16..]))
      && w' == (if out.Some? then w.Accept(Counter(p)) else w)
    case Send(_) => w' == w && (isOn' <==> isOn && out.Some?)
    case Expire => w' == w && !isOn'
  }

  lemma RecordedStep(w: AR.Window, start: AR.Window, events: seq<Event>, outs: seq<Option<seq<Byte>>>, out: Option<seq<Byte>>)
    requires |outs| < |events| && Recorded(w, start, events, outs) && w.Valid()
    requires Delivered(events, outs + [out], |outs|) ==> w.Fresh(Number(events, |outs|))
    ensures Recorded(if Delivered(events, outs + [out], |outs|) then w.Accept(Number(events, |outs|)) else w,
                     start, events, outs + [out])
  {
    var longer := outs + [out];
    assert forall j :: 0 <= j < |outs| ==> longer[j] == outs[j];
    assert forall j :: 0 <= j < |outs| ==> (Delivered(events, longer, j) <==> Delivered(events, outs, j));
  }

  lemma NextDelivery(c: Cipher, start: AR.Window, on: bool, events: seq<Event>, outs: seq<Option<seq<Byte>>>,
    w: AR.Window, isOn: bool, out: Option<seq<Byte>>, w': AR.Window, isOn': bool)
    requires |outs| < |events| && w.Valid()
    requires DeliveriesOk(c, start, on, events, outs) && WindowOk(c, start, on, events, outs, w, isOn)
    requires StepOk(c, events[|outs|], out, w, isOn, w', isOn')
    ensures Delivered(events, outs + [out], |outs|) <==> IsDue(c, start, on, events, outs + [out], |outs|)
  {
    LongerRun(c, start, on, events, outs, out, |outs|);
    forall j | 0 <= j < |outs| && Delivered(events, outs, j) ensures Authentic(c, events[j]) {
      assert IsDue(c, start, on, events, outs, j);
    }
    if isOn && Authentic(c, events[|outs|]) {
      FreshIsDue(c, w, start, on, events, outs);
    }
  }

  lemma DeliveriesStep(c: Cipher, start: AR.Window, on: bool, events: seq<Event>, outs: seq<Option<seq<Byte>>>,
    w: AR.Window, isOn: bool, out: Option<seq<Byte>>, w': AR.Window, isOn': bool)
    requires |outs| < |events| && w.Valid()
    requires DeliveriesOk(c, start, on, events, outs) && WindowOk(c, start, on, events, outs, w, isOn)
    requires StepOk(c, events[|outs|], out, w, isOn, w', isOn')
    ensures DeliveriesOk(c, start, on, events, outs + [out])
  {
    forall i | 0 <= i < |outs|
      ensures Delivered(events, outs + [out], i) <==> IsDue(c, start, on, events, outs + [out], i)
      ensures Delivered(events, outs + [out], i) <==> Delivered(events, outs, i)
    {
      LongerRun(c, start, on, events, outs, out, i);
    }
    NextDelivery(c, start, on, events, outs, w, isOn, out, w', isOn');
  }

  lemma WindowStep(c: Cipher, start: AR.Window, on: bool, events: seq<Event>, outs: seq<Option<seq<Byte>>>,
    w: AR.Window, isOn: bool, out: Option<seq<Byte>>, w': AR.Window, isOn': bool)
    requires |outs| < |events| && w.Valid()
    requires WindowOk(c, start, on, events, outs, w, isOn)
    requires StepOk(c, events[|outs|], out, w, isOn, w', isOn')
    ensures WindowOk(c, start, on, events, outs + [out], w', isOn')
  {
    RecordedStep(w, start, events, outs, out);
    StillOnStep(on, events, outs, out);
  }

  method HandleEvent(t: Transport, e: Event) returns (out: Option<seq<Byte>>)
    requires t.Valid()
    modifies t, t.recvAr, t.recvAr.bitmap
    ensures t.Valid() && t.recvAr == old(t.recvAr) && t.recvAr.bitmap == old(t.recvAr.bitmap)
    ensures StepOk(t.recvCipher, e, out, old(t.recvAr.window), old(t.notTooOld), t.recvAr.window, t.notTooOld)
  {
    var rekey;
    match e
    case Receive(packet) => out, rekey := t.Decrypt(packet);
    case Send(payload) => out, rekey := t.Encrypt(payload);
    case Expire =>
      t.Expire();
      out := None;
  }

  /** Any run of a session. A packet is delivered exactly if it is due, and its payload is then the
      authentic one; no number is delivered twice. */
  method RunSession(t: Transport, events: seq<Event>) returns (outs: seq<Option<seq<Byte>>>)
    requires t.Valid()
    modifies t, t.recvAr, t.recvAr.bitmap
    ensures t.Valid() && |outs| == |events|
    ensures forall i :: 0 <= i < |events| ==>
      (Delivered(events, outs, i) <==>
         IsDue(t.recvCipher, old(t.recvAr.window), old(t.notTooOld), events, outs, i))
    ensures forall i :: 0 <= i < |events| && Delivered(events, outs, i) ==>
      outs[i] == t.recvCipher.open(Number(events, i), events[i].packet[16..])
    ensures forall i, j :: 0 <= i < j < |events| && Delivered(events, outs, i) && Delivered(events, outs, j) ==>
      Number(events, i) != Number(events, j)
  {
    outs := [];
    ghost var start, on := t.recvAr.window, t.notTooOld;
    for i := 0 to |events|
      invariant t.Valid() && t.recvAr == old(t.recvAr) && t.recvAr.bitmap == old(t.recvAr.bitmap) && |outs| == i
      invariant DeliveriesOk(t.recvCipher, start, on, events, outs)
      invariant WindowOk(t.recvCipher, start, on, events, outs, t.recvAr.window, t.notTooOld)
    {
      ghost var w, isOn := t.recvAr.window, t.notTooOld;
      assert w.Valid();
      var out := HandleEvent(t, events[i]);
      DeliveriesStep(t.recvCipher, start, on, events, outs, w, isOn, out, t.recvAr.window, t.notTooOld);
      WindowStep(t.recvCipher, start, on, events, outs, w, isOn, out, t.recvAr.window, t.notTooOld);
      outs := outs + [out];
    }
    forall i, j | 0 <= i < j < |events| && Delivered(events, outs, i) && Delivered(events, outs, j)
      ensures Number(events, i) != Number(events, j)
    {
      assert IsDue(t.recvCipher, start, on, events, outs, j);
    }
  }

  /** Any run of a new session, which starts with an empty window. */
  method RunNewSession(peerId: seq<Byte>, isInitiator: bool, sendCipher: Cipher, recvCipher: Cipher, events: seq<Event>)
      returns (outs: seq<Option<seq<Byte>>>)
    requires |peerId| == 4
    ensures |outs| == |events|
    ensures forall i :: 0 <= i < |events| ==>
      (Delivered(events, outs, i) <==> IsDue(recvCipher, AR.EMPTY, true, events, outs, i))
    ensures forall i, j :: 0 <= i < j < |events| && Delivered(events, outs, i) && Delivered(events, outs, j) ==>
      Number(events, i) != Number(events, j)
  {
    var t := new Transport(peerId, isInitiator, sendCipher, recvCipher);
    outs := RunSession(t, events);
  }
}
