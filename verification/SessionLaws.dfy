/** What the steps of `Sessions` do, setting by setting and with the constants spelt out, and what
    that comes to over whole runs: an initiation is accepted once, and the packets that wait for a
    session are the last sixteen.

    The id map needs no laws of its own here: it is determined by the ids that the peers hold. */
module SessionLaws {
  import opened Wrappers
  import opened Sessions

  // ----- one peer -----

  /** Only peer `k` changes. */
  ghost predicate OnlyPeer(s: State, s': State, k: Key) {
    s'.now == s.now && k in s.peers && k in s'.peers && s'.peers == s.peers[k := s'.peers[k]]
  }

  /** At most three sessions are kept: the new one and the newest two of the others. */
  ghost predicate NewSession(p: PeerState, p': PeerState, t: Session) {
    p'.transports == [t] + (if |p.transports| <= 2 then p.transports else p.transports[..2])
  }

  /** With a new session no handshake is left, and the sessions are to be cleared in 540 seconds. */
  ghost predicate HandshakeDone(p: PeerState, p': PeerState, now: nat) {
    && p'.hasEndpoint && p'.handshake == None && !p'.resendScope
    && p'.stopHandshake == p.stopHandshake.(armed := false)
    && p'.clear == Timer(true, now + 540_000_000_000, p.clear.pending)
  }

  /** An initiation that is not newer than the last one changes nothing, and neither does one for a
      peer that is not there. A newer one is remembered and, if it can be answered, makes a session. */
  ghost predicate Initiated(s: State, s': State, k: Key, id: Id, timestamp: nat, answered: bool) {
    && (k !in s.peers ==> s' == s)
    && (k in s.peers ==>
          var last := s.peers[k].lastHandshake;
          && (last.Some? && timestamp <= last.value ==> s' == s)
          && (last.None? || last.value < timestamp ==>
                OnlyPeer(s, s', k) && Accepted(s.peers[k], s'.peers[k], s.now, id, timestamp, answered)))
  }

  ghost predicate Accepted(p: PeerState, p': PeerState, now: nat, id: Id, timestamp: nat, answered: bool) {
    && p'.lastHandshake == Some(timestamp) && p'.queue == p.queue
    && (answered ==> NewSession(p, p', Session(id, false, now)) && HandshakeDone(p, p', now))
    && (!answered ==> p' == p.(lastHandshake := Some(timestamp)))
  }

  /** A response completes the handshake of the peer that has one under this id, and nothing else. */
  ghost predicate Responded(s: State, s': State, id: Id) {
    && ((forall k :: k in s.peers ==> s.peers[k].handshake != Some(id)) ==> s' == s)
    && forall k :: k in s.peers && s.peers[k].handshake == Some(id) ==>
         OnlyPeer(s, s', k) && Completed(s.peers[k], s'.peers[k], s.now, id)
  }

  ghost predicate Completed(p: PeerState, p': PeerState, now: nat, id: Id) {
    && NewSession(p, p', Session(id, true, now)) && HandshakeDone(p, p', now)
    && p'.queue == [] && p'.lastHandshake == p.lastHandshake
  }

  /** An initiation can only be sent to an endpoint; its id takes the place of the one before. */
  ghost predicate Sent(s: State, s': State, k: Key, id: Id, initiated: bool)
    requires k in s.peers
  {
    if s.peers[k].hasEndpoint && initiated then OnlyPeer(s, s', k) && s'.peers[k] == s.peers[k].(handshake := Some(id))
    else s' == s
  }

  /** The last sixteen packets, in order. */
  function LastSixteen(ps: seq<Packet>): seq<Packet> {
    if |ps| <= 16 then ps else ps[|ps| - 16..]
  }

  ghost predicate Queued(p: PeerState, p': PeerState, packet: Packet, now: nat) {
    && p'.queue == LastSixteen(p.queue + [packet])
    && p'.stopHandshake == Timer(true, now + 90_000_000_000, p.stopHandshake.pending)
    && p' == p.(queue := p'.queue, stopHandshake := p'.stopHandshake)
  }

  /** A timer that is set, unless it is set already. */
  ghost predicate SetIfOff(t: Timer, t': Timer, deadline: nat) {
    t' == if t.armed then t else Timer(true, deadline, t.pending)
  }

  /** Starting a handshake takes an endpoint and has no effect while one is going on. */
  ghost predicate Started(p: PeerState, p': PeerState, now: nat) {
    if p.resendScope || !p.hasEndpoint then p' == p
    else
      && SetIfOff(p.stopHandshake, p'.stopHandshake, now + 90_000_000_000)
      && SetIfOff(p.clear, p'.clear, now + 540_000_000_000)
      && p' == p.(resendScope := true, stopHandshake := p'.stopHandshake, clear := p'.clear)
  }

  /** Nothing is left but the endpoint, the last timestamp and the timer of the handshake. */
  ghost predicate Cleared(p: PeerState, p': PeerState) {
    p' == PeerState(p.hasEndpoint, p.lastHandshake, None, false, [], [], p.stopHandshake, p'.clear) && !p'.clear.armed
  }

  ghost predicate Stopped(p: PeerState, p': PeerState) {
    p' == p.(handshake := None, resendScope := false, stopHandshake := p.stopHandshake.(pending := false))
  }

  // ----- the steps -----

  lemma InitiationMeaning(s: State, k: Key, id: Id, timestamp: nat, answered: bool)
    requires id !in s.idMap
    ensures Initiated(s, Next(s, GetInitiation(k, id, timestamp, answered)), k, id, timestamp, answered)
  {}

  lemma HolderIsKnown(s: State, k: Key, id: Id)
    requires Invariant(s) && k in s.peers && s.peers[k].handshake == Some(id)
    ensures Get(s.idMap, id) == Some(k)
  {
    assert id in Held(s.peers)[k];
  }

  lemma CompleteMeaning(p: PeerState, id: Id, now: nat)
    ensures Completed(p, p.Complete(id, now), now, id)
  {}

  lemma ResponseMeaning(s: State, id: Id)
    requires Invariant(s)
    ensures Responded(s, Next(s, GetResponse(id)), id)
  {
    forall k | k in s.peers && s.peers[k].handshake == Some(id)
      ensures OnlyPeer(s, Next(s, GetResponse(id)), k)
      ensures Completed(s.peers[k], Next(s, GetResponse(id)).peers[k], s.now, id)
    {
      HolderIsKnown(s, k, id);
      CompleteMeaning(s.peers[k], id, s.now);
    }
  }

  lemma SendingMeaning(s: State, k: Key, id: Id, initiated: bool)
    requires Enabled(s, SendInitiation(k, id, initiated))
    ensures Sent(s, Next(s, SendInitiation(k, id, initiated)), k, id, initiated)
  {}

  lemma PeerStepsMeaning(s: State, k: Key, packet: Packet)
    requires k in s.peers
    ensures var s' := Next(s, Enqueue(k, packet)); OnlyPeer(s, s', k) && Queued(s.peers[k], s'.peers[k], packet, s.now)
    ensures var s' := Next(s, StartHandshake(k)); OnlyPeer(s, s', k) && Started(s.peers[k], s'.peers[k], s.now)
    ensures var s' := Next(s, ClearPeer(k)); OnlyPeer(s, s', k) && Cleared(s.peers[k], s'.peers[k])
    ensures var s' := Next(s, SetEndpoint(k)); OnlyPeer(s, s', k) && s'.peers[k] == s.peers[k].(hasEndpoint := true)
    ensures Next(s, RemovePeer(k)).peers == s.peers - {k}
  {
    assert s.peers[k := s.peers[k].Clear()] - {k} == s.peers - {k};
  }

  lemma ClearAllMeaning(s: State)
    ensures Next(s, ClearAll).peers.Keys == s.peers.Keys
    ensures forall k :: k in s.peers ==> Cleared(s.peers[k], Next(s, ClearAll).peers[k])
  {}

  /** A new peer has no endpoint, no handshake, no session and no timer set; adding it again does
      nothing. */
  lemma AddMeaning(s: State, k: Key)
    ensures k in s.peers ==> Next(s, AddPeer(k)) == s
    ensures k !in s.peers ==>
      Next(s, AddPeer(k)).peers
        == s.peers[k := PeerState(false, None, None, false, [], [], Timer(false, 0, false), Timer(false, 0, false))]
  {}

  /** The two timers: they go off when they are set and their time has come, and are not set then. */
  lemma TimersMeaning(s: State, k: Key)
    requires k in s.peers
    ensures Enabled(s, GoOffStop(k)) <==>
      s.peers[k].stopHandshake.armed && !s.peers[k].stopHandshake.pending && s.peers[k].stopHandshake.deadline <= s.now
    ensures Enabled(s, GoOffClear(k)) <==>
      s.peers[k].clear.armed && !s.peers[k].clear.pending && s.peers[k].clear.deadline <= s.now
    ensures Enabled(s, GoOffStop(k)) ==>
      var s' := Next(s, GoOffStop(k));
      OnlyPeer(s, s', k)
      && s'.peers[k] == s.peers[k].(stopHandshake := Timer(false, s.peers[k].stopHandshake.deadline, true))
    ensures Enabled(s, GoOffClear(k)) ==>
      var s' := Next(s, GoOffClear(k));
      OnlyPeer(s, s', k) && s'.peers[k] == s.peers[k].(clear := Timer(false, s.peers[k].clear.deadline, true))
    ensures Enabled(s, ActStop(k)) ==>
      var s' := Next(s, ActStop(k)); OnlyPeer(s, s', k) && Stopped(s.peers[k], s'.peers[k])
    ensures Enabled(s, ActClear(k)) ==>
      var s' := Next(s, ActClear(k));
      OnlyPeer(s, s', k) && Cleared(s.peers[k], s'.peers[k]) && !s'.peers[k].clear.pending
  {}

  // ----- initiations over whole runs -----

  lemma PrefixIsValid(steps: seq<Step>, i: nat)
    requires ValidRun(steps) && i <= |steps|
    ensures ValidRun(steps[..i])
    decreases |steps|
  {
    if i < |steps| {
      PrefixIsValid(steps[..|steps| - 1], i);
      assert steps[..|steps| - 1][..i] == steps[..i];
    } else {
      assert steps[..i] == steps;
    }
  }

  lemma OneMore(steps: seq<Step>, i: nat)
    requires ValidRun(steps) && i < |steps|
    ensures ValidRun(steps[..i]) && ValidRun(steps[..i + 1])
    ensures Enabled(After(steps[..i]), steps[i]) && After(steps[..i + 1]) == Next(After(steps[..i]), steps[i])
  {
    PrefixIsValid(steps, i);
    PrefixIsValid(steps, i + 1);
    assert steps[..i + 1][..i] == steps[..i];
  }

  /** Peer `k` has accepted an initiation at least as new as `timestamp`. */
  ghost predicate HasSeen(s: State, k: Key, timestamp: nat) {
    k in s.peers && s.peers[k].lastHandshake.Some? && timestamp <= s.peers[k].lastHandshake.value
  }

  lemma StillSeen(s: State, step: Step, k: Key, timestamp: nat)
    requires Enabled(s, step) && HasSeen(s, k, timestamp) && step != RemovePeer(k)
    ensures HasSeen(Next(s, step), k, timestamp)
  {}

  lemma {:induction false} SeenFrom(steps: seq<Step>, i: nat, j: nat, k: Key, timestamp: nat)
    requires ValidRun(steps) && i <= j <= |steps|
    requires ValidRun(steps[..i]) && HasSeen(After(steps[..i]), k, timestamp)
    requires forall n :: i <= n < j ==> steps[n] != RemovePeer(k)
    ensures ValidRun(steps[..j]) && HasSeen(After(steps[..j]), k, timestamp)
    decreases j - i
  {
    if i < j {
      OneMore(steps, i);
      StillSeen(After(steps[..i]), steps[i], k, timestamp);
      SeenFrom(steps, i + 1, j, k, timestamp);
    }
  }

  /** Step `i` is an initiation for peer `k` that has an effect. */
  ghost predicate TakesInitiation(steps: seq<Step>, i: nat, k: Key)
    requires ValidRun(steps) && i < |steps|
  {
    OneMore(steps, i);
    steps[i].GetInitiation? && steps[i].key == k && After(steps[..i + 1]) != After(steps[..i])
  }

  /** The initiations that have an effect on a peer, as long as it is not removed, have strictly
      increasing timestamps; so none of them is accepted twice. */
  lemma InitiationsIncrease(steps: seq<Step>, i: nat, j: nat, k: Key)
    requires ValidRun(steps) && i < j < |steps|
    requires TakesInitiation(steps, i, k) && TakesInitiation(steps, j, k)
    requires forall n :: i < n < j ==> steps[n] != RemovePeer(k)
    ensures steps[i].timestamp < steps[j].timestamp
  {
    OneMore(steps, i);
    OneMore(steps, j);
    SeenFrom(steps, i + 1, j, k, steps[i].timestamp);
  }

  // ----- the queue over whole runs -----

  /** The step sends or drops what is queued for peer `k`, or the peer. */
  ghost predicate Empties(s: State, step: Step, k: Key) {
    || k !in s.peers
    || step == RemovePeer(k) || step == ClearPeer(k) || step == ClearAll || step == ActClear(k)
    || (step.GetResponse? && s.peers[k].handshake == Some(step.id))
  }

  /** The packets that have been enqueued for peer `k` since its queue was emptied. */
  ghost function Waiting(steps: seq<Step>, k: Key): seq<Packet>
    requires ValidRun(steps)
  {
    if steps == [] then []
    else
      var before, step := steps[..|steps| - 1], steps[|steps| - 1];
      if Empties(After(before), step, k) then []
      else if step.Enqueue? && step.key == k then Waiting(before, k) + [step.packet]
      else Waiting(before, k)
  }

  lemma StepQueues(s: State, step: Step, k: Key)
    requires Invariant(s) && Enabled(s, step) && k in Next(s, step).peers
    ensures QueueAfter(s, step, k, Next(s, step).peers[k].queue)
  {
    if step.GetResponse? {
      ResponseQueues(s, step.id, k);
    } else if step.GetInitiation? || step.Enqueue? || step.RemovePeer? {
      MessageQueues(s, step, k);
    } else {
      OtherQueues(s, step, k);
    }
  }

  lemma MessageQueues(s: State, step: Step, k: Key)
    requires Enabled(s, step) && k in Next(s, step).peers
    requires step.GetInitiation? || step.Enqueue? || step.RemovePeer?
    ensures QueueAfter(s, step, k, Next(s, step).peers[k].queue)
  {}

  lemma OtherQueues(s: State, step: Step, k: Key)
    requires Enabled(s, step) && k in Next(s, step).peers
    requires !step.GetResponse? && !step.GetInitiation? && !step.Enqueue? && !step.RemovePeer?
    ensures QueueAfter(s, step, k, Next(s, step).peers[k].queue)
  {}

  ghost predicate QueueAfter(s: State, step: Step, k: Key, queue: seq<Packet>) {
    if Empties(s, step, k) then queue == []
    else if step.Enqueue? && step.key == k then queue == LastSixteen(s.peers[k].queue + [step.packet])
    else queue == s.peers[k].queue
  }

  lemma ResponseQueues(s: State, id: Id, k: Key)
    requires Invariant(s) && k in Next(s, GetResponse(id)).peers
    ensures QueueAfter(s, GetResponse(id), k, Next(s, GetResponse(id)).peers[k].queue)
  {
    ResponseMeaning(s, id);
    if k in s.peers && s.peers[k].handshake == Some(id) {
      HolderIsKnown(s, k, id);
    }
  }

  /** What a peer has queued are the last sixteen of the packets that wait for a session. */
  lemma {:induction false} QueueIsLastSixteen(steps: seq<Step>, k: Key)
    requires ValidRun(steps) && k in After(steps).peers
    ensures After(steps).peers[k].queue == LastSixteen(Waiting(steps, k))
  {
    var before, step := steps[..|steps| - 1], steps[|steps| - 1];
    var s := After(before);
    InvariantOnRuns(before);
    StepQueues(s, step, k);
    if !Empties(s, step, k) {
      QueueIsLastSixteen(before, k);
    }
  }
}
