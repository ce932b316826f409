/** Handshakes and sessions of all peers, the map from session ids to peers, and the two timers
    that bound how long they live. Every message handler, every timer action and every
    configuration change is one atomic step, as if it held its locks throughout.

    The other timers of a peer only start handshakes; here a handshake may be started at any
    time. Times are in nanoseconds. */
module Sessions {
  import opened Wrappers

  type Key = seq<int>
  type Id = seq<int>
  type Packet = seq<int>

  const SECOND: nat := 1_000_000_000
  const REKEY_ATTEMPT_TIME: nat := 90 * SECOND
  const REJECT_AFTER_TIME: nat := 180 * SECOND
  const CLEAR_TIME: nat := 3 * REJECT_AFTER_TIME
  const QUEUE_SIZE: nat := 16
  const MAX_TRANSPORTS: nat := 3

  /** `pending` tells that the timer has gone off and its action has not been taken yet. */
  datatype Timer = Timer(armed: bool, deadline: nat, pending: bool) {
    function Adjust(now: nat, delay: nat): Timer {
      this.(armed := true, deadline := now + delay)
    }

    function AdjustIfNotArmed(now: nat, delay: nat): Timer {
      if armed then this else Adjust(now, delay)
    }

    function Off(): Timer {
      this.(armed := false)
    }

    predicate Due(now: nat) {
      armed && deadline <= now && !pending
    }

    function GoOff(): Timer {
      this.(armed := false, pending := true)
    }
  }

  const NEW_TIMER := Timer(false, 0, false)

  datatype Session = Session(id: Id, isInitiator: bool, created: nat)

  datatype PeerState = PeerState(
    hasEndpoint: bool, lastHandshake: Option<nat>,
    handshake: Option<Id>, resendScope: bool,
    transports: seq<Session>, queue: seq<Packet>,
    stopHandshake: Timer, clear: Timer)
  {
    /** The session ids that this peer has guards for. */
    function Ids(): set<Id> {
      Pending() + SessionIds(transports)
    }

    function Pending(): set<Id> {
      if handshake.Some? then {handshake.value} else {}
    }

    /** The session that has to go when there is a new one. */
    function Evicted(): set<Id> {
      if |transports| == MAX_TRANSPORTS then {transports[MAX_TRANSPORTS - 1].id} else {}
    }

    function Clear(): PeerState {
      this.(handshake := None, resendScope := false, transports := [], queue := [], clear := clear.Off())
    }

    function PushTransport(t: Session, now: nat): PeerState {
      this.(
        stopHandshake := stopHandshake.Off(),
        clear := clear.Adjust(now, CLEAR_TIME),
        transports := [t] + (if |transports| >= MAX_TRANSPORTS then transports[..MAX_TRANSPORTS - 1] else transports))
    }

    function Enqueue(p: Packet, now: nat): PeerState {
      this.(
        stopHandshake := stopHandshake.Adjust(now, REKEY_ATTEMPT_TIME),
        queue := (if |queue| >= QUEUE_SIZE then queue[|queue| - (QUEUE_SIZE - 1)..] else queue) + [p])
    }

    function StartHandshake(now: nat): PeerState {
      if resendScope || !hasEndpoint then this
      else this.(
        resendScope := true,
        stopHandshake := stopHandshake.AdjustIfNotArmed(now, REKEY_ATTEMPT_TIME),
        clear := clear.AdjustIfNotArmed(now, CLEAR_TIME))
    }

    function NoHandshake(): PeerState {
      this.(handshake := None, resendScope := false)
    }

    predicate Newer(timestamp: nat) {
      lastHandshake.None? || timestamp > lastHandshake.value
    }

    /** A new session as responder. */
    function Respond(id: Id, now: nat): PeerState {
      this.(hasEndpoint := true).PushTransport(Session(id, false, now), now).NoHandshake()
    }

    /** A new session as initiator, under the id of the handshake; queued packets are sent. */
    function Complete(id: Id, now: nat): PeerState {
      NoHandshake().PushTransport(Session(id, true, now), now).(queue := [], hasEndpoint := true)
    }

    function ActStop(): PeerState {
      NoHandshake().(stopHandshake := stopHandshake.(pending := false))
    }

    function ActClear(): PeerState {
      var p := Clear();
      p.(clear := p.clear.(pending := false))
    }
  }

  function SessionIds(ts: seq<Session>): set<Id> {
    set i | 0 <= i < |ts| :: ts[i].id
  }

  const NEW_PEER := PeerState(false, None, None, false, [], [], NEW_TIMER, NEW_TIMER)

  datatype State = State(now: nat, peers: map<Key, PeerState>, idMap: map<Id, Key>)

  const EMPTY := State(0, map[], map[])

  /** What can happen. New ids are fresh; messages are authentic ones, the others change nothing. */
  datatype Step =
    | Tick(elapsed: nat)
    | AddPeer(key: Key)
    | RemovePeer(key: Key)
    | ClearPeer(key: Key)                             // new preshared key
    | ClearAll                                        // new private key
    | SetEndpoint(key: Key)
    | Enqueue(key: Key, packet: Packet)
    | StartHandshake(key: Key)
    | SendInitiation(key: Key, id: Id, initiated: bool) // by the resend loop
    | GetInitiation(key: Key, id: Id, timestamp: nat, answered: bool)
    | GetResponse(id: Id)
    | GoOffStop(key: Key)
    | ActStop(key: Key)
    | GoOffClear(key: Key)
    | ActClear(key: Key)

  predicate Enabled(s: State, step: Step) {
    match step
    case SendInitiation(k, id, _) => k in s.peers && s.peers[k].resendScope && id !in s.idMap
    case GetInitiation(_, id, _, _) => id !in s.idMap
    case GoOffStop(k) => k in s.peers && s.peers[k].stopHandshake.Due(s.now)
    case ActStop(k) => k in s.peers && s.peers[k].stopHandshake.pending
    case GoOffClear(k) => k in s.peers && s.peers[k].clear.Due(s.now)
    case ActClear(k) => k in s.peers && s.peers[k].clear.pending
    case _ => true
  }

  /** Peer `k` changes to `p`; the guards that it no longer has take their ids out of the map. */
  function Put(s: State, k: Key, p: PeerState): State
    requires k in s.peers
  {
    s.(peers := s.peers[k := p], idMap := s.idMap - (s.peers[k].Ids() - p.Ids()))
  }

  function Next(s: State, step: Step): State
    requires Enabled(s, step)
  {
    match step
    case Tick(d) => s.(now := s.now + d)
    case AddPeer(k) => if k in s.peers then s else s.(peers := s.peers[k := NEW_PEER])
    case RemovePeer(k) =>
      if k !in s.peers then s
      else var s' := Put(s, k, s.peers[k].Clear()); s'.(peers := s'.peers - {k})
    case ClearPeer(k) => if k in s.peers then Put(s, k, s.peers[k].Clear()) else s
    case ClearAll => s.(
      peers := map k | k in s.peers :: s.peers[k].Clear(),
      idMap := s.idMap - (set k, id | k in s.peers && id in s.peers[k].Ids() :: id))
    case SetEndpoint(k) => if k in s.peers then Put(s, k, s.peers[k].(hasEndpoint := true)) else s
    case Enqueue(k, packet) => if k in s.peers then Put(s, k, s.peers[k].Enqueue(packet, s.now)) else s
    case StartHandshake(k) => if k in s.peers then Put(s, k, s.peers[k].StartHandshake(s.now)) else s
    case SendInitiation(k, id, initiated) =>
      // The id is entered first; if no message can be made, its guard is dropped at once.
      if s.peers[k].hasEndpoint && initiated then
        Put(s.(idMap := s.idMap[id := k]), k, s.peers[k].(handshake := Some(id)))
      else s
    case GetInitiation(k, id, timestamp, answered) =>
      if k !in s.peers || !s.peers[k].Newer(timestamp) then s
      else
        var p := s.peers[k].(lastHandshake := Some(timestamp));
        if !answered then Put(s, k, p)
        else
          var s' := Put(s, k, p.Respond(id, s.now));
          s'.(idMap := s'.idMap[id := k])
    case GetResponse(id) =>
      if id in s.idMap && s.idMap[id] in s.peers && s.peers[s.idMap[id]].handshake == Some(id) then
        var k := s.idMap[id];
        Put(s, k, s.peers[k].Complete(id, s.now))
      else s
    case GoOffStop(k) => Put(s, k, s.peers[k].(stopHandshake := s.peers[k].stopHandshake.GoOff()))
    case ActStop(k) =>
      Put(s, k, s.peers[k].ActStop())
    case GoOffClear(k) => Put(s, k, s.peers[k].(clear := s.peers[k].clear.GoOff()))
    case ActClear(k) =>
      Put(s, k, s.peers[k].ActClear())
  }

  // ----- the invariants -----

  /** No id is held twice, and at most three sessions are kept, the newest first. */
  predicate SessionsOk(p: PeerState, now: nat) {
    && |p.transports| <= MAX_TRANSPORTS
    && (forall i, j :: 0 <= i < j < |p.transports| ==> p.transports[i].id != p.transports[j].id)
    && (forall i :: 0 <= i < |p.transports| ==> p.handshake != Some(p.transports[i].id))
    && (forall i :: 0 <= i < |p.transports| ==> p.transports[i].created <= now)
    && (forall i, j :: 0 <= i < j < |p.transports| ==> p.transports[j].created <= p.transports[i].created)
    && |p.queue| <= QUEUE_SIZE
  }

  predicate TimersOk(p: PeerState) {
    && (p.handshake.Some? ==> p.resendScope)
    && (p.resendScope ==> p.stopHandshake.armed || p.stopHandshake.pending)
    && (p.transports != [] ==>
          || (p.clear.armed && p.clear.deadline <= p.transports[0].created + CLEAR_TIME)
          || p.clear.pending)
  }

  /** The ids that each peer has guards for. */
  ghost function Held(peers: map<Key, PeerState>): map<Key, set<Id>> {
    map k | k in peers :: peers[k].Ids()
  }

  /** An id leads to a peer exactly if the peer is live and has a guard for it. */
  ghost predicate Agree(idMap: map<Id, Key>, held: map<Key, set<Id>>) {
    && (forall id :: id in idMap ==> idMap[id] in held && id in held[idMap[id]])
    && forall k, id :: k in held && id in held[k] ==> Get(idMap, id) == Some(k)
  }

  ghost predicate Invariant(s: State) {
    && Agree(s.idMap, Held(s.peers))
    && forall k :: k in s.peers ==> SessionsOk(s.peers[k], s.now) && TimersOk(s.peers[k])
  }

  ghost predicate PeerOk(p: PeerState, now: nat) {
    SessionsOk(p, now) && TimersOk(p)
  }

  // ----- one peer -----

  /** What the changes of one peer keep, and which ids they can bring in. */
  lemma PeerChanges(p: PeerState, now: nat, packet: Packet)
    requires PeerOk(p, now)
    ensures PeerOk(p.Clear(), now) && p.Clear().Ids() == {}
    ensures PeerOk(p.Enqueue(packet, now), now) && p.Enqueue(packet, now).Ids() == p.Ids()
    ensures PeerOk(p.StartHandshake(now), now) && p.StartHandshake(now).Ids() == p.Ids()
  {}

  lemma TimersGoOff(p: PeerState, now: nat)
    requires PeerOk(p, now)
    ensures PeerOk(p.(stopHandshake := p.stopHandshake.GoOff()), now)
    ensures PeerOk(p.(clear := p.clear.GoOff()), now)
  {}

  lemma TimersAct(p: PeerState, now: nat)
    requires PeerOk(p, now)
    ensures PeerOk(p.ActStop(), now) && p.ActStop().Ids() == SessionIds(p.transports)
    ensures PeerOk(p.ActClear(), now) && p.ActClear().Ids() == {}
  {}

  lemma PushedIds(p: PeerState, t: Session, now: nat)
    ensures p.PushTransport(t, now).Ids() <= p.Ids() + {t.id}
    ensures t.id in p.PushTransport(t, now).Ids()
  {
    var p' := p.PushTransport(t, now);
    assert p'.transports[0] == t;
    forall i | 0 < i < |p'.transports| ensures p'.transports[i].id in p.Ids() {
      assert p'.transports[i] == p.transports[i - 1];
    }
  }

  /** A session under a new id, or under the id of the handshake that it completes, keeps the
      newest three sessions in order. */
  lemma PushKeepsOrder(p: PeerState, t: Session, now: nat)
    requires SessionsOk(p, now) && t.created == now && p.handshake.None?
    requires forall i :: 0 <= i < |p.transports| ==> p.transports[i].id != t.id
    ensures SessionsOk(p.PushTransport(t, now), now)
  {
    var ts := p.PushTransport(t, now).transports;
    assert forall i :: 0 < i < |ts| ==> ts[i] == p.transports[i - 1];
  }

  lemma RespondKeeps(p: PeerState, id: Id, now: nat)
    requires PeerOk(p, now) && id !in p.Ids()
    ensures PeerOk(p.Respond(id, now), now)
    ensures id in p.Respond(id, now).Ids() && p.Respond(id, now).Ids() <= p.Ids() + {id}
  {
    var p0 := p.(hasEndpoint := true, handshake := None, resendScope := false);
    var t := Session(id, false, now);
    assert p.Respond(id, now) == p0.PushTransport(t, now);
    PushedIds(p0, t, now);
    PushKeepsOrder(p0, t, now);
  }

  lemma CompleteKeeps(p: PeerState, id: Id, now: nat)
    requires PeerOk(p, now) && p.handshake == Some(id)
    ensures PeerOk(p.Complete(id, now), now)
    ensures id in p.Complete(id, now).Ids() && p.Complete(id, now).Ids() <= p.Ids()
  {
    var t := Session(id, true, now);
    PushedIds(p.NoHandshake(), t, now);
    PushKeepsOrder(p.NoHandshake(), t, now);
  }

  // ----- all peers -----

  lemma GuardsDropped(idMap: map<Id, Key>, held: map<Key, set<Id>>, k: Key, ids: set<Id>)
    requires Agree(idMap, held) && k in held && ids <= held[k]
    ensures Agree(idMap - (held[k] - ids), held[k := ids])
  {
    var idMap', held' := idMap - (held[k] - ids), held[k := ids];
    forall k', id | k' in held' && id in held'[k'] ensures Get(idMap', id) == Some(k') {
      assert Get(idMap, id) == Some(k');
    }
  }

  lemma GuardAdded(idMap: map<Id, Key>, held: map<Key, set<Id>>, k: Key, id: Id)
    requires Agree(idMap, held) && k in held && id !in idMap
    ensures Agree(idMap[id := k], held[k := held[k] + {id}])
  {
    var idMap', held' := idMap[id := k], held[k := held[k] + {id}];
    forall k', id' | k' in held' && id' in held'[k'] ensures Get(idMap', id') == Some(k') {
      if id' in held[k'] {
        assert Get(idMap, id') == Some(k');
      }
    }
  }

  lemma PeerForgotten(idMap: map<Id, Key>, held: map<Key, set<Id>>, k: Key)
    requires Agree(idMap, held) && k in held && held[k] == {}
    ensures Agree(idMap, held - {k})
  {}

  lemma PeerEntered(idMap: map<Id, Key>, held: map<Key, set<Id>>, k: Key)
    requires Agree(idMap, held) && k !in held
    ensures Agree(idMap, held[k := {}])
  {}

  lemma PutKeeps(s: State, k: Key, p: PeerState)
    requires Invariant(s) && k in s.peers && PeerOk(p, s.now) && p.Ids() <= s.peers[k].Ids()
    ensures Invariant(Put(s, k, p))
  {
    GuardsDropped(s.idMap, Held(s.peers), k, p.Ids());
    assert Held(s.peers[k := p]) == Held(s.peers)[k := p.Ids()];
  }

  lemma PutNewKeeps(s: State, k: Key, p: PeerState, id: Id)
    requires Invariant(s) && k in s.peers && PeerOk(p, s.now) && id !in s.idMap
    requires id in p.Ids() && p.Ids() <= s.peers[k].Ids() + {id}
    ensures var s' := Put(s, k, p); Invariant(s'.(idMap := s'.idMap[id := k]))
    ensures var s' := Put(s, k, p); Put(s.(idMap := s.idMap[id := k]), k, p) == s'.(idMap := s'.idMap[id := k])
  {
    GuardReplaced(s.idMap, Held(s.peers), k, id, p.Ids());
    assert Held(s.peers[k := p]) == Held(s.peers)[k := p.Ids()];
  }

  lemma GuardReplaced(idMap: map<Id, Key>, held: map<Key, set<Id>>, k: Key, id: Id, ids: set<Id>)
    requires Agree(idMap, held) && k in held && id !in idMap && id in ids && ids <= held[k] + {id}
    ensures Agree((idMap - (held[k] - ids))[id := k], held[k := ids])
    ensures idMap[id := k] - (held[k] - ids) == (idMap - (held[k] - ids))[id := k]
  {
    NewIdIsUnheld(idMap, held, k, id);
    var rest := ids - {id};
    GuardsDropped(idMap, held, k, rest);
    GuardAdded(idMap - (held[k] - rest), held[k := rest], k, id);
    assert held[k] - rest == held[k] - ids;
    assert rest + {id} == ids && held[k := rest][k := ids] == held[k := ids];
  }

  lemma NewIdIsUnheld(idMap: map<Id, Key>, held: map<Key, set<Id>>, k: Key, id: Id)
    requires Agree(idMap, held) && k in held && id !in idMap
    ensures id !in held[k]
  {
    assert id in held[k] ==> Get(idMap, id) == Some(k);
  }

  lemma ForgetKeeps(s: State, k: Key)
    requires Invariant(s) && k in s.peers && s.peers[k].Ids() == {}
    ensures Invariant(s.(peers := s.peers - {k}))
  {
    PeerForgotten(s.idMap, Held(s.peers), k);
    assert Held(s.peers - {k}) == Held(s.peers) - {k};
  }

  lemma RemoveKeeps(s: State, k: Key)
    requires Invariant(s) && k in s.peers
    ensures Invariant(Next(s, RemovePeer(k)))
  {
    PeerChanges(s.peers[k], s.now, []);
    PutKeeps(s, k, s.peers[k].Clear());
    ForgetKeeps(Put(s, k, s.peers[k].Clear()), k);
  }

  lemma ClearAllKeeps(s: State)
    requires Invariant(s)
    ensures Invariant(Next(s, ClearAll)) && Next(s, ClearAll).idMap == map[]
  {
    var s' := Next(s, ClearAll);
    forall k | k in s.peers ensures PeerOk(s'.peers[k], s.now) && s'.peers[k].Ids() == {} {
      PeerChanges(s.peers[k], s.now, []);
    }
    forall id | id in s.idMap ensures id !in s'.idMap {
      assert s.idMap[id] in s.peers && id in Held(s.peers)[s.idMap[id]];
    }
  }

  lemma InitiationKeeps(s: State, k: Key, id: Id)
    requires Invariant(s) && k in s.peers && s.peers[k].resendScope && id !in s.idMap
    ensures Invariant(Put(s.(idMap := s.idMap[id := k]), k, s.peers[k].(handshake := Some(id))))
  {
    var p := s.peers[k].(handshake := Some(id));
    NewIdIsUnheld(s.idMap, Held(s.peers), k, id);
    assert forall i :: 0 <= i < |p.transports| ==> p.transports[i].id in s.peers[k].Ids();
    PutNewKeeps(s, k, p, id);
  }

  lemma GetInitiationKeeps(s: State, k: Key, id: Id, timestamp: nat, answered: bool)
    requires Invariant(s) && id !in s.idMap
    ensures Invariant(Next(s, GetInitiation(k, id, timestamp, answered)))
  {
    if k in s.peers && s.peers[k].Newer(timestamp) {
      var p := s.peers[k].(lastHandshake := Some(timestamp));
      NewIdIsUnheld(s.idMap, Held(s.peers), k, id);
      assert p.Ids() == s.peers[k].Ids();
      if answered {
        RespondKeeps(p, id, s.now);
        PutNewKeeps(s, k, p.Respond(id, s.now), id);
      } else {
        PutKeeps(s, k, p);
      }
    }
  }

  lemma GetResponseKeeps(s: State, id: Id)
    requires Invariant(s)
    ensures Invariant(Next(s, GetResponse(id)))
  {
    if id in s.idMap && s.idMap[id] in s.peers && s.peers[s.idMap[id]].handshake == Some(id) {
      var k := s.idMap[id];
      CompleteKeeps(s.peers[k], id, s.now);
      PutKeeps(s, k, s.peers[k].Complete(id, s.now));
    }
  }

  lemma GoOffStopKeeps(s: State, k: Key)
    requires Invariant(s) && Enabled(s, GoOffStop(k))
    ensures Invariant(Next(s, GoOffStop(k)))
  {
    var p := s.peers[k];
    TimersGoOff(p, s.now);
    PutKeeps(s, k, p.(stopHandshake := p.stopHandshake.GoOff()));
  }

  lemma GoOffClearKeeps(s: State, k: Key)
    requires Invariant(s) && Enabled(s, GoOffClear(k))
    ensures Invariant(Next(s, GoOffClear(k)))
  {
    var p := s.peers[k];
    TimersGoOff(p, s.now);
    PutKeeps(s, k, p.(clear := p.clear.GoOff()));
  }

  lemma ActStopKeeps(s: State, k: Key)
    requires Invariant(s) && Enabled(s, ActStop(k))
    ensures Invariant(Next(s, ActStop(k)))
  {
    TimersAct(s.peers[k], s.now);
    PutKeeps(s, k, s.peers[k].ActStop());
  }

  lemma ActClearKeeps(s: State, k: Key)
    requires Invariant(s) && Enabled(s, ActClear(k))
    ensures Invariant(Next(s, ActClear(k)))
  {
    TimersAct(s.peers[k], s.now);
    PutKeeps(s, k, s.peers[k].ActClear());
  }

  lemma PeerStepKeeps(s: State, k: Key, packet: Packet)
    requires Invariant(s) && k in s.peers
    ensures Invariant(Next(s, Enqueue(k, packet)))
    ensures Invariant(Next(s, StartHandshake(k)))
  {
    var p := s.peers[k];
    PeerChanges(p, s.now, packet);
    PutKeeps(s, k, p.Enqueue(packet, s.now));
    PutKeeps(s, k, p.StartHandshake(s.now));
  }

  lemma ClearPeerKeeps(s: State, k: Key)
    requires Invariant(s) && k in s.peers
    ensures Invariant(Next(s, ClearPeer(k)))
  {
    PeerChanges(s.peers[k], s.now, []);
    PutKeeps(s, k, s.peers[k].Clear());
  }

  lemma SetEndpointKeeps(s: State, k: Key)
    requires Invariant(s) && k in s.peers
    ensures Invariant(Next(s, SetEndpoint(k)))
  {
    PutKeeps(s, k, s.peers[k].(hasEndpoint := true));
  }

  lemma NewPeerKeeps(s: State, k: Key)
    requires Invariant(s)
    ensures Invariant(Next(s, AddPeer(k)))
  {
    if k !in s.peers {
      PeerEntered(s.idMap, Held(s.peers), k);
      assert NEW_PEER.Ids() == {};
      assert Held(s.peers[k := NEW_PEER]) == Held(s.peers)[k := {}];
    }
  }

  lemma StepKeeps(s: State, step: Step)
    requires Invariant(s) && Enabled(s, step)
    ensures Invariant(Next(s, step))
  {
    match step {
      case Tick(_) =>
      case AddPeer(k) => NewPeerKeeps(s, k);
      case RemovePeer(k) => if k in s.peers { RemoveKeeps(s, k); }
      case ClearAll => ClearAllKeeps(s);
      case SendInitiation(k, id, _) => InitiationKeeps(s, k, id);
      case GetInitiation(k, id, timestamp, answered) => GetInitiationKeeps(s, k, id, timestamp, answered);
      case GetResponse(id) => GetResponseKeeps(s, id);
      case Enqueue(k, packet) => if k in s.peers { PeerStepKeeps(s, k, packet); }
      case ClearPeer(k) => if k in s.peers { ClearPeerKeeps(s, k); }
      case SetEndpoint(k) => if k in s.peers { SetEndpointKeeps(s, k); }
      case StartHandshake(k) => if k in s.peers { PeerStepKeeps(s, k, []); }
      case GoOffStop(k) => GoOffStopKeeps(s, k);
      case ActStop(k) => ActStopKeeps(s, k);
      case GoOffClear(k) => GoOffClearKeeps(s, k);
      case ActClear(k) => ActClearKeeps(s, k);
    }
  }

  // ----- every run -----

  ghost predicate ValidRun(steps: seq<Step>)
    decreases |steps|, 0
  {
    steps == [] ||
    var before := steps[..|steps| - 1];
    ValidRun(before) && Enabled(After(before), steps[|steps| - 1])
  }

  ghost function After(steps: seq<Step>): State
    requires ValidRun(steps)
    decreases |steps|, 1
  {
    if steps == [] then EMPTY else Next(After(steps[..|steps| - 1]), steps[|steps| - 1])
  }

  lemma {:induction false} InvariantOnRuns(steps: seq<Step>)
    requires ValidRun(steps)
    ensures Invariant(After(steps))
    decreases |steps|
  {
    if steps != [] {
      InvariantOnRuns(steps[..|steps| - 1]);
      StepKeeps(After(steps[..|steps| - 1]), steps[|steps| - 1]);
    }
  }

  lemma InvariantMeaning(s: State, id: Id, k: Key)
    requires Invariant(s)
    ensures Get(s.idMap, id) == Some(k) <==>
      k in s.peers && (s.peers[k].handshake == Some(id)
                       || exists i :: 0 <= i < |s.peers[k].transports| && s.peers[k].transports[i].id == id)
  {
    assert k in s.peers ==> Held(s.peers)[k] == s.peers[k].Ids();
  }

  /** The id map leads from exactly the ids of pending handshakes and kept sessions to the peers
      that hold them. */
  lemma IdMapAgrees(steps: seq<Step>, id: Id, k: Key)
    requires ValidRun(steps)
    ensures var s := After(steps);
      Get(s.idMap, id) == Some(k) <==>
      k in s.peers && (s.peers[k].handshake == Some(id)
                       || exists i :: 0 <= i < |s.peers[k].transports| && s.peers[k].transports[i].id == id)
  {
    InvariantOnRuns(steps);
    InvariantMeaning(After(steps), id, k);
  }

  /** Sessions are the newest three, newest first; a pending handshake is being resent, and the
      resending is going to be stopped; while there are sessions they are going to be cleared,
      by a timer set no later than 540 seconds after the newest one was made. */
  lemma SessionsAreTimed(steps: seq<Step>, k: Key)
    requires ValidRun(steps) && k in After(steps).peers
    ensures var p := After(steps).peers[k];
      && |p.transports| <= 3
      && (forall i, j :: 0 <= i < j < |p.transports| ==> p.transports[j].created <= p.transports[i].created)
      && (p.handshake.Some? ==> p.resendScope)
      && (p.resendScope ==> p.stopHandshake.armed || p.stopHandshake.pending)
      && (p.transports != [] ==>
            || p.clear.pending
            || (p.clear.armed && p.clear.deadline <= p.transports[0].created + 540 * SECOND))
  {
    InvariantOnRuns(steps);
  }

  /** If every timer is served on time, no session outlives the newest one by more than 540
      seconds after the latter was made. */
  lemma NoSessionOutlivesTimer(steps: seq<Step>, k: Key)
    requires ValidRun(steps) && k in After(steps).peers
    requires var p := After(steps).peers[k]; !p.clear.pending && !p.clear.Due(After(steps).now)
    ensures var s := After(steps); var p := s.peers[k];
      p.transports != [] ==> s.now < p.transports[0].created + 540 * SECOND
  {
    InvariantOnRuns(steps);
  }
}
