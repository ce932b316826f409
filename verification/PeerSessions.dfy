/** The peers and the id map as objects that the handlers change, in the order in which the
    source does it. A guard that goes away takes its id out of the map right then. Each handler
    is proved to be the step of `Sessions` with its name, whatever guards it drops on the way. */
module PeerSessions {
  import opened Wrappers
  import opened Sessions
  import opened SessionLaws

  class Peer {
    const key: Key
    var hasEndpoint: bool
    var lastHandshake: Option<nat>
    var handshake: Option<Id>
    var resendScope: bool
    var transports: seq<Session>
    var queue: seq<Packet>
    var stopHandshake: Timer
    var clear: Timer

    ghost function View(): PeerState
      reads this
    {
      PeerState(hasEndpoint, lastHandshake, handshake, resendScope, transports, queue, stopHandshake, clear)
    }

    constructor (key: Key)
      ensures this.key == key && View() == NEW_PEER
    {
      this.key, hasEndpoint, lastHandshake, handshake, resendScope := key, false, None, None, false;
      transports, queue, stopHandshake, clear := [], [], NEW_TIMER, NEW_TIMER;
    }

    /** Returns the ids of the guards that are dropped. */
    method Clear() returns (dropped: set<Id>)
      modifies this
      ensures View() == old(View()).Clear() && dropped == old(View()).Ids()
    {
      dropped := DropHandshake();
      resendScope := false;
      dropped := dropped + SessionIds(transports);
      transports, queue := [], [];
      clear := clear.Off();
    }

    method DropHandshake() returns (dropped: set<Id>)
      modifies this`handshake
      ensures handshake == None
      ensures dropped == old(View()).Pending()
    {
      dropped := if handshake.Some? then {handshake.value} else {};
      handshake := None;
    }

    /** A new pending handshake takes the place of the old one. */
    method SetHandshake(id: Id) returns (dropped: set<Id>)
      modifies this`handshake
      ensures View() == old(View()).(handshake := Some(id)) && dropped == old(View()).Pending()
    {
      dropped := DropHandshake();
      handshake := Some(id);
    }

    method OnNewTransport(now: nat)
      modifies this`stopHandshake, this`clear
      ensures stopHandshake == old(stopHandshake).Off() && clear == old(clear).Adjust(now, CLEAR_TIME)
    {
      stopHandshake := stopHandshake.Off();
      clear := clear.Adjust(now, CLEAR_TIME);
    }

    /** Keeps the newest three sessions; returns the id of the one that has to go. */
    method PushTransport(t: Session, now: nat) returns (dropped: set<Id>)
      requires |transports| <= MAX_TRANSPORTS
      modifies this
      ensures View() == old(View()).PushTransport(t, now)
      ensures dropped == old(View()).Evicted()
    {
      OnNewTransport(now);
      dropped := {};
      if |transports| == MAX_TRANSPORTS {
        dropped := {transports[MAX_TRANSPORTS - 1].id};
        transports := transports[..MAX_TRANSPORTS - 1];
      }
      transports := [t] + transports;
    }

    /** Keeps the newest sixteen packets. */
    method EnqueuePacket(p: Packet, now: nat)
      requires |queue| <= QUEUE_SIZE
      modifies this
      ensures View() == old(View()).Enqueue(p, now)
    {
      stopHandshake := stopHandshake.Adjust(now, REKEY_ATTEMPT_TIME);
      while |queue| >= QUEUE_SIZE
        invariant |queue| <= QUEUE_SIZE
        invariant View() == old(View()).(stopHandshake := stopHandshake, queue := queue)
        invariant stopHandshake == old(stopHandshake).Adjust(now, REKEY_ATTEMPT_TIME)
        invariant queue == old(queue) || (|old(queue)| == QUEUE_SIZE && queue == old(queue)[1..])
        decreases |queue|
      {
        queue := queue[1..];
      }
      queue := queue + [p];
    }

    method DequeueAll() returns (out: seq<Packet>)
      modifies this`queue
      ensures out == old(queue) && queue == []
    {
      out := queue;
      queue := [];
    }

    /** Becomes responder in a new session; a handshake of our own is no longer needed. */
    method Respond(id: Id, timestamp: nat, now: nat) returns (dropped: set<Id>)
      requires |transports| <= MAX_TRANSPORTS
      modifies this
      ensures View() == old(View()).(lastHandshake := Some(timestamp)).Respond(id, now)
      ensures dropped == old(View()).Evicted() + old(View()).Pending()
    {
      lastHandshake := Some(timestamp);
      hasEndpoint := true;
      dropped := PushTransport(Session(id, false, now), now);
      var pending := DropHandshake();
      resendScope := false;
      dropped := dropped + pending;
    }

    /** The id goes over from the handshake to the new session; returns the queued packets. */
    method Complete(id: Id, now: nat) returns (dropped: set<Id>, toSend: seq<Packet>)
      requires |transports| <= MAX_TRANSPORTS
      modifies this
      ensures View() == old(View()).Complete(id, now)
      ensures dropped == old(View()).Evicted() && toSend == old(queue)
    {
      resendScope := false;
      handshake := None;
      dropped := PushTransport(Session(id, true, now), now);
      hasEndpoint := true;
      toSend := DequeueAll();
    }

    /** The action of the stop-handshake timer. */
    method ActStop() returns (dropped: set<Id>)
      modifies this
      ensures View() == old(View()).ActStop() && dropped == old(View()).Pending()
    {
      resendScope := false;
      dropped := DropHandshake();
      stopHandshake := stopHandshake.(pending := false);
    }

    /** The action of the clear timer. */
    method ActClear() returns (dropped: set<Id>)
      modifies this
      ensures View() == old(View()).ActClear() && dropped == old(View()).Ids()
    {
      dropped := Clear();
      clear := clear.(pending := false);
    }

    method StartHandshake(now: nat)
      modifies this
      ensures View() == old(View()).StartHandshake(now)
    {
      if resendScope || !hasEndpoint {
        return;
      }
      resendScope := true;
      stopHandshake := stopHandshake.AdjustIfNotArmed(now, REKEY_ATTEMPT_TIME);
      clear := clear.AdjustIfNotArmed(now, CLEAR_TIME);
    }
  }

  // ----- the steps, with the ids that the dropped guards take out of the map spelt out -----

  ghost function AfterInitiation(s: State, k: Key, id: Id, timestamp: nat, answered: bool): State {
    if k !in s.peers || !s.peers[k].Newer(timestamp) then s
    else
      var p := s.peers[k];
      var p' := p.(lastHandshake := Some(timestamp));
      if answered then
        State(s.now, s.peers[k := p'.Respond(id, s.now)], (s.idMap - (p.Evicted() + p.Pending()))[id := k])
      else State(s.now, s.peers[k := p'], s.idMap)
  }

  ghost function AfterResponse(s: State, id: Id): State {
    if id !in s.idMap || s.idMap[id] !in s.peers || s.peers[s.idMap[id]].handshake != Some(id) then s
    else
      var k := s.idMap[id];
      State(s.now, s.peers[k := s.peers[k].Complete(id, s.now)], s.idMap - s.peers[k].Evicted())
  }

  ghost function AfterSending(s: State, k: Key, id: Id, initiated: bool): State
    requires k in s.peers
  {
    var p := s.peers[k];
    if p.hasEndpoint && initiated then
      State(s.now, s.peers[k := p.(handshake := Some(id))], s.idMap[id := k] - p.Pending())
    else s
  }

  ghost function AfterStop(s: State, k: Key): State
    requires k in s.peers
  {
    State(s.now, s.peers[k := s.peers[k].ActStop()], s.idMap - s.peers[k].Pending())
  }

  ghost function AfterClear(s: State, k: Key): State
    requires k in s.peers
  {
    State(s.now, s.peers[k := s.peers[k].ActClear()], s.idMap - s.peers[k].Ids())
  }

  ghost function AfterRemove(s: State, k: Key): State {
    if k in s.peers then State(s.now, s.peers - {k}, s.idMap - s.peers[k].Ids()) else s
  }

  ghost function AfterStart(s: State, k: Key): State
    requires k in s.peers
  {
    State(s.now, s.peers[k := s.peers[k].StartHandshake(s.now)], s.idMap)
  }

  lemma PushDrops(p: PeerState, t: Session, now: nat)
    requires SessionsOk(p, now) && forall i :: 0 <= i < |p.transports| ==> p.transports[i].id != t.id
    ensures SessionIds(p.transports) - SessionIds(p.PushTransport(t, now).transports) == p.Evicted()
    ensures SessionIds(p.PushTransport(t, now).transports) <= SessionIds(p.transports) + {t.id}
    ensures t.id in SessionIds(p.PushTransport(t, now).transports)
  {
    var ts, ts' := p.transports, p.PushTransport(t, now).transports;
    assert ts'[0] == t;
    forall i | 0 <= i < |ts| && i < MAX_TRANSPORTS - 1 ensures ts[i].id in SessionIds(ts') {
      assert ts'[i + 1] == ts[i];
    }
    forall j | 0 < j < |ts'|
      ensures ts'[j].id in SessionIds(ts) && (|ts| == MAX_TRANSPORTS ==> ts'[j].id != ts[MAX_TRANSPORTS - 1].id)
    {
      assert ts'[j] == ts[j - 1];
    }
  }

  lemma RespondDrops(p: PeerState, id: Id, timestamp: nat, now: nat)
    requires SessionsOk(p, now) && id !in p.Ids()
    ensures p.Ids() - p.(lastHandshake := Some(timestamp)).Respond(id, now).Ids() == p.Evicted() + p.Pending()
  {
    forall i | 0 <= i < |p.transports| ensures p.transports[i].id != id {
      assert p.transports[i].id in p.Ids();
    }
    PushDrops(p, Session(id, false, now), now);
  }

  lemma CompleteDrops(p: PeerState, id: Id, now: nat)
    requires SessionsOk(p, now) && p.handshake == Some(id)
    ensures p.Ids() - p.Complete(id, now).Ids() == p.Evicted()
  {
    PushDrops(p, Session(id, true, now), now);
  }

  lemma PendingDrops(p: PeerState, now: nat, h: Option<Id>)
    requires SessionsOk(p, now) && (h.Some? ==> h.value !in p.Ids())
    ensures p.Ids() - p.(handshake := h).Ids() == p.Pending()
  {}

  lemma InitiationIsStep(s: State, k: Key, id: Id, timestamp: nat, answered: bool)
    requires Invariant(s) && id !in s.idMap
    ensures AfterInitiation(s, k, id, timestamp, answered) == Next(s, GetInitiation(k, id, timestamp, answered))
  {
    if k in s.peers {
      var p := s.peers[k];
      NewIdIsUnheld(s.idMap, Held(s.peers), k, id);
      RespondDrops(p, id, timestamp, s.now);
      assert p.(lastHandshake := Some(timestamp)).Ids() == p.Ids();
    }
  }

  lemma ResponseIsStep(s: State, id: Id)
    requires Invariant(s)
    ensures AfterResponse(s, id) == Next(s, GetResponse(id))
  {
    if id in s.idMap && s.idMap[id] in s.peers && s.peers[s.idMap[id]].handshake == Some(id) {
      CompleteDrops(s.peers[s.idMap[id]], id, s.now);
    }
  }

  lemma SendingIsStep(s: State, k: Key, id: Id, initiated: bool)
    requires Invariant(s) && Enabled(s, SendInitiation(k, id, initiated))
    ensures AfterSending(s, k, id, initiated) == Next(s, SendInitiation(k, id, initiated))
  {
    NewIdIsUnheld(s.idMap, Held(s.peers), k, id);
    PendingDrops(s.peers[k], s.now, Some(id));
  }

  lemma StopIsStep(s: State, k: Key)
    requires Invariant(s) && Enabled(s, ActStop(k))
    ensures AfterStop(s, k) == Next(s, ActStop(k))
  {
    PendingDrops(s.peers[k], s.now, None);
    assert s.peers[k].ActStop().Ids() == s.peers[k].(handshake := None).Ids();
  }

  lemma ClearedHoldsNothing(p: PeerState)
    ensures p.Clear().Ids() == {} == p.ActClear().Ids()
  {}

  lemma ClearIsStep(s: State, k: Key)
    requires Enabled(s, ActClear(k))
    ensures AfterClear(s, k) == Next(s, ActClear(k))
  {
    ClearedHoldsNothing(s.peers[k]);
  }

  lemma RemoveIsStep(s: State, k: Key)
    ensures AfterRemove(s, k) == Next(s, RemovePeer(k))
  {
    if k in s.peers {
      ClearedHoldsNothing(s.peers[k]);
      assert s.peers[k := s.peers[k].Clear()] - {k} == s.peers - {k};
    }
  }

  lemma StartIsStep(s: State, k: Key)
    requires k in s.peers
    ensures AfterStart(s, k) == Next(s, StartHandshake(k))
  {
    assert s.peers[k].StartHandshake(s.now).Ids() == s.peers[k].Ids();
  }

  ghost function AfterEnqueue(s: State, k: Key, packet: Packet): State
    requires k in s.peers
  {
    State(s.now, s.peers[k := s.peers[k].Enqueue(packet, s.now)], s.idMap)
  }

  ghost function AfterClearing(s: State, k: Key): State
    requires k in s.peers
  {
    State(s.now, s.peers[k := s.peers[k].Clear()], s.idMap - s.peers[k].Ids())
  }

  /** Some of the peers have been cleared. */
  ghost function AfterClearingSet(s: State, done: set<Key>): State {
    s.(peers := map k | k in s.peers :: if k in done then s.peers[k].Clear() else s.peers[k],
       idMap := s.idMap - (set k, id | k in s.peers && k in done && id in s.peers[k].Ids() :: id))
  }

  lemma ClearOneMore(s: State, done: set<Key>, k: Key)
    requires k in s.peers && k !in done
    ensures AfterClearing(AfterClearingSet(s, done), k) == AfterClearingSet(s, done + {k})
  {
    var s1, s2 := AfterClearing(AfterClearingSet(s, done), k), AfterClearingSet(s, done + {k});
    assert s1.peers == s2.peers;
    assert s1.idMap == s2.idMap;
  }

  lemma ClearedNone(s: State)
    ensures AfterClearingSet(s, {}) == s
  {
    assert AfterClearingSet(s, {}).peers == s.peers && AfterClearingSet(s, {}).idMap == s.idMap;
  }

  lemma ClearedAll(s: State)
    ensures AfterClearingSet(s, s.peers.Keys) == Next(s, ClearAll)
  {
    assert AfterClearingSet(s, s.peers.Keys).idMap == Next(s, ClearAll).idMap;
  }

  lemma EnqueueIsStep(s: State, k: Key, packet: Packet)
    requires k in s.peers
    ensures AfterEnqueue(s, k, packet) == Next(s, Enqueue(k, packet))
  {
    assert s.peers[k].Enqueue(packet, s.now).Ids() == s.peers[k].Ids();
  }

  lemma ClearPeerIsStep(s: State, k: Key)
    requires k in s.peers
    ensures AfterClearing(s, k) == Next(s, ClearPeer(k))
  {
    ClearedHoldsNothing(s.peers[k]);
  }

  // ----- all peers and the id map -----

  class WgSessions {
    var now: nat
    var peers: map<Key, Peer>
    var idMap: map<Id, Key>

    ghost function View(): State
      reads this, peers.Values
    {
      State(now, map k | k in peers :: peers[k].View(), idMap)
    }

    /** Every peer is under its own key, with room for its sessions. */
    ghost predicate Shape()
      reads this, peers.Values
    {
      forall k :: k in peers ==> peers[k].key == k && |peers[k].transports| <= MAX_TRANSPORTS
    }

    /** The shape, and the agreement of the id map and the order and timing of sessions. */
    ghost predicate Valid()
      reads this, peers.Values
    {
      Shape() && Invariant(View())
    }

    constructor ()
      ensures Valid() && View() == EMPTY
    {
      now, peers, idMap := 0, map[], map[];
    }

    /** An initiation that is authentic. The peer becomes a responder with a new session. */
    method HandleInit(k: Key, selfId: Id, timestamp: nat, answered: bool)
      requires Shape()
      modifies this`idMap, peers.Values
      ensures Shape() && View() == AfterInitiation(old(View()), k, selfId, timestamp, answered)
    {
      if k !in peers {
        return;
      }
      var peer := peers[k];
      if peer.lastHandshake.Some? && timestamp <= peer.lastHandshake.value {
        return;
      }
      if answered {
        RespondTo(k, selfId, timestamp);
      } else {
        peer.lastHandshake := Some(timestamp);
      }
    }

    method RespondTo(k: Key, selfId: Id, timestamp: nat)
      requires Shape() && k in peers
      modifies this`idMap, peers.Values
      ensures Shape()
      ensures var s := old(View()); var p := s.peers[k];
        View() == State(s.now, s.peers[k := p.(lastHandshake := Some(timestamp)).Respond(selfId, s.now)],
                        (s.idMap - (p.Evicted() + p.Pending()))[selfId := k])
    {
      var dropped := peers[k].Respond(selfId, timestamp, now);
      idMap := (idMap - dropped)[selfId := k];
    }

    /** A response that is authentic. */
    method HandleResp(selfId: Id) returns (toSend: seq<Packet>)
      requires Shape()
      modifies this`idMap, peers.Values
      ensures Shape() && View() == AfterResponse(old(View()), selfId)
      ensures toSend == if old(HasHandshake(selfId)) then old(peers[idMap[selfId]].queue) else []
    {
      if selfId !in idMap || idMap[selfId] !in peers {
        return [];
      }
      var k := idMap[selfId];
      var peer := peers[k];
      if peer.handshake != Some(selfId) {
        return [];
      }
      assert idMap[selfId := k] == idMap;
      idMap := idMap[selfId := k];
      var dropped;
      dropped, toSend := peer.Complete(selfId, now);
      idMap := idMap - dropped;
    }

    ghost predicate HasHandshake(id: Id)
      reads this, peers.Values
    {
      id in idMap && idMap[id] in peers && peers[idMap[id]].handshake == Some(id)
    }

    /** One round of the resend loop. The id is entered before the message is made. */
    method MakeInitiation(k: Key, id: Id, initiated: bool)
      requires Shape() && id !in idMap && k in peers
      modifies this`idMap, peers.Values
      ensures Shape() && View() == AfterSending(old(View()), k, id, initiated)
    {
      if !peers[k].hasEndpoint {
        return;
      }
      ghost var s := View();
      idMap := idMap[id := k];
      if !initiated {
        idMap := idMap - {id};
        assert idMap == s.idMap;
      } else {
        assert View() == s.(idMap := s.idMap[id := k]);
        ReplaceHandshake(k, id);
      }
    }

    method ReplaceHandshake(k: Key, id: Id)
      requires Shape() && k in peers
      modifies this`idMap, peers.Values
      ensures Shape()
      ensures var s := old(View()); var p := s.peers[k];
        View() == State(s.now, s.peers[k := p.(handshake := Some(id))], s.idMap - p.Pending())
    {
      var dropped := peers[k].SetHandshake(id);
      idMap := idMap - dropped;
    }

    method StartOne(k: Key)
      requires Shape() && k in peers
      modifies peers.Values
      ensures Shape() && View() == AfterStart(old(View()), k)
    {
      peers[k].StartHandshake(now);
    }

    /** The stop-handshake timer goes off. */
    method StopOne(k: Key)
      requires Shape() && k in peers
      modifies this`idMap, peers.Values
      ensures Shape() && View() == AfterStop(old(View()), k)
    {
      var dropped := peers[k].ActStop();
      idMap := idMap - dropped;
    }

    /** The clear timer goes off. */
    method ClearOne(k: Key)
      requires Shape() && k in peers
      modifies this`idMap, peers.Values
      ensures Shape() && View() == AfterClear(old(View()), k)
    {
      var dropped := peers[k].ActClear();
      idMap := idMap - dropped;
    }

    method ForgetPeer(k: Key)
      requires Shape()
      modifies this, peers.Values
      ensures Shape() && View() == AfterRemove(old(View()), k)
    {
      if k !in peers {
        return;
      }
      var peer := peers[k];
      peers := peers - {k};
      assert forall k' :: k' in peers ==> peers[k'] != peer;
      var dropped := peer.Clear();
      idMap := idMap - dropped;
    }

    /** A packet for which there is no session. */
    method QueuePacket(k: Key, packet: Packet)
      requires Shape() && k in peers && |peers[k].queue| <= QUEUE_SIZE
      modifies peers.Values
      ensures Shape() && View() == AfterEnqueue(old(View()), k, packet)
    {
      peers[k].EnqueuePacket(packet, now);
    }

    method MakePeer(k: Key)
      requires Shape() && k !in peers
      modifies this`peers
      ensures Shape() && View() == old(View()).(peers := old(View()).peers[k := NEW_PEER])
    {
      var p := new Peer(k);
      peers := peers[k := p];
    }

    method ClearAllOfPeer(k: Key)
      requires Shape() && k in peers
      modifies this`idMap, peers.Values
      ensures Shape() && View() == AfterClearing(old(View()), k)
    {
      var dropped := peers[k].Clear();
      idMap := idMap - dropped;
    }

    /** Clears all peers, in any order. */
    method ClearEveryPeer()
      requires Shape()
      modifies this`idMap, peers.Values
      ensures Shape() && View() == AfterClearingSet(old(View()), old(View()).peers.Keys)
    {
      var todo := peers.Keys;
      ghost var s, done: set<Key> := View(), {};
      ClearedNone(s);
      while todo != {}
        invariant done + todo == s.peers.Keys == peers.Keys && done !! todo && Shape()
        invariant View() == AfterClearingSet(s, done)
        decreases todo
      {
        var k :| k in todo;
        ClearOneMore(s, done, k);
        ClearAllOfPeer(k);
        todo, done := todo - {k}, done + {k};
      }
    }

    /** Finding the peer of an id: the live peer that has the handshake or a session of that id. */
    method FindPeerById(id: Id) returns (p: Option<Peer>)
      requires Valid()
      ensures p.Some? <==> exists k :: k in peers && HasId(peers[k], id)
      ensures p.Some? ==> p.value.key in peers && peers[p.value.key] == p.value && HasId(p.value, id)
    {
      forall k ensures Get(idMap, id) == Some(k) <==> k in peers && HasId(peers[k], id) {
        InvariantMeaning(View(), id, k);
      }
      if id in idMap {
        assert Get(idMap, id) == Some(idMap[id]);
        p := Some(peers[idMap[id]]);
      } else {
        p := None;
      }
    }

    ghost predicate HasId(p: Peer, id: Id)
      reads p
    {
      p.handshake == Some(id) || exists i :: 0 <= i < |p.transports| && p.transports[i].id == id
    }

    // ----- the handlers -----

    /** An initiation that is authentic. The peer becomes a responder with a new session. */
    method ProcessHandshakeInit(k: Key, selfId: Id, timestamp: nat, answered: bool)
      requires Valid() && selfId !in idMap
      modifies this`idMap, peers.Values
      ensures Valid() && View() == Next(old(View()), GetInitiation(k, selfId, timestamp, answered))
      ensures k in old(peers) && old(peers[k].lastHandshake).Some? && timestamp <= old(peers[k].lastHandshake).value ==>
        View() == old(View())
      ensures Initiated(old(View()), View(), k, selfId, timestamp, answered)
    {
      ghost var s := View();
      InitiationMeaning(s, k, selfId, timestamp, answered);
      InitiationIsStep(s, k, selfId, timestamp, answered);
      StepKeeps(s, GetInitiation(k, selfId, timestamp, answered));
      HandleInit(k, selfId, timestamp, answered);
    }

    /** A response that is authentic. Returns the packets to send. */
    method ProcessHandshakeResp(selfId: Id) returns (toSend: seq<Packet>)
      requires Valid()
      modifies this`idMap, peers.Values
      ensures Valid() && View() == Next(old(View()), GetResponse(selfId))
      ensures Responded(old(View()), View(), selfId)
      ensures toSend == if old(HasHandshake(selfId)) then old(peers[idMap[selfId]].queue) else []
    {
      ghost var s := View();
      ResponseMeaning(s, selfId);
      ResponseIsStep(s, selfId);
      StepKeeps(s, GetResponse(selfId));
      toSend := HandleResp(selfId);
    }

    /** One round of the resend loop. */
    method SendInitiation(k: Key, id: Id, initiated: bool)
      requires Valid() && Enabled(View(), Step.SendInitiation(k, id, initiated))
      modifies this`idMap, peers.Values
      ensures Valid() && View() == Next(old(View()), Step.SendInitiation(k, id, initiated))
      ensures Sent(old(View()), View(), k, id, initiated)
    {
      ghost var s := View();
      SendingMeaning(s, k, id, initiated);
      SendingIsStep(s, k, id, initiated);
      StepKeeps(s, Step.SendInitiation(k, id, initiated));
      MakeInitiation(k, id, initiated);
    }

    /** Starts a handshake. */
    method DoHandshake(k: Key)
      requires Valid() && k in peers
      modifies peers.Values
      ensures Valid() && View() == Next(old(View()), StartHandshake(k))
      ensures OnlyPeer(old(View()), View(), k) && Started(old(View()).peers[k], View().peers[k], now)
    {
      ghost var s := View();
      PeerStepsMeaning(s, k, []);
      StartIsStep(s, k);
      StepKeeps(s, StartHandshake(k));
      StartOne(k);
    }

    /** The stop-handshake timer goes off. */
    method StopHandshake(k: Key)
      requires Valid() && Enabled(View(), ActStop(k))
      modifies this`idMap, peers.Values
      ensures Valid() && View() == Next(old(View()), ActStop(k))
      ensures OnlyPeer(old(View()), View(), k) && Stopped(old(View()).peers[k], View().peers[k])
    {
      ghost var s := View();
      TimersMeaning(s, k);
      StopIsStep(s, k);
      StepKeeps(s, ActStop(k));
      StopOne(k);
    }

    /** The clear timer goes off. */
    method ClearAction(k: Key)
      requires Valid() && Enabled(View(), ActClear(k))
      modifies this`idMap, peers.Values
      ensures Valid() && View() == Next(old(View()), ActClear(k))
      ensures OnlyPeer(old(View()), View(), k) && Cleared(old(View()).peers[k], View().peers[k])
    {
      ghost var s := View();
      TimersMeaning(s, k);
      ClearIsStep(s, k);
      StepKeeps(s, ActClear(k));
      ClearOne(k);
    }

    /** Removes a peer, if there is one, with everything it holds. */
    method RemovePeer(k: Key)
      requires Valid()
      modifies this, peers.Values
      ensures Valid() && View() == Next(old(View()), Step.RemovePeer(k))
      ensures View().peers == old(View()).peers - {k}
    {
      ghost var s := View();
      RemoveIsStep(s, k);
      StepKeeps(s, Step.RemovePeer(k));
      ForgetPeer(k);
    }

    /** A packet for which there is no session. */
    method EnqueuePacket(k: Key, packet: Packet)
      requires Valid() && k in peers
      modifies peers.Values
      ensures Valid() && View() == Next(old(View()), Enqueue(k, packet))
      ensures OnlyPeer(old(View()), View(), k) && Queued(old(View()).peers[k], View().peers[k], packet, now)
    {
      ghost var s := View();
      PeerStepsMeaning(s, k, packet);
      EnqueueIsStep(s, k, packet);
      StepKeeps(s, Enqueue(k, packet));
      assert SessionsOk(s.peers[k], s.now);
      QueuePacket(k, packet);
    }

    /** Nothing happens if there is such a peer already. */
    method AddPeer(k: Key)
      requires Valid()
      modifies this`peers
      ensures Valid() && View() == Next(old(View()), Step.AddPeer(k))
      ensures k in old(peers) ==> View() == old(View())
      ensures k !in old(peers) ==> View().peers == old(View()).peers[k := View().peers[k]]
      ensures k !in old(peers) ==> View().peers[k].lastHandshake == None && View().peers[k].Ids() == {}
    {
      ghost var s := View();
      StepKeeps(s, Step.AddPeer(k));
      if k !in peers {
        MakePeer(k);
      }
    }

    /** A new preshared key clears the peer. */
    method SetPsk(k: Key)
      requires Valid() && k in peers
      modifies this`idMap, peers.Values
      ensures Valid() && View() == Next(old(View()), ClearPeer(k))
      ensures OnlyPeer(old(View()), View(), k) && Cleared(old(View()).peers[k], View().peers[k])
    {
      ghost var s := View();
      PeerStepsMeaning(s, k, []);
      ClearPeerIsStep(s, k);
      StepKeeps(s, ClearPeer(k));
      ClearAllOfPeer(k);
    }

    /** A new private key clears all peers, in any order. */
    method SetKey()
      requires Valid()
      modifies this`idMap, peers.Values
      ensures Valid() && View() == Next(old(View()), ClearAll)
      ensures View().peers.Keys == old(View()).peers.Keys
      ensures forall k :: k in old(View()).peers ==> Cleared(old(View()).peers[k], View().peers[k])
    {
      ghost var s := View();
      ClearAllMeaning(s);
      StepKeeps(s, ClearAll);
      ClearedAll(s);
      ClearEveryPeer();
    }
  }
}
