/** The peers of an interface, shared between the map of public keys and the routing tables, and
    the configuration operations on them. The handlers of the source hold the locks for the
    whole of each operation; here each operation is one atomic step. */
module WgState {
  import opened Bits
  import opened Wrappers
  import opened RoutingTables
  import opened PeerConfig

  class Peer {
    const publicKey: Pubkey
    var info: PeerInfo

    constructor (publicKey: Pubkey)
      ensures this.publicKey == publicKey && info == NEW_PEER
    {
      this.publicKey, info := publicKey, NEW_PEER;
    }
  }

  ghost predicate Owned(live: map<Pubkey, Peer>, peers: Peers, c: Cidr, p: Peer) {
    && p.publicKey in live && live[p.publicKey] == p
    && p.publicKey in peers && c in peers[p.publicKey].allowedIps
  }

  /** A route leads to a peer exactly if the peer is live and has it among its allowed IPs. */
  ghost predicate RoutesMatch(routes: map<Cidr, Peer>, live: map<Pubkey, Peer>, peers: Peers) {
    && (forall k :: k in peers <==> k in live)
    && (forall k :: k in live ==> live[k].publicKey == k)
    && (forall c :: c in routes ==> c.IsMasked() && Owned(live, peers, c, routes[c]))
    && forall k, c :: k in live && c in peers[k].allowedIps ==> Get(routes, c) == Some(live[k])
  }

  lemma MatchingIsConsistent(routes: map<Cidr, Peer>, live: map<Pubkey, Peer>, peers: Peers)
    requires RoutesMatch(routes, live, peers)
    ensures Consistent(peers)
  {
    forall k, c | k in peers && c in peers[k].allowedIps ensures c.IsMasked() {
      assert Get(routes, c) == Some(live[k]);
    }
    forall k1, k2 | k1 in peers && k2 in peers && k1 != k2
      ensures peers[k1].allowedIps !! peers[k2].allowedIps
    {
      assert forall c :: c in peers[k1].allowedIps ==> Get(routes, c) == Some(live[k1]);
      assert forall c :: c in peers[k2].allowedIps ==> Get(routes, c) == Some(live[k2]);
    }
  }

  lemma RoutesAfterAdd(routes: map<Cidr, Peer>, live: map<Pubkey, Peer>, peers: Peers, p: Peer)
    requires RoutesMatch(routes, live, peers) && p.publicKey !in live
    ensures RoutesMatch(routes, live[p.publicKey := p], PeerConfig.AddPeer(peers, p.publicKey))
  {
    var live', peers' := live[p.publicKey := p], PeerConfig.AddPeer(peers, p.publicKey);
    forall c | c in routes ensures Owned(live', peers', c, routes[c]) {
      assert Owned(live, peers, c, routes[c]);
    }
  }

  lemma RoutesAfterRemove(routes: map<Cidr, Peer>, live: map<Pubkey, Peer>, peers: Peers, k: Pubkey)
    requires RoutesMatch(routes, live, peers) && k in live
    ensures RoutesMatch(routes - peers[k].allowedIps, live - {k}, PeerConfig.RemovePeer(peers, k))
  {
    var routes' := routes - peers[k].allowedIps;
    var live', peers' := live - {k}, PeerConfig.RemovePeer(peers, k);
    forall c | c in routes' ensures c.IsMasked() && Owned(live', peers', c, routes'[c]) {
      assert Owned(live, peers, c, routes[c]);
    }
    forall k', c | k' in live' && c in peers'[k'].allowedIps ensures Get(routes', c) == Some(live'[k']) {
      assert Get(routes, c) == Some(live[k']);
    }
  }

  /** The routes after a peer has been given its allowed IPs. */
  ghost function RoutesSet(routes: map<Cidr, Peer>, p: Peer, own: set<Cidr>, ips: set<Cidr>, replace: bool): map<Cidr, Peer> {
    Given(if replace then routes - (own - ips) else routes, ips - own, p)
  }

  lemma RoutesAfterSet(routes: map<Cidr, Peer>, live: map<Pubkey, Peer>, peers: Peers, s: SetPeerCommand)
    requires RoutesMatch(routes, live, peers) && s.publicKey in live && s.Ok()
    ensures RoutesMatch(RoutesSet(routes, live[s.publicKey], peers[s.publicKey].allowedIps,
                                  MaskAll(s.allowedIps), s.replaceAllowedIps),
                        live, SetPeer(peers, s))
  {
    var key, ips := s.publicKey, MaskAll(s.allowedIps);
    var p, own := live[key], peers[key].allowedIps;
    var routes', peers' := RoutesSet(routes, p, own, ips, s.replaceAllowedIps), SetPeer(peers, s);
    MaskAllMasked(s.allowedIps);
    forall c | c in routes' ensures c.IsMasked() && Owned(live, peers', c, routes'[c]) {
      if c !in ips - own {
        assert Owned(live, peers, c, routes[c]);
        assert c in own ==> Get(routes, c) == Some(p);
      }
    }
    forall k, c | k in live && c in peers'[k].allowedIps ensures Get(routes', c) == Some(live[k]) {
      if k != key {
        assert Get(routes, c) == Some(live[k]);
        assert c in own ==> Get(routes, c) == Some(p);
      } else if c in own {
        assert Get(routes, c) == Some(p);
      }
    }
  }

  /** The displaced owners are other live peers, and once they are stripped of the displaced
      routes no other peer has a route that was given away. */
  lemma OldOwners(routes: map<Cidr, Peer>, live: map<Pubkey, Peer>, peers: Peers, s: SetPeerCommand,
                  displaced: seq<(Peer, Cidr)>)
    requires RoutesMatch(routes, live, peers) && s.publicKey in live && s.Ok()
    requires var own, ips := peers[s.publicKey].allowedIps, MaskAll(s.allowedIps);
             IsDisplaced(displaced, if s.replaceAllowedIps then routes - (own - ips) else routes, ips - own)
    ensures forall i :: 0 <= i < |displaced| ==>
      var (q, c) := displaced[i];
      q != live[s.publicKey] && q in live.Values && q.publicKey in peers && live[q.publicKey] == q
      && c in peers[q.publicKey].allowedIps
    ensures forall k :: k in live && k != s.publicKey ==>
      Stripped(live[k], peers[k], displaced) == peers[k].(allowedIps := peers[k].allowedIps - MaskAll(s.allowedIps))
    ensures forall info :: Stripped(live[s.publicKey], info, displaced) == info
  {
    var p, own, ips := live[s.publicKey], peers[s.publicKey].allowedIps, MaskAll(s.allowedIps);
    var routes0 := if s.replaceAllowedIps then routes - (own - ips) else routes;
    forall i | 0 <= i < |displaced|
      ensures displaced[i].0 != p && displaced[i].0.publicKey in live
      ensures Owned(live, peers, displaced[i].1, displaced[i].0)
    {
      var (q, c) := displaced[i];
      assert Get(routes, c) == Some(q) && Owned(live, peers, c, routes[c]);
    }
    forall k | k in live && k != s.publicKey
      ensures Stripped(live[k], peers[k], displaced).allowedIps == peers[k].allowedIps - ips
    {
      forall c | c in peers[k].allowedIps ensures (live[k], c) in displaced <==> c in ips {
        assert Get(routes, c) == Some(live[k]);
        assert c in own ==> Get(routes, c) == Some(p);
        assert Get(routes0, c) == Some(live[k]);
        if (live[k], c) in displaced {
          var i :| 0 <= i < |displaced| && displaced[i] == (live[k], c);
          assert displaced[i].1 in ips - own;
        }
      }
    }
    forall info ensures Stripped(p, info, displaced) == info {
      assert Stripped(p, info, displaced).allowedIps == info.allowedIps;
    }
  }

  class WgState {
    const tables: RoutingTables<Peer>
    var pubkeyMap: map<Pubkey, Peer>

    ghost predicate Valid()
      reads this, tables, tables.Repr, pubkeyMap.Values
    {
      && tables.Valid()
      && PeersValid()
      && RoutesMatch(tables.routes, pubkeyMap, View())
    }

    ghost predicate PeersValid()
      reads this, tables
    {
      this !in tables.Repr && forall k :: k in pubkeyMap ==> pubkeyMap[k] !in tables.Repr
    }

    /** The settings of all peers. */
    ghost function View(): Peers
      reads this, pubkeyMap.Values
    {
      map k | k in pubkeyMap :: pubkeyMap[k].info
    }

    lemma ValidIsConsistent()
      requires Valid()
      ensures Consistent(View())
    {
      MatchingIsConsistent(tables.routes, pubkeyMap, View());
    }

    constructor ()
      ensures Valid() && fresh(tables) && fresh(tables.Repr) && View() == map[]
    {
      tables := new RoutingTables();
      pubkeyMap := map[];
    }

    /** Fails if the key is already taken. */
    method AddPeer(k: Pubkey) returns (ok: bool)
      requires Valid()
      modifies this
      ensures Valid() && tables.Repr == old(tables.Repr)
      ensures ok <==> k !in old(View())
      ensures View() == if ok then PeerConfig.AddPeer(old(View()), k) else old(View())
      ensures ok ==> View() == old(View())[k := PeerInfo(None, None, 0, {}, true)]
      ensures ok ==> k in pubkeyMap && fresh(pubkeyMap[k]) && pubkeyMap == old(pubkeyMap)[k := pubkeyMap[k]]
      ensures !ok ==> pubkeyMap == old(pubkeyMap)
    {
      if k in pubkeyMap {
        return false;
      }
      ghost var peers := View();
      var p := new Peer(k);
      RoutesAfterAdd(tables.routes, pubkeyMap, peers, p);
      pubkeyMap := pubkeyMap[k := p];
      assert View() == PeerConfig.AddPeer(peers, k);
      return true;
    }

    /** Returns whether a peer is removed. */
    method RemovePeer(k: Pubkey) returns (removed: bool)
      requires Valid()
      modifies this, tables.Repr
      ensures Valid() && fresh(tables.Repr - old(tables.Repr))
      ensures removed <==> k in old(View())
      ensures View() == PeerConfig.RemovePeer(old(View()), k) == old(View()) - {k}
      ensures pubkeyMap == old(pubkeyMap) - {k}
    {
      if k !in pubkeyMap {
        assert View() - {k} == View() && pubkeyMap - {k} == pubkeyMap;
        return false;
      }
      MatchingIsConsistent(tables.routes, pubkeyMap, View());
      RoutesAfterRemove(tables.routes, pubkeyMap, View(), k);
      var p := pubkeyMap[k];
      pubkeyMap := pubkeyMap - {k};
      tables.RemoveAll(p.info.allowedIps);
      assert View() == old(View()) - {k};
      return true;
    }

    method RemoveAllPeers()
      requires Valid()
      modifies this, tables.Repr
      ensures Valid() && fresh(tables.Repr - old(tables.Repr))
      ensures View() == map[] && pubkeyMap == map[]
    {
      var todo := pubkeyMap.Keys;
      while todo != {}
        invariant Valid() && fresh(tables.Repr - old(tables.Repr)) && pubkeyMap.Keys == todo
        invariant pubkeyMap.Values <= old(pubkeyMap.Values)
        decreases todo
      {
        var k :| k in todo;
        var removed := RemovePeer(k);
        todo := todo - {k};
      }
    }

    /** Fails if there is no such peer. */
    method SetPeer(s: SetPeerCommand) returns (ok: bool)
      requires Valid() && s.Ok()
      modifies pubkeyMap.Values, tables.Repr
      ensures Valid() && fresh(tables.Repr - old(tables.Repr))
      ensures ok <==> s.publicKey in old(View())
      ensures View() == if ok then PeerConfig.SetPeer(old(View()), s) else old(View())
      ensures ok ==> View().Keys == old(View()).Keys && TakesSettings(old(View())[s.publicKey], View()[s.publicKey], s)
      ensures ok ==> forall c :: c in View()[s.publicKey].allowedIps <==> TakesRoute(old(View())[s.publicKey], s, c)
      ensures ok ==> forall k :: k in old(View()) && k != s.publicKey ==> LosesRoutes(old(View())[k], View()[k], s)
    {
      if s.publicKey !in pubkeyMap {
        return false;
      }
      SetPeerMeaning(View(), s);
      var p := pubkeyMap[s.publicKey];
      ghost var routes, peers := tables.routes, View();
      RoutesAfterSet(routes, pubkeyMap, peers, s);
      MatchingIsConsistent(routes, pubkeyMap, peers);
      var displaced := MoveRoutes(p, s);
      assert View() == peers;
      OldOwners(routes, pubkeyMap, peers, s, displaced);
      ChangePeers(s, displaced);
      return true;
    }

    /** The peer gets its settings, and the displaced owners lose the routes that it takes over. */
    method ChangePeers(s: SetPeerCommand, displaced: seq<(Peer, Cidr)>)
      requires s.publicKey in pubkeyMap && s.Ok()
      requires var p := pubkeyMap[s.publicKey];
        && (forall i :: 0 <= i < |displaced| ==>
              displaced[i].0 in pubkeyMap.Values - {p} && displaced[i].1 in displaced[i].0.info.allowedIps)
        && (forall k :: k in pubkeyMap && k != s.publicKey ==> pubkeyMap[k] != p)
        && (forall info :: Stripped(p, info, displaced) == info)
      requires forall i, j :: 0 <= i < j < |displaced| ==> displaced[i].1 != displaced[j].1
      requires forall k :: k in pubkeyMap && k != s.publicKey ==>
        var info := pubkeyMap[k].info;
        Stripped(pubkeyMap[k], info, displaced) == info.(allowedIps := info.allowedIps - MaskAll(s.allowedIps))
      modifies pubkeyMap.Values
      ensures View() == PeerConfig.SetPeer(old(View()), s)
    {
      SetFields(pubkeyMap[s.publicKey], s);
      StripOthers(displaced, pubkeyMap.Values);
    }

    /** Gives the peer's new allowed IPs to it in the routing tables. */
    method MoveRoutes(p: Peer, s: SetPeerCommand) returns (displaced: seq<(Peer, Cidr)>)
      requires tables.Valid() && PeersValid() && s.Ok() && p !in tables.Repr
      requires forall c :: c in p.info.allowedIps ==> c.IsMasked()
      modifies tables.Repr
      ensures tables.Valid() && PeersValid() && fresh(tables.Repr - old(tables.Repr))
      ensures p.info == old(p.info)
      ensures var own, ips := p.info.allowedIps, MaskAll(s.allowedIps);
        && tables.routes == RoutesSet(old(tables.routes), p, own, ips, s.replaceAllowedIps)
        && IsDisplaced(displaced,
             if s.replaceAllowedIps then old(tables.routes) - (own - ips) else old(tables.routes), ips - own)
    {
      var ips, own := MaskAll(s.allowedIps), p.info.allowedIps;
      MaskAllMasked(s.allowedIps);
      if s.replaceAllowedIps {
        tables.RemoveAll(own - ips);
      }
      displaced := tables.InsertAll(ips - own, p);
    }

    /** Finds the peer that an address is routed to: the live peer that has the longest matching
        prefix among its allowed IPs. */
    method FindPeerByIp(v4: bool, addr: Word) returns (p: Option<Peer>)
      requires Valid() && |addr| == (if v4 then 32 else 128)
      ensures p.None? ==> forall k, c :: k in pubkeyMap && c in pubkeyMap[k].info.allowedIps ==> !Matches(c, v4, addr)
      ensures p.Some? ==> p.value.publicKey in pubkeyMap && pubkeyMap[p.value.publicKey] == p.value
      ensures p.Some? ==> exists c :: c in p.value.info.allowedIps && Matches(c, v4, addr) && LongestOf(c, v4, addr)
    {
      p := tables.Find(v4, addr);
      if p.Some? {
        ghost var c :| BestRoute(tables.routes, v4, addr, c) && tables.routes[c] == p.value;
        assert Owned(pubkeyMap, View(), c, p.value);
        forall k, c' | k in pubkeyMap && c' in pubkeyMap[k].info.allowedIps && Matches(c', v4, addr)
          ensures c'.len <= c.len
        {
          assert c' in View()[k].allowedIps && Get(tables.routes, c') == Some(pubkeyMap[k]);
        }
        assert LongestOf(c, v4, addr);
      } else {
        forall k, c | k in pubkeyMap && c in pubkeyMap[k].info.allowedIps ensures !Matches(c, v4, addr) {
          assert c in View()[k].allowedIps && Get(tables.routes, c) == Some(pubkeyMap[k]);
        }
      }
    }

    /** No matching allowed IP of any peer is longer than `c`. */
    ghost predicate LongestOf(c: Cidr, v4: bool, addr: Word)
      reads this, pubkeyMap.Values
    {
      forall k, c' :: k in pubkeyMap && c' in pubkeyMap[k].info.allowedIps && Matches(c', v4, addr) ==> c'.len <= c.len
    }

    /** The peer's own settings. */
    method SetFields(p: Peer, s: SetPeerCommand)
      requires s.Ok()
      modifies p
      ensures p.info == NewInfo(old(p.info), s)
    {
      if p.info.psk != s.presharedKey {
        p.info := p.info.(psk := s.presharedKey);
      }
      if s.endpoint.Some? {
        if p.info.endpoint != s.endpoint {
          p.info := p.info.(endpoint := s.endpoint);
        }
        p.info := p.info.(roaming := false);
      }
      if s.keepalive.Some? {
        if p.info.keepalive != s.keepalive.value {
          p.info := p.info.(keepalive := s.keepalive.value);
        }
      }
      var ips := MaskAll(s.allowedIps);
      p.info := p.info.(allowedIps := if s.replaceAllowedIps then ips else p.info.allowedIps + ips);
    }
  }

  /** Takes routes away from their old owners, who all have them. */
  method StripOthers(displaced: seq<(Peer, Cidr)>, ghost owners: set<Peer>)
    requires forall i :: 0 <= i < |displaced| ==>
      displaced[i].0 in owners && displaced[i].1 in displaced[i].0.info.allowedIps
    requires forall i, j :: 0 <= i < j < |displaced| ==> displaced[i].1 != displaced[j].1
    modifies owners
    ensures forall q :: q in owners ==> q.info == Stripped(q, old(q.info), displaced)
  {
    for i := 0 to |displaced|
      invariant forall q :: q in owners ==> q.info == Stripped(q, old(q.info), displaced[..i])
    {
      var (q, c) := displaced[i];
      assert c in q.info.allowedIps;
      q.info := q.info.(allowedIps := q.info.allowedIps - {c});
    }
    assert displaced[..|displaced|] == displaced;
  }

  ghost function Stripped(q: Peer, info: PeerInfo, displaced: seq<(Peer, Cidr)>): PeerInfo {
    info.(allowedIps := set c | c in info.allowedIps && (q, c) !in displaced)
  }
}
