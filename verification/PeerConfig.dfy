/** Peer settings as values: what each configuration command does to the settings of all peers,
    the consistency of their allowed IPs, and runs of commands. Module `WgState` is proved to do
    this to the shared peers and the routing tables. */
module PeerConfig {
  import opened LittleEndian
  import opened Wrappers
  import opened RoutingTables

  type Pubkey = seq<Byte>
  type Psk = seq<Byte>
  // A socket address in its IPv6 form.
  type Endpoint = (seq<bool>, nat)

  /** `keepalive` is zero if persistent keepalive is off. */
  datatype PeerInfo = PeerInfo(
    psk: Option<Psk>, endpoint: Option<Endpoint>, keepalive: nat, allowedIps: set<Cidr>, roaming: bool)

  const NEW_PEER := PeerInfo(None, None, 0, {}, true)

  type Peers = map<Pubkey, PeerInfo>

  datatype SetPeerCommand = SetPeerCommand(
    publicKey: Pubkey, presharedKey: Option<Psk>, endpoint: Option<Endpoint>, keepalive: Option<nat>,
    replaceAllowedIps: bool, allowedIps: set<Cidr>)
  {
    /** The parsers only let through prefix lengths that fit the address. */
    ghost predicate Ok() {
      AllOk(allowedIps)
    }
  }

  ghost predicate AllOk(ips: set<Cidr>) {
    forall c :: c in ips ==> c.Ok()
  }

  function MaskAll(ips: set<Cidr>): set<Cidr>
    requires AllOk(ips)
  {
    set c | c in ips :: c.Masked()
  }

  lemma MaskAllMasked(ips: set<Cidr>)
    requires AllOk(ips)
    ensures forall c :: c in MaskAll(ips) ==> c.IsMasked()
  {
    forall c | c in ips ensures c.Masked().IsMasked() {
      MaskedIsMasked(c);
    }
  }

  lemma MaskAllOfMasked(ips: set<Cidr>)
    requires AllOk(ips) && forall c :: c in ips ==> c.IsMasked()
    ensures MaskAll(ips) == ips
  {
    forall c | c in ips ensures c in MaskAll(ips) {
      assert c == c.Masked();
    }
  }

  // ----- the commands -----

  function NewInfo(old_: PeerInfo, c: SetPeerCommand): PeerInfo
    requires c.Ok()
  {
    PeerInfo(
      c.presharedKey,
      if c.endpoint.Some? then c.endpoint else old_.endpoint,
      if c.keepalive.Some? then c.keepalive.value else old_.keepalive,
      if c.replaceAllowedIps then MaskAll(c.allowedIps) else old_.allowedIps + MaskAll(c.allowedIps),
      old_.roaming && c.endpoint.None?)
  }

  /** The peer gets its settings; the other peers lose the routes that it takes over. */
  ghost function SetPeer(peers: Peers, c: SetPeerCommand): Peers
    requires c.publicKey in peers && c.Ok()
  {
    map k | k in peers ::
      if k == c.publicKey then NewInfo(peers[k], c)
      else peers[k].(allowedIps := peers[k].allowedIps - MaskAll(c.allowedIps))
  }

  function AddPeer(peers: Peers, k: Pubkey): Peers
    requires k !in peers
  {
    peers[k := NEW_PEER]
  }

  function RemovePeer(peers: Peers, k: Pubkey): Peers {
    peers - {k}
  }

  /** Setting by setting: the preshared key is always replaced; an endpoint and an interval that are
      not given stay as they are; a given endpoint ends roaming. */
  ghost predicate TakesSettings(was: PeerInfo, info: PeerInfo, s: SetPeerCommand) {
    && info.psk == s.presharedKey
    && (s.endpoint.Some? ==> info.endpoint == s.endpoint && !info.roaming)
    && (s.endpoint.None? ==> info.endpoint == was.endpoint && info.roaming == was.roaming)
    && (s.keepalive.Some? ==> info.keepalive == s.keepalive.value)
    && (s.keepalive.None? ==> info.keepalive == was.keepalive)
  }

  /** The allowed IPs that a peer gets: the given ones after masking, in addition to the old ones
      unless these are to be replaced. */
  ghost predicate TakesRoute(was: PeerInfo, s: SetPeerCommand, c: Cidr)
    requires s.Ok()
  {
    GivenRoute(s.allowedIps, c) || (!s.replaceAllowedIps && c in was.allowedIps)
  }

  /** A route is given if it is one of the allowed IPs after masking. */
  ghost predicate GivenRoute(ips: set<Cidr>, c: Cidr)
    requires AllOk(ips)
  {
    exists a :: a in ips && a.Masked() == c
  }

  /** Another peer only loses routes, namely those that are given. */
  ghost predicate LosesRoutes(was: PeerInfo, info: PeerInfo, s: SetPeerCommand)
    requires s.Ok()
  {
    && info == was.(allowedIps := info.allowedIps)
    && forall c :: c in info.allowedIps <==> c in was.allowedIps && !GivenRoute(s.allowedIps, c)
  }

  lemma SetPeerMeaning(peers: Peers, s: SetPeerCommand)
    requires s.publicKey in peers && s.Ok()
    ensures SetPeer(peers, s).Keys == peers.Keys
    ensures TakesSettings(peers[s.publicKey], SetPeer(peers, s)[s.publicKey], s)
    ensures forall c :: c in SetPeer(peers, s)[s.publicKey].allowedIps <==> TakesRoute(peers[s.publicKey], s, c)
    ensures forall k :: k in peers && k != s.publicKey ==> LosesRoutes(peers[k], SetPeer(peers, s)[k], s)
  {}

  /** A new peer has no settings and no routes, and roams; the others stay as they are. */
  lemma AddPeerMeaning(peers: Peers, k: Pubkey)
    requires k !in peers
    ensures var info := AddPeer(peers, k)[k];
      && info.psk == None && info.endpoint == None && info.keepalive == 0 && info.allowedIps == {} && info.roaming
    ensures AddPeer(peers, k).Keys == peers.Keys + {k}
    ensures forall d :: d in peers ==> AddPeer(peers, k)[d] == peers[d]
  {}

  // ----- consistency -----

  /** Allowed IPs are masked, and no two peers share one. */
  ghost predicate Consistent(peers: Peers) {
    && (forall k, c :: k in peers && c in peers[k].allowedIps ==> c.IsMasked())
    && forall k1, k2 :: k1 in peers && k2 in peers && k1 != k2 ==>
         peers[k1].allowedIps !! peers[k2].allowedIps
  }

  lemma SetPeerKeepsConsistent(peers: Peers, c: SetPeerCommand)
    requires Consistent(peers) && c.publicKey in peers && c.Ok()
    ensures Consistent(SetPeer(peers, c))
  {
    MaskAllMasked(c.allowedIps);
    var peers' := SetPeer(peers, c);
    forall k1, k2 | k1 in peers' && k2 in peers' && k1 != k2
      ensures peers'[k1].allowedIps !! peers'[k2].allowedIps
    {
      assert peers[k1].allowedIps !! peers[k2].allowedIps;
    }
  }

  datatype Command =
    | Add(key: Pubkey)
    | Set(set_: SetPeerCommand)
    | Remove(key: Pubkey)
    | RemoveAll

  /** Commands for missing peers, and adding a peer twice, change nothing. */
  ghost function Do(peers: Peers, c: Command): Peers
    requires c.Set? ==> c.set_.Ok()
  {
    match c
    case Add(k) => if k in peers then peers else AddPeer(peers, k)
    case Set(s) => if s.publicKey in peers then SetPeer(peers, s) else peers
    case Remove(k) => RemovePeer(peers, k)
    case RemoveAll => map[]
  }

  ghost predicate CommandsOk(cs: seq<Command>) {
    forall i :: 0 <= i < |cs| ==> cs[i].Set? ==> cs[i].set_.Ok()
  }

  ghost function Run(cs: seq<Command>): Peers
    requires CommandsOk(cs)
  {
    if cs == [] then map[] else Do(Run(cs[..|cs| - 1]), cs[|cs| - 1])
  }

  /** Every run of commands keeps the allowed IPs disjoint: a route has at most one owner. */
  lemma {:induction false} RunConsistent(cs: seq<Command>)
    requires CommandsOk(cs)
    ensures Consistent(Run(cs))
  {
    if cs != [] {
      var before, c := cs[..|cs| - 1], cs[|cs| - 1];
      RunConsistent(before);
      if c.Set? && c.set_.publicKey in Run(before) {
        SetPeerKeepsConsistent(Run(before), c.set_);
      }
    }
  }

  /** The latest command that gives a route to a peer decides its owner. */
  lemma LastSetOwns(peers: Peers, s: SetPeerCommand, c: Cidr)
    requires Consistent(peers) && s.publicKey in peers && s.Ok() && c in s.allowedIps
    ensures var peers' := SetPeer(peers, s);
      && c.Masked() in peers'[s.publicKey].allowedIps
      && forall k :: k in peers' && k != s.publicKey ==> c.Masked() !in peers'[k].allowedIps
  {
    assert c.Masked() in MaskAll(s.allowedIps);
  }

  /** "Update if given": the key after the command is the given one, or else the one from before. */
  ghost predicate PskUpdatedIfGiven(peers: Peers, s: SetPeerCommand)
    requires s.publicKey in peers && s.Ok()
  {
    var k := s.publicKey;
    SetPeer(peers, s)[k].psk == if s.presharedKey.Some? then s.presharedKey else peers[k].psk
  }

  /** The code updates the preshared key in that sense exactly if a key is given or there is none
      to lose. */
  lemma PskUpdatedIfGivenIff(peers: Peers, s: SetPeerCommand)
    requires s.publicKey in peers && s.Ok()
    ensures PskUpdatedIfGiven(peers, s) <==> s.presharedKey.Some? || peers[s.publicKey].psk.None?
  {}

  /** A command that only sets the keepalive interval of a peer with a preshared key takes the key
      away from it. */
  lemma KeepaliveCommandLosesPsk(k: Pubkey, psk: Psk) returns (peers: Peers, s: SetPeerCommand)
    ensures peers == map[k := PeerInfo(Some(psk), None, 0, {}, true)]
    ensures s == SetPeerCommand(k, None, None, Some(25), false, {})
    ensures s.Ok() && SetPeer(peers, s) == map[k := PeerInfo(None, None, 25, {}, true)]
    ensures !PskUpdatedIfGiven(peers, s)
  {
    peers := map[k := PeerInfo(Some(psk), None, 0, {}, true)];
    s := SetPeerCommand(k, None, None, Some(25), false, {});
    assert MaskAll(s.allowedIps) == {};
    assert SetPeer(peers, s)[k] == PeerInfo(None, None, 25, {}, true);
  }
}
