/** The two ways in which a whole configuration is applied: a set request over IPC, and a reload
    of the configuration file, which removes, changes and adds peers until the interface has
    the configured ones. */
module Reload {
  import opened Wrappers
  import opened RoutingTables
  import opened PeerConfig
  import opened WgState

  // ----- the set request -----

  datatype SetRequestPeer = SetRequestPeer(remove: bool, settings: SetPeerCommand)

  /** What one entry of a request does. */
  ghost function ApplyEntry(peers: Peers, e: SetRequestPeer): Peers
    requires e.settings.Ok()
  {
    if e.remove then RemovePeer(peers, e.settings.publicKey)
    else
      var k := e.settings.publicKey;
      SetPeer(if k in peers then peers else AddPeer(peers, k), e.settings)
  }

  ghost predicate EntriesOk(entries: seq<SetRequestPeer>) {
    forall i :: 0 <= i < |entries| ==> entries[i].settings.Ok()
  }

  ghost function ApplyEntries(peers: Peers, entries: seq<SetRequestPeer>): Peers
    requires EntriesOk(entries)
  {
    if entries == [] then peers
    else ApplyEntry(ApplyEntries(peers, entries[..|entries| - 1]), entries[|entries| - 1])
  }

  /** A route that one of the entries from number `i` on gives to a peer. */
  ghost predicate GivenFrom(entries: seq<SetRequestPeer>, i: nat, c: Cidr)
    requires EntriesOk(entries)
  {
    exists j :: i <= j < |entries| && !entries[j].remove && GivenRoute(entries[j].settings.allowedIps, c)
  }

  /** A peer that the entries from number `i` on do not name only loses the routes that they give. */
  ghost predicate KeptFrom(before: Peers, after: Peers, entries: seq<SetRequestPeer>, i: nat, k: Pubkey)
    requires EntriesOk(entries)
  {
    && (k in after <==> k in before)
    && (k in after ==> after[k] == before[k].(allowedIps := after[k].allowedIps))
    && (k in after ==> forall c :: c in after[k].allowedIps <==> c in before[k].allowedIps && !GivenFrom(entries, i, c))
  }

  ghost predicate NotNamed(entries: seq<SetRequestPeer>, i: nat, k: Pubkey) {
    forall j :: i <= j < |entries| ==> entries[j].settings.publicKey != k
  }

  /** What the last entry for a peer decides: a removed peer is gone; any other one is there, with
      the settings and routes of the entry, except for the routes that later entries give away. */
  ghost predicate DecidedBy(before: Peers, after: Peers, entries: seq<SetRequestPeer>, i: nat)
    requires EntriesOk(entries) && i < |entries|
  {
    var s := entries[i].settings;
    var was := if s.publicKey in before then before[s.publicKey] else PeerInfo(None, None, 0, {}, true);
    if entries[i].remove then s.publicKey !in after
    else
      && s.publicKey in after && TakesSettings(was, after[s.publicKey], s)
      && forall c :: c in after[s.publicKey].allowedIps <==> TakesRoute(was, s, c) && !GivenFrom(entries, i + 1, c)
  }

  lemma {:induction false} UnnamedIsKept(peers: Peers, entries: seq<SetRequestPeer>, i: nat, k: Pubkey)
    requires EntriesOk(entries) && i <= |entries| && NotNamed(entries, i, k)
    ensures KeptFrom(ApplyEntries(peers, entries[..i]), ApplyEntries(peers, entries), entries, i, k)
    decreases |entries|
  {
    if i < |entries| {
      var n := |entries| - 1;
      var front := entries[..n];
      UnnamedIsKept(peers, front, i, k);
      assert front[..i] == entries[..i];
      assert forall c :: GivenFrom(entries, i, c) <==>
        GivenFrom(front, i, c) || (!entries[n].remove && GivenRoute(entries[n].settings.allowedIps, c));
    } else {
      assert entries[..i] == entries;
    }
  }

  /** The last entry for a peer decides what becomes of it; a peer without an entry is kept. */
  lemma LastEntryDecides(peers: Peers, entries: seq<SetRequestPeer>, i: nat)
    requires EntriesOk(entries) && i < |entries| && NotNamed(entries, i + 1, entries[i].settings.publicKey)
    ensures DecidedBy(ApplyEntries(peers, entries[..i]), ApplyEntries(peers, entries), entries, i)
  {
    UnnamedIsKept(peers, entries, i + 1, entries[i].settings.publicKey);
    assert entries[..i + 1][..i] == entries[..i];
  }

  /** The peers that the operations may touch: those of the start and new ones. */
  twostate predicate OnlyOldOrNew(wg: WgState)
    reads wg
  {
    forall p :: p in wg.pubkeyMap.Values ==> p in old(wg.pubkeyMap.Values) || fresh(p)
  }

  /** Adding a missing peer and setting an existing one never fail here. */
  method ProcessWgSet(wg: WgState, replacePeers: bool, entries: seq<SetRequestPeer>)
    requires wg.Valid() && EntriesOk(entries)
    modifies wg, wg.tables.Repr, wg.pubkeyMap.Values
    ensures wg.Valid() && fresh(wg.tables.Repr - old(wg.tables.Repr)) && OnlyOldOrNew(wg)
    ensures wg.View() == ApplyEntries(if replacePeers then map[] else old(wg.View()), entries)
    ensures forall k :: NotNamed(entries, 0, k) ==>
      KeptFrom(if replacePeers then map[] else old(wg.View()), wg.View(), entries, 0, k)
    ensures forall i :: 0 <= i < |entries| && NotNamed(entries, i + 1, entries[i].settings.publicKey) ==>
      DecidedBy(ApplyEntries(if replacePeers then map[] else old(wg.View()), entries[..i]), wg.View(), entries, i)
  {
    if replacePeers {
      wg.RemoveAllPeers();
    }
    ghost var start := wg.View();
    for i := 0 to |entries|
      invariant wg.Valid() && fresh(wg.tables.Repr - old(wg.tables.Repr)) && OnlyOldOrNew(wg)
      invariant wg.View() == ApplyEntries(start, entries[..i])
    {
      assert entries[..i + 1][..i] == entries[..i];
      ProcessEntry(wg, entries[i]);
    }
    assert entries[..|entries|] == entries && entries[..0] == [];
    forall k | NotNamed(entries, 0, k) ensures KeptFrom(start, wg.View(), entries, 0, k) {
      UnnamedIsKept(start, entries, 0, k);
    }
    forall i | 0 <= i < |entries| && NotNamed(entries, i + 1, entries[i].settings.publicKey)
      ensures DecidedBy(ApplyEntries(start, entries[..i]), wg.View(), entries, i)
    {
      LastEntryDecides(start, entries, i);
    }
  }

  method ProcessEntry(wg: WgState, e: SetRequestPeer)
    requires wg.Valid() && e.settings.Ok()
    modifies wg, wg.tables.Repr, wg.pubkeyMap.Values
    ensures wg.Valid() && fresh(wg.tables.Repr - old(wg.tables.Repr)) && OnlyOldOrNew(wg)
    ensures wg.View() == ApplyEntry(old(wg.View()), e)
  {
    var k := e.settings.publicKey;
    if e.remove {
      var _ := wg.RemovePeer(k);
      return;
    }
    if k !in wg.pubkeyMap {
      var added := wg.AddPeer(k);
      assert added;
    }
    var done := wg.SetPeer(e.settings);
    assert done;
  }

  // ----- the reload -----

  /** A peer of the configuration file; `keepalive` is zero if it is not given. */
  datatype PeerConf = PeerConf(
    publicKey: Pubkey, presharedKey: Option<Psk>, endpoint: Option<Endpoint>, allowedIps: set<Cidr>, keepalive: nat)

  ghost predicate ConfOk(m: map<Pubkey, PeerConf>) {
    forall k :: k in m ==> m[k].publicKey == k && AllOk(m[k].allowedIps)
  }

  /** The configured peers by key; the last one of those with the same key. */
  function ToMap(confs: seq<PeerConf>): map<Pubkey, PeerConf> {
    if confs == [] then map[]
    else ToMap(confs[..|confs| - 1])[confs[|confs| - 1].publicKey := confs[|confs| - 1]]
  }

  /** No later peer of the configuration has the same key. */
  ghost predicate IsLast(confs: seq<PeerConf>, i: nat)
    requires i < |confs|
  {
    forall j :: i < j < |confs| ==> confs[j].publicKey != confs[i].publicKey
  }

  lemma {:induction false} KeyIsTaken(confs: seq<PeerConf>, i: nat)
    requires i < |confs|
    ensures confs[i].publicKey in ToMap(confs)
  {
    if i < |confs| - 1 {
      KeyIsTaken(confs[..|confs| - 1], i);
    }
  }

  lemma {:induction false} LastOneIsTaken(confs: seq<PeerConf>, i: nat)
    requires i < |confs| && IsLast(confs, i)
    ensures confs[i].publicKey in ToMap(confs) && ToMap(confs)[confs[i].publicKey] == confs[i]
  {
    var front := confs[..|confs| - 1];
    if i < |front| {
      assert forall j :: i < j < |front| ==> front[j] == confs[j];
      LastOneIsTaken(front, i);
    }
  }

  lemma {:induction false} EveryKeyIsConfigured(confs: seq<PeerConf>, k: Pubkey) returns (i: nat)
    requires k in ToMap(confs)
    ensures i < |confs| && IsLast(confs, i) && confs[i].publicKey == k
  {
    i := |confs| - 1;
    if confs[i].publicKey != k {
      var n := i;
      i := EveryKeyIsConfigured(confs[..n], k);
      assert forall j :: i < j < n ==> confs[..n][j] == confs[j];
    }
  }

  /** Nothing to change, as the source compares the configuration with the current state. */
  predicate Unchanged(info: PeerInfo, c: PeerConf) {
    && c.presharedKey == info.psk
    && c.endpoint == info.endpoint
    && c.allowedIps == info.allowedIps
    && c.keepalive == info.keepalive
  }

  function ChangeCommand(c: PeerConf): SetPeerCommand {
    SetPeerCommand(c.publicKey, c.presharedKey, c.endpoint, Some(c.keepalive), true, c.allowedIps)
  }

  function AddCommand(c: PeerConf): SetPeerCommand {
    SetPeerCommand(c.publicKey, c.presharedKey, c.endpoint,
                   if c.keepalive == 0 then None else Some(c.keepalive), false, c.allowedIps)
  }

  /** What a configured peer is to become: its configured settings, except that an endpoint is
      kept when none is configured. */
  function Wanted(old_: Option<PeerInfo>, c: PeerConf): PeerInfo
    requires AllOk(c.allowedIps)
  {
    PeerInfo(
      c.presharedKey,
      if c.endpoint.Some? then c.endpoint else if old_.Some? then old_.value.endpoint else None,
      c.keepalive,
      MaskAll(c.allowedIps),
      if old_.Some? then old_.value.roaming && (Unchanged(old_.value, c) || c.endpoint.None?) else c.endpoint.None?)
  }

  /** Everything except the allowed IPs. */
  function Rest(info: PeerInfo): PeerInfo {
    info.(allowedIps := {})
  }

  ghost predicate IsWanted(info: PeerInfo, start: Peers, m: map<Pubkey, PeerConf>, k: Pubkey)
    requires ConfOk(m) && k in m
  {
    var w := Wanted(Get(start, k), m[k]);
    && Rest(info) == Rest(w)
    && info.allowedIps <= w.allowedIps
  }

  /** An existing peer that has not had its turn may have lost routes to those that have. */
  ghost predicate IsWaiting(info: PeerInfo, start: Peers, m: map<Pubkey, PeerConf>, k: Pubkey)
    requires ConfOk(m) && k in m && k in start
  {
    && Rest(info) == Rest(start[k])
    && info.allowedIps <= start[k].allowedIps
  }

  /** A route that one of the peers in `done` has. */
  ghost predicate Held(peers: Peers, done: set<Pubkey>, c: Cidr) {
    exists k :: k in done && k in peers && c in peers[k].allowedIps
  }

  /** Every route configured for a peer that has had its turn, and every route that another one has
      lost, is with a peer that has had its turn. */
  ghost predicate NothingLost(peers: Peers, start: Peers, m: map<Pubkey, PeerConf>, done: set<Pubkey>, todo: set<Pubkey>)
    requires ConfOk(m) && done <= m.Keys && todo <= start.Keys && todo <= peers.Keys
  {
    && (forall k, c :: k in done && c in MaskAll(m[k].allowedIps) ==> Held(peers, done, c))
    && (forall k, c :: k in todo && c in start[k].allowedIps ==> c in peers[k].allowedIps || Held(peers, done, c))
  }

  /** In the middle of the work on the peers in `todo`, those in `done` being as wanted. */
  ghost predicate Progress(peers: Peers, start: Peers, m: map<Pubkey, PeerConf>, done: set<Pubkey>, todo: set<Pubkey>) {
    && ConfOk(m)
    && peers.Keys == done + todo && done !! todo && done + todo <= m.Keys && todo <= start.Keys
    && (forall k :: k in done ==> IsWanted(peers[k], start, m, k))
    && (forall k :: k in todo ==> IsWaiting(peers[k], start, m, k))
    && NothingLost(peers, start, m, done, todo)
  }

  lemma UnchangedIsWanted(info: PeerInfo, start: Peers, m: map<Pubkey, PeerConf>, k: Pubkey)
    requires ConfOk(m) && Consistent(start) && k in m && k in start
    requires IsWaiting(info, start, m, k) && Unchanged(start[k], m[k])
    ensures IsWanted(info, start, m, k) && MaskAll(m[k].allowedIps) == start[k].allowedIps
  {
    MaskAllOfMasked(start[k].allowedIps);
  }

  /** Taking over routes for one configured peer does not disturb the others. */
  lemma OthersUndisturbed(peers: Peers, start: Peers, m: map<Pubkey, PeerConf>, k: Pubkey, s: SetPeerCommand, d: Pubkey)
    requires ConfOk(m) && k in m && d in m && d in peers && d != k
    requires s.publicKey == k && s.allowedIps == m[k].allowedIps && k in peers && s.Ok()
    ensures IsWanted(peers[d], start, m, d) ==> IsWanted(SetPeer(peers, s)[d], start, m, d)
    ensures d in start && IsWaiting(peers[d], start, m, d) ==> IsWaiting(SetPeer(peers, s)[d], start, m, d)
  {}

  /** A route that has been held stays held, and a route of the new command becomes held. */
  lemma HeldStays(peers: Peers, s: SetPeerCommand, done: set<Pubkey>, c: Cidr)
    requires s.publicKey in peers && s.publicKey !in done && s.Ok()
    requires Held(peers, done, c) || c in MaskAll(s.allowedIps)
    ensures Held(SetPeer(peers, s), done + {s.publicKey}, c)
  {
    var peers', k := SetPeer(peers, s), s.publicKey;
    if c in MaskAll(s.allowedIps) {
      assert c in peers'[k].allowedIps;
    } else {
      var o :| o in done && o in peers && c in peers[o].allowedIps;
      assert c in peers'[o].allowedIps;
    }
  }

  /** Setting one of the configured peers to its configuration loses no route. */
  lemma SetLosesNothing(peers: Peers, start: Peers, m: map<Pubkey, PeerConf>, done: set<Pubkey>, todo: set<Pubkey>,
                        k: Pubkey, s: SetPeerCommand)
    requires ConfOk(m) && k in m && done <= m.Keys && todo <= start.Keys && todo <= peers.Keys
    requires NothingLost(peers, start, m, done, todo) && k !in done
    requires s.publicKey == k && s.allowedIps == m[k].allowedIps && k in peers && s.Ok()
    ensures NothingLost(SetPeer(peers, s), start, m, done + {k}, todo - {k})
  {
    var peers' := SetPeer(peers, s);
    forall d, c | d in done + {k} && c in MaskAll(m[d].allowedIps) ensures Held(peers', done + {k}, c) {
      HeldStays(peers, s, done, c);
    }
    forall d, c | d in todo - {k} && c in start[d].allowedIps
      ensures c in peers'[d].allowedIps || Held(peers', done + {k}, c)
    {
      if c !in peers'[d].allowedIps {
        HeldStays(peers, s, done, c);
      }
    }
  }

  /** Leaving a peer as it is loses no route either. */
  lemma SkipLosesNothing(peers: Peers, start: Peers, m: map<Pubkey, PeerConf>, done: set<Pubkey>, todo: set<Pubkey>, k: Pubkey)
    requires Progress(peers, start, m, done, todo) && k in todo && MaskAll(m[k].allowedIps) == start[k].allowedIps
    ensures NothingLost(peers, start, m, done + {k}, todo - {k})
  {
    forall c | Held(peers, done, c) || c in peers[k].allowedIps ensures Held(peers, done + {k}, c) {
      if Held(peers, done, c) {
        var o :| o in done && o in peers && c in peers[o].allowedIps;
        assert o in done + {k};
      }
    }
  }

  lemma ChangeStep(peers: Peers, start: Peers, m: map<Pubkey, PeerConf>, done: set<Pubkey>, todo: set<Pubkey>, k: Pubkey)
    requires Progress(peers, start, m, done, todo) && Consistent(start) && k in todo
    ensures Unchanged(start[k], m[k]) ==> Progress(peers, start, m, done + {k}, todo - {k})
    ensures !Unchanged(start[k], m[k]) ==>
      Progress(SetPeer(peers, ChangeCommand(m[k])), start, m, done + {k}, todo - {k})
  {
    assert done + {k} + (todo - {k}) == done + todo;
    if Unchanged(start[k], m[k]) {
      UnchangedIsWanted(peers[k], start, m, k);
      SkipLosesNothing(peers, start, m, done, todo, k);
    } else {
      forall d | d in done + todo && d != k
        ensures d in done ==> IsWanted(SetPeer(peers, ChangeCommand(m[k]))[d], start, m, d)
        ensures d in todo ==> IsWaiting(SetPeer(peers, ChangeCommand(m[k]))[d], start, m, d)
      {
        OthersUndisturbed(peers, start, m, k, ChangeCommand(m[k]), d);
      }
      SetLosesNothing(peers, start, m, done, todo, k, ChangeCommand(m[k]));
    }
  }

  lemma AddStep(peers: Peers, start: Peers, m: map<Pubkey, PeerConf>, done: set<Pubkey>, k: Pubkey)
    requires Progress(peers, start, m, done, {}) && k in m && k !in done && k !in start
    ensures Progress(SetPeer(AddPeer(peers, k), AddCommand(m[k])), start, m, done + {k}, {})
  {
    var added := AddPeer(peers, k);
    var peers' := SetPeer(added, AddCommand(m[k]));
    assert peers'.Keys == done + {k};
    forall d | d in done ensures IsWanted(peers'[d], start, m, d) {
      assert added[d] == peers[d];
      OthersUndisturbed(added, start, m, k, AddCommand(m[k]), d);
    }
    assert {} + MaskAll(m[k].allowedIps) == MaskAll(m[k].allowedIps);
    AddLosesNothing(peers, start, m, done, k);
    SetLosesNothing(added, start, m, done, {}, k, AddCommand(m[k]));
  }

  lemma AddLosesNothing(peers: Peers, start: Peers, m: map<Pubkey, PeerConf>, done: set<Pubkey>, k: Pubkey)
    requires Progress(peers, start, m, done, {}) && k !in done
    ensures NothingLost(AddPeer(peers, k), start, m, done, {})
  {
    var added := AddPeer(peers, k);
    forall c | Held(peers, done, c) ensures Held(added, done, c) {
      var o :| o in done && o in peers && c in peers[o].allowedIps;
      assert c in added[o].allowedIps;
    }
  }

  /** Every configured route is with one of the peers that it is configured for. */
  ghost predicate RoutesPlaced(peers: Peers, m: map<Pubkey, PeerConf>)
    requires ConfOk(m) && peers.Keys == m.Keys
  {
    && (forall k :: k in m ==> peers[k].allowedIps <= MaskAll(m[k].allowedIps))
    && (forall k, c :: k in m && c in MaskAll(m[k].allowedIps) ==> Held(peers, m.Keys, c))
  }

  /** Two new peers that are configured with the same route: the one that is added last has it. */
  lemma SharedRouteGoesToTheLast(k1: Pubkey, k2: Pubkey, c: Cidr)
    requires k1 != k2 && c.IsMasked()
    ensures var a1, a2 := AddCommand(PeerConf(k1, None, None, {c}, 0)), AddCommand(PeerConf(k2, None, None, {c}, 0));
      && a1.Ok() && a2.Ok()
      && var peers := SetPeer(AddPeer(SetPeer(AddPeer(map[], k1), a1), k2), a2);
      && peers[k1].allowedIps == {} && peers[k2].allowedIps == {c}
  {
    MaskAllOfMasked({c});
  }

  /** Before any change, with the stale peers gone. */
  lemma StartOfProgress(start: Peers, m: map<Pubkey, PeerConf>)
    requires ConfOk(m)
    ensures Progress(start - (start.Keys - m.Keys), start, m, {}, start.Keys * m.Keys)
  {
    assert (start - (start.Keys - m.Keys)).Keys == start.Keys * m.Keys;
  }

  /** The peers are those configured, with all their settings, and every configured route is with one
      of the peers that it is configured for. */
  ghost predicate Reloaded(peers: Peers, start: Peers, m: map<Pubkey, PeerConf>) {
    && ConfOk(m) && peers.Keys == m.Keys
    && (forall k :: k in m ==> Rest(peers[k]) == Rest(Wanted(Get(start, k), m[k])))
    && RoutesPlaced(peers, m)
  }

  lemma EndOfProgress(peers: Peers, start: Peers, m: map<Pubkey, PeerConf>)
    requires Progress(peers, start, m, m.Keys, {})
    ensures Reloaded(peers, start, m)
  {}

  ghost predicate ConfsOk(confs: seq<PeerConf>) {
    forall i :: 0 <= i < |confs| ==> AllOk(confs[i].allowedIps)
  }

  /** A peer with the settings of its configuration, `was` being what it was before, if it was there.
      A configured endpoint ends roaming unless nothing is changed at all. */
  ghost predicate HasSettings(was: Option<PeerInfo>, info: PeerInfo, c: PeerConf) {
    && info.psk == c.presharedKey && info.keepalive == c.keepalive
    && (c.endpoint.Some? ==> info.endpoint == c.endpoint)
    && (c.endpoint.None? ==> info.endpoint == if was.Some? then was.value.endpoint else None)
    && (c.endpoint.None? ==> info.roaming == (was.None? || was.value.roaming))
    && (c.endpoint.Some? ==>
          info.roaming == (was == Some(PeerInfo(c.presharedKey, c.endpoint, c.keepalive, c.allowedIps, true))))
  }

  /** What a reload makes of a configuration: the peers are those that are configured, and each has
      the settings of the last configuration for its key. It has no other routes than those
      configured for it, and every configured route is with a peer that it is configured for. */
  ghost predicate AsConfigured(peers: Peers, start: Peers, confs: seq<PeerConf>)
    requires ConfsOk(confs)
  {
    && (forall k :: k in peers ==> exists i :: 0 <= i < |confs| && confs[i].publicKey == k)
    && (forall i :: 0 <= i < |confs| ==> confs[i].publicKey in peers)
    && (forall i :: 0 <= i < |confs| && IsLast(confs, i) ==>
          HasSettings(Get(start, confs[i].publicKey), peers[confs[i].publicKey], confs[i]))
    && (forall i, c :: 0 <= i < |confs| && IsLast(confs, i) && c in peers[confs[i].publicKey].allowedIps ==>
          GivenRoute(confs[i].allowedIps, c))
    && (forall i, c :: 0 <= i < |confs| && IsLast(confs, i) && GivenRoute(confs[i].allowedIps, c) ==>
          exists j :: 0 <= j < |confs| && IsLast(confs, j) && c in peers[confs[j].publicKey].allowedIps)
  }

  /** Every peer has all the routes that are configured for it. */
  ghost predicate AllRoutes(peers: Peers, confs: seq<PeerConf>)
    requires ConfsOk(confs) && forall i :: 0 <= i < |confs| ==> confs[i].publicKey in peers
  {
    forall i, c :: 0 <= i < |confs| && IsLast(confs, i) && GivenRoute(confs[i].allowedIps, c) ==>
      c in peers[confs[i].publicKey].allowedIps
  }

  /** Two of the configured peers are given the same route. */
  ghost predicate RouteShared(confs: seq<PeerConf>)
    requires ConfsOk(confs)
  {
    exists i, j, c :: 0 <= i < j < |confs| && IsLast(confs, i) && IsLast(confs, j) &&
      GivenRoute(confs[i].allowedIps, c) && GivenRoute(confs[j].allowedIps, c)
  }

  lemma KeysAreConfigured(confs: seq<PeerConf>)
    ensures forall i :: 0 <= i < |confs| ==> confs[i].publicKey in ToMap(confs)
    ensures forall i :: 0 <= i < |confs| && IsLast(confs, i) ==> ToMap(confs)[confs[i].publicKey] == confs[i]
    ensures forall k :: k in ToMap(confs) ==> exists i :: 0 <= i < |confs| && IsLast(confs, i) && confs[i].publicKey == k
  {
    forall i | 0 <= i < |confs| ensures confs[i].publicKey in ToMap(confs) {
      KeyIsTaken(confs, i);
    }
    forall i | 0 <= i < |confs| && IsLast(confs, i) ensures ToMap(confs)[confs[i].publicKey] == confs[i] {
      LastOneIsTaken(confs, i);
    }
    forall k | k in ToMap(confs) ensures exists i :: 0 <= i < |confs| && IsLast(confs, i) && confs[i].publicKey == k {
      var _ := EveryKeyIsConfigured(confs, k);
    }
  }

  lemma ReloadedAsConfigured(peers: Peers, start: Peers, confs: seq<PeerConf>)
    requires ConfsOk(confs) && Reloaded(peers, start, ToMap(confs))
    ensures AsConfigured(peers, start, confs)
  {
    var m := ToMap(confs);
    KeysAreConfigured(confs);
    forall i | 0 <= i < |confs| && IsLast(confs, i)
      ensures HasSettings(Get(start, confs[i].publicKey), peers[confs[i].publicKey], confs[i])
    {
      assert Rest(peers[confs[i].publicKey]) == Rest(Wanted(Get(start, confs[i].publicKey), confs[i]));
    }
    forall i, c | 0 <= i < |confs| && IsLast(confs, i) && GivenRoute(confs[i].allowedIps, c)
      ensures exists j :: 0 <= j < |confs| && IsLast(confs, j) && c in peers[confs[j].publicKey].allowedIps
    {
      assert c in MaskAll(m[confs[i].publicKey].allowedIps) && Held(peers, m.Keys, c);
      var o :| o in m.Keys && o in peers && c in peers[o].allowedIps;
      assert o in m;
    }
  }

  /** Of two peers that are given the same route, one does not have it. */
  lemma SharedIsMissing(peers: Peers, confs: seq<PeerConf>, i: nat, j: nat, c: Cidr)
    requires i < j < |confs| && IsLast(confs, i) && Consistent(peers)
    requires confs[i].publicKey in peers && confs[j].publicKey in peers
    ensures c !in peers[confs[i].publicKey].allowedIps || c !in peers[confs[j].publicKey].allowedIps
  {
    assert peers[confs[i].publicKey].allowedIps !! peers[confs[j].publicKey].allowedIps;
  }

  /** A route that is given to one peer only is with that peer. */
  lemma UnsharedIsThere(peers: Peers, start: Peers, confs: seq<PeerConf>, i: nat, c: Cidr)
    requires ConfsOk(confs) && AsConfigured(peers, start, confs) && !RouteShared(confs)
    requires i < |confs| && IsLast(confs, i) && GivenRoute(confs[i].allowedIps, c)
    ensures c in peers[confs[i].publicKey].allowedIps
  {
    var j :| 0 <= j < |confs| && IsLast(confs, j) && c in peers[confs[j].publicKey].allowedIps;
    assert GivenRoute(confs[j].allowedIps, c);
  }

  /** The peers have all their routes exactly if no two of them are given the same one. */
  lemma AllRoutesIff(peers: Peers, start: Peers, confs: seq<PeerConf>)
    requires ConfsOk(confs) && AsConfigured(peers, start, confs) && Consistent(peers)
    ensures AllRoutes(peers, confs) <==> !RouteShared(confs)
  {
    if RouteShared(confs) {
      var i, j, c :| 0 <= i < j < |confs| && IsLast(confs, i) && IsLast(confs, j) &&
        GivenRoute(confs[i].allowedIps, c) && GivenRoute(confs[j].allowedIps, c);
      SharedIsMissing(peers, confs, i, j, c);
    } else {
      forall i, c | 0 <= i < |confs| && IsLast(confs, i) && GivenRoute(confs[i].allowedIps, c)
        ensures c in peers[confs[i].publicKey].allowedIps
      {
        UnsharedIsThere(peers, start, confs, i, c);
      }
    }
  }

  /** Removes the peers that are not configured, and changes those that are. */
  method KeepConfigured(wg: WgState, snapshot: Peers, m: map<Pubkey, PeerConf>) returns (ok: bool)
    requires wg.Valid() && snapshot == wg.View() && Consistent(snapshot) && ConfOk(m)
    modifies wg, wg.tables.Repr, wg.pubkeyMap.Values
    ensures wg.Valid() && fresh(wg.tables.Repr - old(wg.tables.Repr)) && OnlyOldOrNew(wg) && ok
    ensures Progress(wg.View(), snapshot, m, snapshot.Keys * m.Keys, {})
  {
    StartOfProgress(snapshot, m);
    RemoveStale(wg, snapshot.Keys - m.Keys);
    ok := ChangeExisting(wg, snapshot, m, snapshot.Keys * m.Keys);
  }

  /** Removes the peers that are not configured, changes those that are there, in any order, and
      then adds the missing ones. */
  method Reload(wg: WgState, confs: seq<PeerConf>) returns (ok: bool)
    requires wg.Valid() && ConfsOk(confs)
    modifies wg, wg.tables.Repr, wg.pubkeyMap.Values
    ensures wg.Valid() && ok
    ensures AsConfigured(wg.View(), old(wg.View()), confs)
    ensures AllRoutes(wg.View(), confs) <==> !RouteShared(confs)
  {
    ghost var start := wg.View();
    wg.ValidIsConsistent();
    var m := MakeMap(confs);
    var snapshot := GetState(wg);
    var existing := snapshot.Keys;
    ok := KeepConfigured(wg, snapshot, m);
    ok := AddMissing(wg, start, m, existing * m.Keys, m.Keys - existing);
    assert existing * m.Keys + (m.Keys - existing) == m.Keys;
    wg.ValidIsConsistent();
    EndOfProgress(wg.View(), start, m);
    ReloadedAsConfigured(wg.View(), start, confs);
    AllRoutesIff(wg.View(), start, confs);
  }

  method GetState(wg: WgState) returns (state: Peers)
    requires wg.Valid()
    ensures state == wg.View()
  {
    state := map k | k in wg.pubkeyMap :: wg.pubkeyMap[k].info;
  }

  method MakeMap(confs: seq<PeerConf>) returns (m: map<Pubkey, PeerConf>)
    requires ConfsOk(confs)
    ensures m == ToMap(confs) && ConfOk(m)
  {
    m := map[];
    for i := 0 to |confs|
      invariant m == ToMap(confs[..i]) && ConfOk(m)
    {
      assert confs[..i + 1][..i] == confs[..i];
      m := m[confs[i].publicKey := confs[i]];
    }
    assert confs[..|confs|] == confs;
  }

  lemma TakenOut(peers: Peers, done: set<Pubkey>, k: Pubkey)
    ensures peers - done - {k} == peers - (done + {k})
  {}

  method RemoveStale(wg: WgState, stale: set<Pubkey>)
    requires wg.Valid()
    modifies wg, wg.tables.Repr
    ensures wg.Valid() && fresh(wg.tables.Repr - old(wg.tables.Repr)) && OnlyOldOrNew(wg)
    ensures wg.View() == old(wg.View()) - stale
  {
    var todo := stale;
    ghost var done: set<Pubkey> := {};
    while todo != {}
      invariant done + todo == stale
      invariant wg.Valid() && fresh(wg.tables.Repr - old(wg.tables.Repr)) && OnlyOldOrNew(wg)
      invariant wg.View() == old(wg.View()) - done
      decreases todo
    {
      var k :| k in todo;
      var _ := wg.RemovePeer(k);
      TakenOut(old(wg.View()), done, k);
      todo, done := todo - {k}, done + {k};
    }
  }

  method ChangeExisting(wg: WgState, snapshot: Peers, m: map<Pubkey, PeerConf>, both: set<Pubkey>) returns (ok: bool)
    requires wg.Valid() && Consistent(snapshot) && Progress(wg.View(), snapshot, m, {}, both)
    modifies wg.tables.Repr, wg.pubkeyMap.Values
    ensures wg.Valid() && fresh(wg.tables.Repr - old(wg.tables.Repr)) && ok
    ensures Progress(wg.View(), snapshot, m, both, {})
  {
    var todo := both;
    ghost var done: set<Pubkey> := {};
    ok := true;
    while todo != {}
      invariant done + todo == both && ok
      invariant wg.Valid() && fresh(wg.tables.Repr - old(wg.tables.Repr))
      invariant Progress(wg.View(), snapshot, m, done, todo)
      decreases todo
    {
      var k :| k in todo;
      ChangeStep(wg.View(), snapshot, m, done, todo, k);
      if !Unchanged(snapshot[k], m[k]) {
        ok := wg.SetPeer(ChangeCommand(m[k]));
      }
      todo, done := todo - {k}, done + {k};
    }
  }

  method AddOne(wg: WgState, c: PeerConf) returns (ok: bool)
    requires wg.Valid() && AllOk(c.allowedIps) && c.publicKey !in wg.pubkeyMap
    modifies wg, wg.tables.Repr, wg.pubkeyMap.Values
    ensures wg.Valid() && fresh(wg.tables.Repr - old(wg.tables.Repr)) && OnlyOldOrNew(wg) && ok
    ensures wg.View() == SetPeer(AddPeer(old(wg.View()), c.publicKey), AddCommand(c))
    ensures wg.pubkeyMap.Keys == old(wg.pubkeyMap.Keys) + {c.publicKey}
  {
    ok := wg.AddPeer(c.publicKey);
    var set_ := wg.SetPeer(AddCommand(c));
    ok := ok && set_;
    assert wg.pubkeyMap.Keys == wg.View().Keys;
  }

  method AddMissing(wg: WgState, ghost start: Peers, m: map<Pubkey, PeerConf>, ghost both: set<Pubkey>, missing: set<Pubkey>)
      returns (ok: bool)
    requires wg.Valid() && Consistent(start) && Progress(wg.View(), start, m, both, {})
    requires missing !! start.Keys && missing !! both && missing <= m.Keys
    modifies wg, wg.tables.Repr, wg.pubkeyMap.Values
    ensures wg.Valid() && ok
    ensures Progress(wg.View(), start, m, both + missing, {})
  {
    var todo := missing;
    ghost var done := both;
    ok := true;
    while todo != {}
      invariant done + todo == both + missing && done !! todo && todo <= missing && ok
      invariant wg.Valid() && fresh(wg.tables.Repr - old(wg.tables.Repr)) && OnlyOldOrNew(wg)
      invariant Progress(wg.View(), start, m, done, {})
      decreases todo
    {
      var k :| k in todo;
      AddStep(wg.View(), start, m, done, k);
      ok := AddOne(wg, m[k]);
      todo, done := todo - {k}, done + {k};
    }
  }
}
