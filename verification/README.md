# TiTun verification model

This project models the data structures and state machines of TiTun, a userspace WireGuard
implementation, and proves what they promise. Each module is one component:

- `Bits`, `PrefixTree`, `Traversal`, `IpLookupTrie`: the routing trie. Its nodes live on the heap and
  are changed in place; they are proved to follow a trie of values, which is proved canonical, to
  refine a map, and to answer with the longest match. `SimpleTable` is the repository's own linear
  reference table.
- `AntiReplay`, `Transport`, `SendCounter`: the replay window of RFC 6479, sessions, and concurrent
  senders on one session.
- `Ring`, `RingProtocol`: the byte ring shared with the tunnel driver, for one thread at a time and
  with both ends interleaved at every load, store and copied byte, with the wake-up protocol.
- `RoutingTables`, `PeerConfig`, `WgState`, `Reload`: peers, allowed IPs and routes, set requests and
  reloading.
- `Sessions`, `SessionLaws`, `PeerSessions`: handshakes, sessions, the id map and the two timers that
  bound them.
- `Timer`, `LoadMonitor`: the timer task and the token bucket.
- `IpcText`, `Ipc`, `IpcLaws`, `IpcStream`: printing and parsing of the interface state.
- `ChaChaRounds`, `LaneShuffles`, `HChaChaRows`, `HChaCha`, `HChaChaVectors`: HChaCha on rows of
  vectors, and its known answers.
- `BlockRanges`: the address ranges in which DNS is blocked.
- `Wrappers`, `LittleEndian`: options and byte order.

`dafny verify dfyconfig.toml` checks everything.

## How the source is modelled

- Machine words of the trie are bit sequences of any width, with the bitwise operators of the source;
  the lemmas in `Bits` say what the masks mean. Elsewhere words are numbers with explicit wrap-around,
  or bit vectors.
- Each message handler, timer action and configuration operation is one atomic step. The handler of
  handshake responses in the source (`src/wireguard/state.rs:266-307`) reads under one lock and changes
  under another; configuration operations are serialised by a lock of their own
  (`src/wireguard/state.rs:89-90`).
- Atomic loads and stores of the ring, the counter and the timer are steps of their own, and are
  sequentially consistent.
- New ids are fresh. Ciphers are functions that are given to a session. Time is a parameter and does
  not run backwards. Text forms of addresses come from a printer and a parser that undoes it.
- Loops over sets and hash tables visit their elements in any order.

## Exact conditions, and where the code and its comments differ

- A command is described as updating the preshared key of a peer if one is given
  (`src/wireguard/state.rs:609`), but the code always replaces the key
  (`src/wireguard/state.rs:964-968`), and the model follows it. The code does what the comment says
  exactly if a key is given or the peer has none: `PeerConfig.PskUpdatedIfGivenIff`.
  `PeerConfig.KeepaliveCommandLosesPsk` is a command that loses a key.
- The load monitor is described as eventually noticing that messages are slow
  (`src/wireguard/load_monitor.rs:36-42`). A monitor under load can do that exactly if its frequency is
  not one: `LoadMonitor.RecoversIff`; with zero it changes its mind at every check:
  `LoadMonitor.ZeroAlternates`. The interface uses 250.
- The 64-bit bucket of the load monitor is exact exactly if the total fits, or fills the bucket after
  wrapping around: `LoadMonitor.LevelExactIff`. `LoadMonitor.LongPauseReportsLoad` is a pause after
  which an idle interface reports load.
- The reload comment says that its order avoids route conflicts (`src/cli/reload.rs:71`). The order
  does that exactly if no route is configured for two peers: `Reload.Reload` and
  `Reload.AllRoutesIff`. `Reload.SharedRouteGoesToTheLast` is a configuration with a shared
  route.
- The numbers of a session are never reused exactly if at most 17 are at work at a time, counting the
  handler that made the session and sends queued packets without asking
  (`src/wireguard/state.rs:325-329`): `SendCounter.NeverReusesIff`.

## Model

| member | source | states |
|---|---|---|
| `Bits.MaskKeepsPrefix` | src/wireguard/ip_lookup_trie/mod.rs:61-69 | Masking an address with the mask of a length keeps that many leading bits and zeroes the rest, for every width. |
| `Bits.MaskedEqualIffSamePrefix` | src/wireguard/ip_lookup_trie/mod.rs:92 | Two keys agree under a mask if and only if their prefixes of that length are the same. |
| `Bits.MaskDeterminesLength` | src/wireguard/ip_lookup_trie/mod.rs:167-169 | Two masks are equal if and only if their lengths are, and only the full length gives the all-ones mask. |
| `Bits.NextBitMaskSelectsBit` | src/wireguard/ip_lookup_trie/mod.rs:71-76 | The mask for a length is non-zero on a key if and only if the bit behind the prefix is set. |
| `Bits.CommonPrefixMeaning` | src/wireguard/ip_lookup_trie/mod.rs:78-84 | The exclusive-or and leading-zeros computation gives the length up to which the keys agree, and they differ there unless a key ends. |
| `Bits.FirstDifferenceDecides` | src/wireguard/ip_lookup_trie/mod.rs:441-461 | Keys compare as integers by the first bit in which they differ, which gives iteration its order. |
| `PrefixTree.InsertKeepsInvariant` | src/wireguard/ip_lookup_trie/mod.rs:243-289 | Insertion, with node splitting, keeps the invariant of the self-check: masked keys of valid length, no valueless node with fewer than two children, children on their side below their parent. |
| `PrefixTree.InsertContents` | src/wireguard/ip_lookup_trie/mod.rs:90-164 | Insertion changes the map at exactly the masked prefix. |
| `PrefixTree.RemoveKeepsInvariant` | src/wireguard/ip_lookup_trie/mod.rs:243-289 | Removal, with path collapsing, keeps the same invariant. |
| `PrefixTree.RemoveContents` | src/wireguard/ip_lookup_trie/mod.rs:166-214 | Removal takes exactly the masked prefix out of the map. |
| `PrefixTree.Canonical` | src/wireguard/ip_lookup_trie/mod.rs:243-289 | Two tries that satisfy the invariant and store the same map are the same trie. |
| `PrefixTree.EmptyIffNil` | src/wireguard/ip_lookup_trie/mod.rs:415-418 | The root is missing if and only if nothing is stored. |
| `PrefixTree.RunRefinesMap` | src/wireguard/ip_lookup_trie/mod.rs:350-433 | Every history of insertions and removals from the empty table keeps the invariant and computes the map. |
| `PrefixTree.HistoriesWithSameContentsAgree` | src/wireguard/ip_lookup_trie/mod.rs:90-214 | Two histories end in the same trie if and only if they end with the same contents. |
| `PrefixTree.RemoveUndoesInsert` | src/wireguard/ip_lookup_trie/mod.rs:90-214 | Removing a freshly inserted prefix restores exactly the trie from before. |
| `PrefixTree.InsertUndoesRemove` | src/wireguard/ip_lookup_trie/mod.rs:90-214 | Putting back a removed entry restores exactly the trie from before. |
| `PrefixTree.LongestMatchCorrect` | src/wireguard/ip_lookup_trie/mod.rs:216-240 | The walk down the trie answers with the value of the longest stored prefix of the address, or with nothing if none matches. |
| `PrefixTree.LongestMatchUnique` | src/wireguard/ip_lookup_trie/mod.rs:216-240 | What a routing table must answer for an address is determined by its map. |
| `Traversal.ItemsAreContents` | src/wireguard/ip_lookup_trie/mod.rs:441-461 | The iteration yields an entry if and only if it is stored. |
| `Traversal.ItemsSorted` | src/wireguard/ip_lookup_trie/mod.rs:441-461 | The iteration is strictly increasing in (key, length), so nothing comes twice. |
| `Traversal.RebuildGivesSameTrie` | src/wireguard/ip_lookup_trie/mod.rs:509-517 | Inserting what the iteration yields into an empty table gives the same trie. |
| `IpLookupTrie.TrieNode.Insert` | src/wireguard/ip_lookup_trie/mod.rs:90-117 | The in-place insertion, decided with masks, does to the heap nodes what insertion does to the trie, and returns the old value. |
| `IpLookupTrie.TrieNode.SplitNode` | src/wireguard/ip_lookup_trie/mod.rs:118-163 | Shortening a node to the common prefix and moving the old node into a box is the split of the trie. |
| `IpLookupTrie.TrieNode.Remove` | src/wireguard/ip_lookup_trie/mod.rs:166-214 | The in-place removal does to the heap nodes what removal does to the trie, giving way to the remaining child, and returns the old value. |
| `IpLookupTrie.TrieNode.LongestMatch` | src/wireguard/ip_lookup_trie/mod.rs:216-240 | The loop over a node variable and the best value so far computes the longest match of the trie. |
| `IpLookupTrie.IpLookupTable.constructor` | src/wireguard/ip_lookup_trie/mod.rs:350-354 | A new table is valid and empty. |
| `IpLookupTrie.IpLookupTable.Insert` | src/wireguard/ip_lookup_trie/mod.rs:363-384 | Inserting changes the map of the table at exactly the masked prefix and returns the old value; the invariant is kept. |
| `IpLookupTrie.IpLookupTable.Remove` | src/wireguard/ip_lookup_trie/mod.rs:393-406 | Removing takes exactly the masked prefix out of the map and returns its value; the invariant is kept. |
| `IpLookupTrie.IpLookupTable.LongestMatch` | src/wireguard/ip_lookup_trie/mod.rs:408-413 | The answer is the value of the longest stored prefix of the address. |
| `IpLookupTrie.IpLookupTable.IsEmpty` | src/wireguard/ip_lookup_trie/mod.rs:415-418 | True if and only if the map is empty. |
| `IpLookupTrie.IpLookupTable.Iterate` | src/wireguard/ip_lookup_trie/mod.rs:463-472 | The iterator of a table will yield all its entries in order. |
| `IpLookupTrie.IpLookupTable.FromIter` | src/wireguard/ip_lookup_trie/mod.rs:509-517 | Collecting entries into a table is the history of their insertions. |
| `IpLookupTrie.Iter.Next` | src/wireguard/ip_lookup_trie/mod.rs:444-460 | The explicit-stack step terminates and yields the next entry of the sorted list, with its masked key. |
| `IpLookupTrie.SplitMasks` | src/wireguard/ip_lookup_trie/mod.rs:123-138 | The mask arithmetic of the split finds the common prefix, the shortened key and the side on which the old node goes. |
| `IpLookupTrie.Rebuild` | src/wireguard/ip_lookup_trie/mod.rs:421-517 | Iterating over any table yields each entry exactly once, strictly sorted, and rebuilding from it gives an equal table. |
| `SimpleTable.IpLookupTable.Insert` | src/wireguard/ip_lookup_trie/simple.rs:48-61 | The linear table changes its map at exactly the masked prefix and returns the old value. |
| `SimpleTable.IpLookupTable.LongestMatch` | src/wireguard/ip_lookup_trie/simple.rs:63-71 | The search from the longest row finds the value of the longest stored prefix. |
| `SimpleTable.IpLookupTable.Remove` | src/wireguard/ip_lookup_trie/simple.rs:73-86 | The linear table takes exactly the masked prefix out of its map, and every row that stays has an entry. |
| `SimpleTable.IpLookupTable.BinarySearch` | src/wireguard/ip_lookup_trie/simple.rs:52-57 | The search finds the row of a length, or the place where it belongs. |
| `SimpleTable.SameAnswers` | src/wireguard/ip_lookup_trie/simple.rs:63-71 | The linear table and the trie answer every address alike, and correctly, when they hold the same map. |
| `SimpleTable.SameHistory` | src/wireguard/ip_lookup_trie/simple.rs:40-87 | Any history of insertions, removals and lookups, run on both tables from the start, returns the same from both, and at each step what the map of prefixes demands. |
| `AntiReplay.ShiftsAndMasks` | src/wireguard/anti_replay.rs:20-30 | The shifts and masks on 64-bit numbers are the quotients and remainders of the model. |
| `AntiReplay.AntiReplay.constructor` | src/wireguard/anti_replay.rs:44-49 | A new window has accepted nothing. |
| `AntiReplay.AntiReplay.Check` | src/wireguard/anti_replay.rs:51-68 | A number passes if and only if it is above the last one, or within 2016 of it and never accepted. |
| `AntiReplay.AntiReplay.Update` | src/wireguard/anti_replay.rs:71-95 | Recording a fresh number adds exactly it to the accepted set; the circular bitmap, cleared in part or as a whole, still stands for that set. |
| `AntiReplay.AntiReplay.CheckAndUpdate` | src/wireguard/anti_replay.rs:97-104 | Lets a number through if and only if it is above the last one, or within 2016 of it and never accepted; then exactly it is added and the last one is the larger of the two; otherwise nothing changes. |
| `AntiReplay.WindowIsLargest` | src/wireguard/anti_replay.rs:18-30 | The window of 2016 numbers is the largest for which all of them are held by 64 neighbouring blocks of 32 bits, wherever the newest lies in its block. |
| `AntiReplay.RunMeaning` | src/wireguard/anti_replay.rs:51-104 | On every run the accepted set is the set of delivered numbers and the last one is the largest seen. |
| `AntiReplay.DeliveredAtMostOnce` | src/wireguard/anti_replay.rs:97-104 | On every run each number is delivered at most once. |
| `AntiReplay.DeliveredIff` | src/wireguard/anti_replay.rs:51-104 | A number of a run is delivered if and only if nothing before it is more than 2016 ahead of it and it has not been delivered before. |
| `AntiReplay.CheckAll` | src/wireguard/anti_replay.rs:97-104 | The bitmap gives the specified answers on every run of 64-bit numbers. |
| `Transport.Transport.constructor` | src/wireguard/transport.rs:61-109 | A new session counts from zero, may be used, and has accepted nothing. |
| `Transport.Transport.Encrypt` | src/wireguard/transport.rs:120-144 | A packet starts with the bytes 4, 0, 0, 0, the receiver and the eight bytes of its counter, least significant first, and ends with the sealed payload; the counter wraps at 2^64; at the literal message limit nothing is sent and the session is switched off; when to rekey; whether the session may send afterwards. |
| `Transport.WellFramedIff` | src/wireguard/transport.rs:151-167 | A packet passes the checks on its form if and only if it has 32 bytes, starts with 4, 0, 0, 0 and holds the eight bytes of a number below the limit, which is then its counter. |
| `LittleEndian.EightBytes` | src/wireguard/transport.rs:139 | Byte i of a stored counter is its quotient by 256^i modulo 256. |
| `Transport.Transport.Decrypt` | src/wireguard/transport.rs:146-185 | A packet is delivered if and only if the session is not too old, the packet is framed well, its counter is below the limit, it is authentic and its number is fresh; only then is the number recorded. |
| `Transport.SendReceiveReplay` | src/wireguard/transport.rs:120-185 | What one end encrypts the other delivers, once: the second copy is refused. |
| `Transport.RunSession` | src/wireguard/transport.rs:120-185 | In any run of packets, sends and expiry, a packet is delivered if and only if the session is still on, the packet is authentic, no authentic packet before it is more than 2016 ahead, and its number was not delivered before; no two delivered packets have the same number. |
| `Transport.RunNewSession` | src/wireguard/transport.rs:120-185 | The same for every run of a new session, whose window is empty. |
| `SendCounter.NumbersAreUnique` | src/wireguard/transport.rs:111-144 | With at most 17 at work, under every interleaving, no number is used twice, every number used is below the limit, and the wrapping counter never comes back to a number. Senders ask first; the handler that made the session sends its queued packets without asking. |
| `SendCounter.MoreReuse` | src/wireguard/state.rs:314-331 | With 18 or more at work, the handler included, there is a run in which number zero is used twice. |
| `SendCounter.NeverReusesIff` | src/wireguard/u64_counter.rs:39-44 | Numbers are unique on every run if and only if senders and handler together are at most 17. |
| `Ring.Align4IsMasking` | src/wireguard/tun_windows/ring.rs:60-62 | For every length whose sum with three has 32 bits, clearing the two low bits of that sum gives the padded length of the model. |
| `Ring.Align4Meaning` | src/wireguard/tun_windows/ring.rs:60-62 | The padded length is the least multiple of four that is not below the length. |
| `Ring.FreeBytesAreFree` | src/wireguard/tun_windows/ring.rs:116-137 | The bytes that a fitting record occupies, the overrun area included, meet no live record. |
| `Ring.FreeBytesMayChange` | src/wireguard/tun_windows/ring.rs:136-137 | Storing into the free bytes leaves every live record as it is. |
| `Ring.OldestRecord` | src/wireguard/tun_windows/ring.rs:72-103 | What the reader loads at the head is the length and the bytes of the oldest packet, and none of its checks fails. |
| `Ring.RoomSeen` | src/wireguard/tun_windows/ring.rs:116-135 | The comparison of unwrapped indices holds if and only if the record fits, and the new tail is the right index. |
| `Ring.TunRing.constructor` | src/wireguard/tun_windows/ring.rs:65-67 | A new ring is empty. |
| `Ring.TunRing.Read` | src/wireguard/tun_windows/ring.rs:69-107 | Reading takes out the oldest packet, cut to the buffer, and moves the head by 4 plus its length rounded up to a multiple of four, modulo 128 KiB; it blocks if and only if the ring is empty, and never finds invalid data. |
| `Ring.TunRing.Write` | src/wireguard/tun_windows/ring.rs:109-142 | Writing succeeds if and only if the packet is shorter than 64 KiB and the bytes between the indices, 4 and the rounded length stay below 128 KiB; the length in four bytes and the packet then lie at the old tail, and the tail moves by 4 plus the rounded length; otherwise nothing changes. |
| `RingProtocol.StepKeepsInvariant` | src/wireguard/tun_windows/ring.rs:69-219 | Every step of either end, down to single loads, byte copies and stores, keeps the invariant of the ring and of the wake-up protocol. |
| `RingProtocol.RingIsFifo` | src/wireguard/tun_windows/ring.rs:69-143 | Under every interleaving packets come out in order, unmodified and without loss. |
| `RingProtocol.IndicesStaySound` | src/wireguard/tun_windows/ring.rs:78-98 | Under every interleaving head and tail stay aligned and below the capacity, every byte access is in bounds, and neither end reports invalid data. |
| `RingProtocol.WriterAvoidsLivePackets` | src/wireguard/tun_windows/ring.rs:136-137 | Under every interleaving the writer never stores into a packet that has not been read. |
| `RingProtocol.NoLostWakeUp` | src/wireguard/tun_windows/ring.rs:168-219 | A reader that waits while there are packets has been woken or the writer is about to wake it, despite stale flags and spurious events. |
| `RingProtocol.NeverStuck` | src/wireguard/tun_windows/ring.rs:168-219 | With packets in the ring and a reader in a call, one of the two ends can go on. |
| `RingProtocol.ReadCompletes` | src/wireguard/tun_windows/ring.rs:69-107 | From every reachable state a call of the reader, on its own steps alone, delivers the oldest packet and moves the head past it, or, if and only if there is none, goes on to ask to be woken. |
| `RingProtocol.WriteCompletes` | src/wireguard/tun_windows/ring.rs:109-142 | From every reachable state a call of the writer, on its own steps alone, publishes the packet at the tail and moves the tail if and only if the padded record fits with a byte to spare; otherwise nothing changes. |
| `RingProtocol.WakesIffAsked` | src/wireguard/tun_windows/ring.rs:201-219 | Behind a packet the writer sets the event if and only if the reader has asked to be woken. |
| `RoutingTables.MaskedIsMasked` | src/wireguard/ip_lookup_trie/mod.rs:307-311 | Masking is idempotent and keeps the prefix. |
| `RoutingTables.RoutingTables.Insert` | src/wireguard/state.rs:1018-1021 | The two tables together map masked pairs to owners; inserting changes one pair and returns its old owner. |
| `RoutingTables.RoutingTables.Remove` | src/wireguard/state.rs:1082-1087 | Removing takes out exactly one pair and returns its owner. |
| `RoutingTables.RoutingTables.RemoveAll` | src/wireguard/state.rs:1007-1014 | Dropping a set of routes in any order removes exactly that set. |
| `RoutingTables.RoutingTables.InsertAll` | src/wireguard/state.rs:1016-1025 | Giving a set of routes to a peer in any order gives exactly that set and reports each old owner once. |
| `RoutingTables.RoutingTables.Find` | src/wireguard/state.rs:778-784 | The owner found is that of the longest matching route of the right address family. |
| `PeerConfig.SetPeerKeepsConsistent` | src/wireguard/state.rs:904-950 | Setting a peer keeps allowed IPs masked and no route shared by two peers. |
| `PeerConfig.SetPeerMeaning` | src/wireguard/state.rs:961-1056 | Setting by setting: the key is replaced, an endpoint and an interval that are not given are kept, a given endpoint ends roaming, the routes are the given ones after masking, with the old ones unless they are to be replaced, and every other peer loses exactly the given routes. |
| `PeerConfig.AddPeerMeaning` | src/wireguard/peer_state.rs:230-298 | A new peer has no key, endpoint, interval or route and roams; the others stay as they are. |
| `PeerConfig.RunConsistent` | src/wireguard/state.rs:904-950 | Every run of add, set, remove and remove-all commands keeps them so. |
| `PeerConfig.LastSetOwns` | src/wireguard/state.rs:1003-1056 | A route belongs to the peer that was last given it, and to no other. |
| `PeerConfig.PskUpdatedIfGivenIff` | src/wireguard/state.rs:964-968 | A command updates the preshared key only if one is given, as the comment on the field promises, if and only if one is given or the peer has none to lose. |
| `PeerConfig.KeepaliveCommandLosesPsk` | src/wireguard/state.rs:964-968 | A command that only sets the keepalive interval takes the preshared key of the peer away. |
| `WgState.WgState.constructor` | src/wireguard/state.rs:71-91 | A new interface has no peers and no routes. |
| `WgState.WgState.AddPeer` | src/wireguard/peer_state.rs:230-298 | Adding fails if and only if the key is taken; otherwise there is one new peer without settings, and routes and allowed IPs still match. |
| `WgState.WgState.RemovePeer` | src/wireguard/state.rs:1061-1090 | Removing a peer takes away it and exactly its routes, and tells whether it was there. |
| `WgState.WgState.RemoveAllPeers` | src/wireguard/state.rs:798-804 | No peer and no route is left. |
| `WgState.WgState.SetPeer` | src/wireguard/state.rs:952-1059 | Setting fails if and only if the peer is missing; otherwise each of its settings is as the command says, given or kept, the old owners lose exactly the routes taken over (the assertion on them never fails), and a route leads to a peer if and only if the peer is live and has it. |
| `WgState.WgState.MoveRoutes` | src/wireguard/state.rs:1001-1045 | The two loops over set differences turn the routing tables into those after the command, and report the displaced owners. |
| `WgState.WgState.FindPeerByIp` | src/wireguard/state.rs:778-784 | The peer found is live and has the longest of all matching allowed IPs; if none is found, no peer has a matching one. |
| `WgState.WgState.ChangePeers` | src/wireguard/state.rs:961-1056 | The peer gets its settings, and every other peer loses exactly the routes that the command names. |
| `WgState.StripOthers` | src/wireguard/state.rs:1047-1056 | Each displaced owner loses exactly the routes taken from it. |
| `WgState.RoutesAfterSet` | src/wireguard/state.rs:904-950 | The moved routes match the peers after the command. |
| `WgState.WgState.ValidIsConsistent` | src/wireguard/state.rs:904-950 | When routes and allowed IPs match, no route has two owners. |
| `Reload.ProcessWgSet` | src/ipc/server.rs:201-226 | For a set request of any entries: what the last entry for a peer says holds afterwards (removed, or there with its settings, and with its routes as far as no later entry gives them away); a peer without an entry only loses routes that entries give away; adding and setting never fail. |
| `Reload.LastEntryDecides` | src/ipc/server.rs:201-226 | The last entry for a peer decides what becomes of it, whatever the other entries are. |
| `Reload.UnnamedIsKept` | src/ipc/server.rs:201-226 | A peer that a stretch of entries does not name stays, or stays away, with all its settings and without exactly the routes that the entries give to others. |
| `Reload.ProcessEntry` | src/ipc/server.rs:205-225 | One entry of a set request. |
| `Reload.Reload` | src/cli/reload.rs:56-126 | After a reload, in any key order, the peers are exactly those of the list of configured peers; each has the key, interval, endpoint (when one is given, else the old one) and roaming of the last configuration for its key, and no route but those configured for it; every configured route is with a peer it is configured for; all peers have all their routes if and only if no two are given the same one; no step fails. |
| `Reload.AllRoutesIff` | src/cli/reload.rs:71-123 | After a reload the peers have all their configured routes if and only if no two configured peers, each by its last configuration, are given the same route after masking. |
| `Reload.LastOneIsTaken` | src/cli/reload.rs:65-69 | Collecting the configured peers keeps, for each key, the last one of the list. |
| `Reload.EveryKeyIsConfigured` | src/cli/reload.rs:65-69 | Every key that is collected is that of a configured peer with no later one for the same key. |
| `Reload.SharedRouteGoesToTheLast` | src/cli/config.rs:83-107 | Of two new peers configured with the same route, which is only warned about, the one added last has it and the other has none. |
| `Reload.SetLosesNothing` | src/cli/reload.rs:71-123 | Setting one configured peer leaves every route configured so far, and every route that a waiting peer has lost, with a peer that has had its turn. |
| `Reload.ChangeStep` | src/cli/reload.rs:78-108 | Changing, or leaving, one existing peer makes it as wanted and disturbs no other, even when routes move between existing peers. |
| `Reload.AddStep` | src/cli/reload.rs:110-123 | Adding one peer makes it as wanted and disturbs no other. |
| `Reload.RemoveStale` | src/cli/reload.rs:73-76 | Exactly the peers that are not configured are removed. |
| `Sessions.StepKeeps` | src/wireguard/state.rs:105-339 | Every message, timer action and configuration change keeps the agreement of the id map and the order and timing of sessions. |
| `Sessions.IdMapAgrees` | src/wireguard/state.rs:105-118 | On every run an id leads to a peer if and only if the peer is live and a pending handshake or a kept session of it has that id. |
| `Sessions.SessionsAreTimed` | src/wireguard/peer_state.rs:126-129 | On every run there are at most three sessions, newest first; a pending handshake is being resent; resending is going to be stopped; and sessions are going to be cleared, by a timer set no later than 540 seconds after the newest was made. |
| `Sessions.NoSessionOutlivesTimer` | src/wireguard/peer_state.rs:332-335 | When the clear timer is neither due nor pending, the newest session is younger than 540 seconds. |
| `SessionLaws.InitiationsIncrease` | src/wireguard/state.rs:168-174 | On every run the initiations that have any effect on a peer, between its adding and its removal, have strictly increasing timestamps; so a replayed one has none. |
| `SessionLaws.QueueIsLastSixteen` | src/wireguard/peer_state.rs:211-224 | On every run the queue of a peer is the last sixteen, in order, of the packets enqueued for it since the queue was last sent or dropped. |
| `SessionLaws.InitiationMeaning` | src/wireguard/state.rs:164-209 | What an initiation does to every part of the state, by comparing timestamps alone: nothing, or the new timestamp and, if answered, the new session with the timers at literal delays. |
| `SessionLaws.ResponseMeaning` | src/wireguard/state.rs:263-339 | A response changes something if and only if some peer has a pending handshake under its id; what it does to every part of that peer. |
| `SessionLaws.PeerStepsMeaning` | src/wireguard/peer_state.rs:114-224 | What queueing a packet, starting a handshake, clearing and setting an endpoint do to every part of a peer, with the delays of 90 and 540 seconds and the limit of sixteen packets. |
| `SessionLaws.TimersMeaning` | src/wireguard/peer_state.rs:326-335 | The two timers go off if and only if they are set and their time has come; what their actions drop. |
| `PeerSessions.Peer.Clear` | src/wireguard/peer_state.rs:114-124 | Clearing drops the handshake, the sessions and the queue, and with them exactly the ids the peer held. |
| `PeerSessions.Peer.PushTransport` | src/wireguard/peer_state.rs:167-174 | The new session comes first, the oldest of more than three goes with its id, and the two timers are set. |
| `PeerSessions.Peer.EnqueuePacket` | src/wireguard/peer_state.rs:211-220 | The newest sixteen packets are kept in order, and the stop timer is put off. |
| `PeerSessions.WgSessions.ProcessHandshakeInit` | src/wireguard/state.rs:160-220 | An authentic initiation changes nothing when its timestamp is not above the last one; otherwise the timestamp is stored and, when it is answered, the new session comes first, at most two older ones stay, the handshake is dropped and the two timers are set; the id map and the order and timing of sessions stay in agreement. |
| `PeerSessions.WgSessions.ProcessHandshakeResp` | src/wireguard/state.rs:263-339 | A response to the pending handshake turns it into the first session under the same id, empties the queue and returns what was queued, in order; any other response changes nothing. The agreement is kept. |
| `PeerSessions.WgSessions.SendInitiation` | src/wireguard/peer_state.rs:362-416 | One round of the resend loop replaces the pending handshake and its id; if no message can be made, nothing stays behind. The agreement is kept. |
| `PeerSessions.WgSessions.StopHandshake` | src/wireguard/peer_state.rs:326-330 | The stop action ends resending and drops the pending handshake with its id. The agreement is kept. |
| `PeerSessions.WgSessions.ClearAction` | src/wireguard/peer_state.rs:332-335 | The clear action drops everything that the peer holds with all its ids. The agreement is kept. |
| `PeerSessions.WgSessions.RemovePeer` | src/wireguard/state.rs:1064-1074 | Removing a peer takes all its ids out of the map. The agreement is kept. |
| `PeerSessions.WgSessions.SetKey` | src/wireguard/state.rs:845-865 | A new private key clears all peers, in any order, and empties the id map. The agreement is kept. |
| `PeerSessions.WgSessions.SetPsk` | src/wireguard/state.rs:964-968 | A new preshared key clears the peer with all its ids. The agreement is kept. |
| `PeerSessions.WgSessions.FindPeerById` | src/wireguard/state.rs:265 | The peer found for an id is live and has the pending handshake or a session of that id; if none is found, no peer has it. |
| `PeerSessions.InitiationIsStep` | src/wireguard/state.rs:105-118 | The ids that the drop guards take out while an initiation is handled are exactly those that the peer no longer holds. |
| `PeerSessions.ResponseIsStep` | src/wireguard/state.rs:302-312 | The same for a response, whose id goes over to the new session. |
| `PeerSessions.SendingIsStep` | src/wireguard/peer_state.rs:380-402 | The same for a new initiation, which replaces the pending one. |
| `Timer.StepKeepsInvariant` | src/wireguard/timer.rs:56-113 | Every step of a handle, the task or the clock keeps: the flag is up if and only if the timer was armed last, an activated timer has the deadline of that arming (never the one of the re-poll), and a sleeping task will be woken. |
| `Timer.FiresOncePerArm` | src/wireguard/timer.rs:56-113 | Under every interleaving each firing is directly preceded by an arming, and comes no earlier than the time of that arming plus the delay asked for: at most one firing per arming, none after a de-activation. |
| `Timer.NoArmIsLost` | src/wireguard/timer.rs:56-84 | Once the delay asked for has passed since the timer was armed, the task fires on its own, whatever it was doing. |
| `Timer.NotDueWaits` | src/wireguard/timer.rs:62-66 | A task that polls before that goes back to sleep, registered to be woken at the time of arming plus the delay, and the timer stays armed. |
| `Timer.TimerOptions.AdjustAndActivate` | src/wireguard/timer.rs:92-98 | Arming sets the deadline to the present time plus the delay, and the flag, as the two steps under the lock. |
| `Timer.TimerOptions.Poll` | src/wireguard/timer.rs:58-78 | One poll fires if and only if the deadline has come and the flag was up; it then takes the flag, puts the deadline off by 600 seconds and leaves the task registered; the second poll of the delay is never ready. |
| `LoadMonitor.LoadMonitor.constructor` | src/wireguard/load_monitor.rs:43-50 | A new bucket is full and fits 64 bits for every frequency. |
| `LoadMonitor.LoadMonitor.CheckNow` | src/wireguard/load_monitor.rs:52-81 | A check in 64-bit arithmetic leaves the bucket within its capacity; with thresholds that fit it is the exact check if and only if the level is exact, and then, from two messages a second on, it reports load exactly at the literal thresholds of 3 and 3.5 seconds of messages. |
| `LoadMonitor.LoadMonitor.Refill` | src/wireguard/load_monitor.rs:56-66 | The level after a check is the exact one if and only if the uncapped total fits 64 bits, or wraps around to something that fills the bucket all the same. |
| `LoadMonitor.RunKeepsBounds` | src/wireguard/load_monitor.rs:55-81 | The bucket stays between zero and its capacity on every run. |
| `LoadMonitor.FreeMeansFewChecks` | src/wireguard/load_monitor.rs:70-78 | In any stretch of checks that all report no load there are fewer than frequency times (duration plus one second) of them. |
| `LoadMonitor.BurstReportsLoad` | src/wireguard/load_monitor.rs:36-50 | Of the messages that a new monitor of any frequency from one on gets all at once, it reports load exactly from the one whose number is its frequency on. |
| `LoadMonitor.QuietEndsLoad` | src/wireguard/load_monitor.rs:36-42 | For a frequency of at least two, once the credit of the elapsed time exceeds the messages by seven eighths of the bucket, some check has reported the end of the load. |
| `LoadMonitor.FourSecondsEndLoad` | src/wireguard/load_monitor.rs:36-42 | For a frequency of at least two, four seconds without a message end the load, whatever the bucket holds. |
| `LoadMonitor.RecoversIff` | src/wireguard/load_monitor.rs:36-42 | A monitor that is under load can come to report that there is none if and only if its frequency is not one. |
| `LoadMonitor.NeverFreeIff` | src/wireguard/load_monitor.rs:36-42 | A new monitor never reports that there is no load, however slow the messages, if and only if its frequency is one. |
| `LoadMonitor.ZeroAlternates` | src/wireguard/load_monitor.rs:70-78 | A monitor of frequency zero reports load and no load in turn. |
| `LoadMonitor.CreditExactIff` | src/wireguard/load_monitor.rs:61-62 | The credit computed with wrapping sums and products is exact if and only if it fits 64 bits. |
| `LoadMonitor.LevelExactIff` | src/wireguard/load_monitor.rs:61-66 | The same for the level, over every bucket within its capacity and every pause. |
| `LoadMonitor.CheckExactIff` | src/wireguard/load_monitor.rs:55-81 | With a frequency of at most 658812288 the whole check is exact if and only if the level is. |
| `LoadMonitor.ReportsAreExactIff` | src/wireguard/load_monitor.rs:70-78 | The reports at exact levels are all exact if and only if the frequency is at most 658812288. |
| `LoadMonitor.LongPauseReportsLoad` | src/wireguard/load_monitor.rs:55-81 | A new monitor of the 250 messages a second of the interface, whose first message comes after two years and four months, empties its full bucket and reports load. |
| `IpcText.HexRoundTrip` | src/ipc/server.rs:126-134 | Decoding the hexadecimal form of any bytes gives those bytes. |
| `IpcText.NumberRoundTrip` | src/ipc/server.rs:127-129 | Parsing the decimal form of a number gives the number if it is in range, and fails if it is not. |
| `IpcText.HexIsLowerCase` | src/ipc/server.rs:126-134 | What is printed for bytes is two lower-case digits for each, the higher one first. |
| `IpcText.NoLeadingZero` | src/ipc/server.rs:127-129 | What is printed for a number has no zero in front, except for zero itself. |
| `IpcLaws.ParseIff` | src/ipc/parse.rs:288-352 | A number is read if and only if, behind at most one plus sign, there are digits only and at least one, and the value is in range. |
| `IpcText.AllowedRoundTrip` | src/ipc/server.rs:135-137 | Parsing a printed allowed IP gives the same address and length. |
| `Ipc.AllowedLinesParse` | src/ipc/parse.rs:340-352 | The lines of the allowed IPs, in any order, add exactly those allowed IPs. |
| `Ipc.PeerLinesParse` | src/ipc/parse.rs:268-359 | The lines of a peer, whatever fields it has, parse to that peer and leave the rest of the stream. |
| `Ipc.PeersLinesParse` | src/ipc/parse.rs:381-391 | The lines of any number of peers parse to those peers. |
| `Ipc.StateRoundTrip` | src/ipc/server.rs:117-159 | For every interface state and every order of the allowed IPs, what is printed parses to that state. |
| `Ipc.ErrorRoundTrip` | src/ipc/server.rs:173-177 | Every 32-bit error number that is printed parses to that error. |
| `IpcLaws.PeerLinesSpelt` | src/ipc/server.rs:130-155 | The lines of a peer, in their order and letter by letter. |
| `IpcLaws.StateLinesSpelt` | src/ipc/server.rs:117-159 | The lines of a state, letter by letter. |
| `IpcLaws.AllowedLinesSpelt` | src/ipc/server.rs:135-137 | The lines of the allowed IPs, one for each, letter by letter. |
| `IpcLaws.NumberFields` | src/ipc/parse.rs:329-339 | Which lines of a peer set which number, and the literal largest values. |
| `IpcLaws.TimeFields` | src/ipc/parse.rs:317-328 | Seconds start the time of the last handshake; nanoseconds are added to it and refused without it. |
| `IpcLaws.FieldsStop` | src/ipc/parse.rs:268-359 | A peer ends before an empty line, the next peer and an unknown key; a refused value, a line without a key and the end of the stream are errors. |
| `IpcLaws.StateFields` | src/ipc/parse.rs:362-418 | Which lines set the key, the mark and the port of a state, and that any other key, a refused value and a value out of range are errors. |
| `IpcLaws.AllowedField` | src/ipc/parse.rs:340-352 | An allowed IP is read if and only if it is an address, a slash and a prefix length of at most 32 or 128. |
| `Ipc.SignedRoundTrip` | src/ipc/parse.rs:425-433 | A printed error number reads back if and only if it has 32 bits. |
| `IpcStream.Peekable.constructor` | src/ipc/parse.rs:41-46 | A new reader has all the items of the stream ahead of it. |
| `IpcStream.Peekable.TryNext` | src/ipc/parse.rs:48-62 | Exactly the next item is consumed; an error in the stream is reported. |
| `IpcStream.Peekable.TryPeek` | src/ipc/parse.rs:64-83 | Peeking loses and reorders nothing; an error in the stream is reported once. |
| `IpcStream.ParsePeerStateOut` | src/ipc/parse.rs:268-359 | The loop over peeked lines reads one peer, fails if and only if its lines are wrong, and leaves exactly what comes behind it. |
| `IpcStream.ParseWgStateOut` | src/ipc/parse.rs:362-418 | The loop over the lines of a response consumes input in every round and computes the parsed state. |
| `IpcStream.ReadGetResponse` | src/ipc/parse.rs:420-444 | Reads a whole response: a state or an error number. |
| `IpcStream.WriteAllowedIps` | src/ipc/server.rs:135-137 | Each allowed IP of a peer is printed exactly once. |
| `IpcStream.WritePeer` | src/ipc/server.rs:130-155 | The lines of a peer come in the order of the printer, optional ones only when there is something to print. |
| `IpcStream.WriteWgState` | src/ipc/server.rs:117-159 | The printed lines are those of the state, and read back as the state. |
| `IpcStream.WriteError` | src/ipc/server.rs:173-177 | The printed error reads back as the error. |
| `ChaChaRounds.RoundIsQuarterRounds` | src/crypto/xchacha20poly1305.rs:36-53 | A round on rows is the quarter round of section 2.1 of RFC 8439 on each of the four lanes. |
| `ChaChaRounds.RoundIsColumnRound` | src/crypto/xchacha20poly1305.rs:36-53 | A round on rows is the column round. |
| `ChaChaRounds.ShuffledRoundIsDiagonalRound` | src/crypto/xchacha20poly1305.rs:55-67 | With rows 0, 1 and 2 moved by 1, 2 and 3 lanes before and back after it, a round is the diagonal round. |
| `ChaChaRounds.RoundPairIsDoubleRound` | src/crypto/xchacha20poly1305.rs:69-75 | A round pair on rows is a standard double round, for any word operations and any lawful machine. |
| `LaneShuffles.LanesMoveLeft` | src/crypto/simd.rs:239-249 | The lane shuffles with their immediates move the lanes as the portable code does. |
| `LaneShuffles.LoadLe` | src/crypto/simd.rs:334-344 | The portable load reads the four words at their places. |
| `LaneShuffles.StoreLe` | src/crypto/simd.rs:346-351 | The portable store writes the sixteen bytes of a row and nothing else. |
| `HChaCha.ShiftOrRotates` | src/crypto/simd.rs:162-209 | Shifting both ways and joining is rotation to the left, for every amount. |
| `HChaCha.SwappedHalves` | src/crypto/simd.rs:154-157 | The two half-word shuffles rotate each lane by 16. |
| `HChaCha.ShuffledBytes16` | src/crypto/simd.rs:148-152 | The byte shuffle for 16 rotates each lane by 16. |
| `HChaCha.ShuffledBytes8` | src/crypto/simd.rs:211-219 | The byte shuffle for 8 rotates each lane by 8. |
| `HChaCha.ShuffledBytes24` | src/crypto/simd.rs:225-233 | The byte shuffle for 24 rotates each lane by 24. |
| `HChaCha.RotationsAgree` | src/crypto/simd.rs:136-143 | All implementations of the rotation agree, for every amount. |
| `HChaCha.LoadedBytesAreStored` | src/crypto/simd.rs:334-351 | Storing what was loaded gives the bytes back. |
| `HChaCha.ConstantsSpell` | src/crypto/xchacha20poly1305.rs:83 | The constants are the bytes of the text that the standard prescribes. |
| `HChaChaRows.RoundPairInPlace` | src/crypto/xchacha20poly1305.rs:69-75 | The in-place operations on the array of rows are a double round on its words. |
| `HChaChaRows.HashRows` | src/crypto/xchacha20poly1305.rs:80-97 | Loading, ten round pairs in place and storing two rows compute HChaCha in its quarter-round form, on every lawful machine. |
| `HChaCha.MachinesAreLawful` | src/crypto/simd.rs:136-254 | The portable code, the half-word code and the byte-shuffling code are lawful machines. |
| `HChaCha.HChaCha` | src/crypto/xchacha20poly1305.rs:99-119 | On every processor the result is that of section 2.2 of draft-irtf-cfrg-xchacha, for every key and nonce. |
| `HChaChaVectors.QuarterRoundVector` | src/crypto/xchacha20poly1305.rs:36-53 | The quarter round on 32-bit words gives the example of section 2.1.1 of RFC 8439. |
| `HChaChaVectors.KnownRounds` | src/crypto/xchacha20poly1305.rs:90-92 | The twenty rounds of the example of section 2.2.1 of draft-irtf-cfrg-xchacha, each from known words to known words. |
| `HChaChaVectors.KnownAnswer` | src/crypto/xchacha20poly1305.rs:177-196 | The reference gives the test vector of the repository, byte for byte. |
| `HChaChaVectors.XorMeaning` | src/crypto/simd.rs:273-279 | A bit of the exclusive or is set if and only if it is set in one word and not in the other. |
| `BlockRanges.SortSorts` | src/cli/network_config.rs:104 | Sorting gives an ascending permutation. |
| `BlockRanges.Dedup` | src/cli/network_config.rs:105 | Removing neighbours that are equal leaves each address once, ascending. |
| `BlockRanges.GetBlockRanges` | src/cli/network_config.rs:270-310 | For the sorted servers without repetitions that the caller passes, the ranges are ascending, disjoint, not adjacent, at most one more than the servers, within the addresses, and they cover an address if and only if it is not a server; nothing overflows at either end. |
| `BlockRanges.OnlyOneList` | src/cli/network_config.rs:270-310 | Two such lists of ranges that cover the same addresses are the same list. |
| `BlockRanges.BlockDns` | src/cli/network_config.rs:95-122 | For every list of servers, in any order and with repetitions, an address of either version, up to the literal largest ones, is blocked if and only if it is not one of them. |

## Left out

- LoadMonitor.LoadMonitor.CheckNow: models a release build, in which 64-bit arithmetic wraps around; a debug build panics instead.
- Sessions.StepKeeps: the other timers of a peer (keepalive, persistent keepalive, rekey after silence) only send packets and start handshakes; a handshake may be started at any time here, and their own deadlines are not modelled.
- SendCounter.NumbersAreUnique: the handler may send any number of queued packets, while the queue holds at most sixteen.
- PeerSessions.WgSessions.SendInitiation: a round of the resend loop runs only while its scope is alive; cancelling a round that is in the middle of its work is not modelled.
- PeerSessions.WgSessions.ProcessHandshakeInit: only authentic messages; cookies, message authentication and the load monitor in front of it change nothing here.
- WgState.WgState.SetPeer: clearing sessions on a new preshared key is `PeerSessions.WgSessions.SetPsk`; the persistent keepalive timer is not touched.
- Reload.Reload: private key, listening port and firewall mark are socket effects; endpoints are in their IPv6 form.
- Ring.TunRing.Read: the driver at the other end of a ring is taken to run the same algorithm; a driver that corrupts the ring is caught by the same checks, which are modelled but then never fail.
- Timer.FiresOncePerArm: the runtime's delay is modelled by its deadline and by whether it will wake the task; its granularity is not.
- IpcStream.ReadGetResponse: the limit of 128 characters on a line, and times too large for the system clock to represent, which panic.
- IpcStream.WriteWgState: flow labels and scopes of IPv6 socket addresses, errors of the connection while writing, and the JSON output on Windows.
- LaneShuffles.StoreLe: the vector unit's loads and stores of a whole row are taken to be those of the portable code.
- Parsing of set requests (src/ipc/parse.rs:86-225): uses the same reader and the same fields as the response parser.
- Handshake cryptography, cookies, ciphers and random numbers: library code.
- Sockets, tunnel devices, foreign calls, services and the user interface.
- Configuration files, command line options and display.
