/** The loops that print an interface state line by line and read it back from a stream of lines. */
module IpcStream {
  import opened LittleEndian
  import opened Wrappers
  import opened IpcText
  import opened Ipc

  // ----- the peeking reader -----

  /** A stream of items of which one may have been taken out ahead of time. */
  class Peekable {
    var inner: seq<Item>
    var peeked: Option<Item>

    /** What the users of the reader have not consumed yet. */
    ghost function Remaining(): seq<Item>
      reads this
    {
      (if peeked.Some? then [peeked.value] else []) + inner
    }

    constructor (inner: seq<Item>)
      ensures Remaining() == inner
    {
      this.inner := inner;
      peeked := None;
    }

    /** The next item of the underlying stream, if there is one. */
    method Pull() returns (item: Option<Item>)
      modifies this`inner
      ensures item == (if old(inner) == [] then None else Some(old(inner)[0]))
      ensures inner == (if old(inner) == [] then [] else old(inner)[1..])
    {
      if inner == [] {
        return None;
      }
      item := Some(inner[0]);
      inner := inner[1..];
    }

    /** Consumes exactly the next item. */
    method TryNext() returns (r: Result<Option<string>>)
      modifies this
      ensures old(Remaining()) == [] ==> r == Ok(None) && Remaining() == []
      ensures old(Remaining()) != [] ==> Remaining() == old(Remaining())[1..]
      ensures old(Remaining()) != [] ==>
        r == (match old(Remaining())[0] case Ok(line) => Ok(Some(line)) case Err => Err)
    {
      while true
        invariant Remaining() == old(Remaining())
        decreases peeked.None?
      {
        if peeked.Some? {
          var x := peeked.value;
          peeked := None;
          match x
          case Ok(line) => return Ok(Some(line));
          case Err => return Err;
        }
        peeked := Pull();
        if peeked.None? {
          return Ok(None);
        }
      }
    }

    /** Shows the next item. Nothing is consumed, except that an error is reported only once. */
    method TryPeek() returns (r: Result<Option<string>>)
      modifies this
      ensures old(Remaining()) == [] ==> r == Ok(None) && Remaining() == []
      ensures old(Remaining()) != [] && old(Remaining())[0].Ok? ==>
        r == Ok(Some(old(Remaining())[0].value)) && Remaining() == old(Remaining())
      ensures old(Remaining()) != [] && old(Remaining())[0].Err? ==>
        r == Err && Remaining() == old(Remaining())[1..]
    {
      while true
        invariant Remaining() == old(Remaining())
        decreases peeked.None?
      {
        match peeked
        case Some(Ok(line)) =>
          return Ok(Some(line));
        case Some(Err) =>
          peeked := None;
          return Err;
        case None =>
          peeked := Pull();
          if peeked.None? {
            return Ok(None);
          }
      }
    }
  }

  // ----- parsing -----

  /** Reads one peer. A peer that is read leaves the reader at the first line that is not part of it. */
  method ParsePeerStateOut(pr: Printer, stream: Peekable) returns (r: Result<PeerOut>)
    modifies stream
    ensures var want := ParsePeer(pr, old(stream.Remaining()));
            if want.Ok? then r == Ok(want.value.peer) && stream.Remaining() == want.value.rest else r == Err
  {
    ghost var want := ParsePeer(pr, stream.Remaining());
    var first := stream.TryNext();
    if first.Err? || first.value.None? {
      return Err;
    }
    var kv := SplitOnce(first.value.value, '=');
    if kv.None? || kv.value.0 != "public_key" {
      return Err;
    }
    var key := ParseKey(kv.value.1);
    if key.None? {
      return Err;
    }
    var peer := NewPeer(key.value);
    while true
      invariant want == ParseFields(pr, peer, stream.Remaining())
      decreases |stream.Remaining()|
    {
      var peek := stream.TryPeek();
      if peek.Err? || peek.value.None? {
        return Err;
      }
      var line := peek.value.value;
      if line == "" || "public_key" <= line {
        break;
      }
      kv := SplitOnce(line, '=');
      if kv.None? {
        return Err;
      }
      match ParseField(pr, peer, kv.value.0, kv.value.1)
      case Unknown => break;
      case Invalid => return Err;
      case Known(p) =>
        peer := p;
        var _ := stream.TryNext();
    }
    r := Ok(peer);
  }

  /** The state `s` with the peers that were read added to it. */
  ghost function WithPeers(s: StateOut, peers: Result<seq<PeerOut>>): Result<StateOut> {
    if peers.Err? then Err else Ok(s.(peers := s.peers + peers.value))
  }

  lemma OnePeerThen(s: StateOut, p: PeerOut, more: seq<PeerOut>)
    ensures WithPeers(s, Ok([p] + more)) == WithPeers(s.(peers := s.peers + [p]), Ok(more))
  {
    assert s.peers + ([p] + more) == s.peers + [p] + more;
  }

  method ParsePeerList(pr: Printer, stream: Peekable, s: StateOut) returns (r: Result<StateOut>)
    modifies stream
    ensures r == WithPeers(s, ParsePeers(pr, old(stream.Remaining())))
  {
    ghost var want := WithPeers(s, ParsePeers(pr, stream.Remaining()));
    var state := s;
    while true
      invariant want == WithPeers(state, ParsePeers(pr, stream.Remaining()))
      decreases |stream.Remaining()|
    {
      ghost var more := ParsePeers(pr, ParsePeerRest(pr, stream.Remaining()));
      var peer := ParsePeerStateOut(pr, stream);
      if peer.Err? {
        return Err;
      }
      if more.Ok? {
        OnePeerThen(state, peer.value, more.value);
      }
      state := state.(peers := state.peers + [peer.value]);
      var peek := stream.TryPeek();
      if peek.Err? || peek.value.None? {
        return Err;
      }
      if !("public_key" <= peek.value.value) {
        break;
      }
    }
    r := Ok(state);
  }

  ghost function ParsePeerRest(pr: Printer, items: seq<Item>): seq<Item> {
    var r := ParsePeer(pr, items);
    if r.Ok? then r.value.rest else []
  }

  method ParseWgStateOut(pr: Printer, stream: Peekable) returns (r: Result<StateOut>)
    modifies stream
    ensures r == ParseState(pr, NoState(), old(stream.Remaining()))
  {
    var state := NoState();
    while true
      invariant ParseState(pr, NoState(), old(stream.Remaining())) == ParseState(pr, state, stream.Remaining())
      decreases |stream.Remaining()|
    {
      var peek := stream.TryPeek();
      if peek.Err? || peek.value.None? {
        return Err;
      }
      var line := peek.value.value;
      if line == "" {
        var _ := stream.TryNext();
        break;
      } else if "public_key" <= line {
        r := ParsePeerList(pr, stream, state);
        return;
      }
      var _ := stream.TryNext();
      var kv := SplitOnce(line, '=');
      if kv.None? {
        return Err;
      }
      var (k, v) := kv.value;
      if k == "private_key" {
        var b := ParseKey(v);
        if b.None? {
          return Err;
        }
        state := state.(privateKey := b.value);
      } else if k == "fwmark" {
        var n := Parse(v, U32);
        if n.None? {
          return Err;
        }
        state := state.(fwmark := n.value);
      } else if k == "listen_port" {
        var n := Parse(v, U16);
        if n.None? {
          return Err;
        }
        state := state.(listenPort := n.value);
      } else if k == "errno" || k == "protocol_version" {
        break;
      } else {
        return Err;
      }
    }
    r := Ok(state);
  }

  /** Reads the answer to a request for the state from all the items of a stream. */
  method ReadGetResponse(pr: Printer, items: seq<Item>) returns (r: Result<Response>)
    ensures r == ParseGetResponse(pr, items)
  {
    var stream := new Peekable(items);
    var peek := stream.TryPeek();
    if peek.Err? || peek.value.None? {
      return Err;
    }
    var line := peek.value.value;
    if "errno=" <= line {
      var errno := ParseErrno(line[6..]);
      if errno.None? {
        return Err;
      }
      r := Ok(Errno(errno.value));
    } else {
      var state := ParseWgStateOut(pr, stream);
      if state.Err? {
        return Err;
      }
      r := Ok(State(state.value));
    }
  }

  // ----- printing -----

  /** The lines of one peer's allowed IPs, in an order of the printer's choice. */
  method WriteAllowedIps(pr: Printer, p: PeerOut) returns (lines: seq<string>, ghost order: seq<(Ip, nat)>)
    ensures Enumerates(order, p) && |order| == |p.allowedIps|
    ensures lines == AllowedLines(pr, order)
  {
    lines, order := [], [];
    var left := p.allowedIps;
    while left != {}
      invariant left <= p.allowedIps
      invariant forall a :: a in order <==> a in p.allowedIps && a !in left
      invariant |order| + |left| == |p.allowedIps|
      invariant lines == AllowedLines(pr, order)
      decreases |left|
    {
      var a :| a in left;
      left := left - {a};
      AllowedLinesGrow(pr, order, a);
      lines := lines + [Line("allowed_ip", ShowAllowed(pr, a))];
      order := order + [a];
    }
  }

  lemma {:induction false} AllowedLinesGrow(pr: Printer, ips: seq<(Ip, nat)>, a: (Ip, nat))
    ensures AllowedLines(pr, ips + [a]) == AllowedLines(pr, ips) + [Line("allowed_ip", ShowAllowed(pr, a))]
  {
    if ips == [] {
      assert [a][1..] == [] && ips + [a] == [a];
    } else {
      assert (ips + [a])[0] == ips[0] && (ips + [a])[1..] == ips[1..] + [a];
      AllowedLinesGrow(pr, ips[1..], a);
    }
  }

  method WritePeer(pr: Printer, p: PeerOut) returns (w: seq<string>, ghost order: seq<(Ip, nat)>)
    ensures Enumerates(order, p) && |order| == |p.allowedIps|
    ensures w == PeerLines(pr, p, order)
  {
    w := [Line("public_key", HexEncode(p.publicKey))];
    if p.presharedKey.Some? {
      w := w + [Line("preshared_key", HexEncode(p.presharedKey.value))];
    }
    assert w == [Line("public_key", HexEncode(p.publicKey))] + PskLines(p);
    var allowed;
    allowed, order := WriteAllowedIps(pr, p);
    w := w + allowed;
    var tail := [Line("persistent_keepalive_interval", Show(p.keepalive))];
    if p.endpoint.Some? {
      tail := tail + [Line("endpoint", pr.showAddr(p.endpoint.value))];
    }
    assert tail == [Line("persistent_keepalive_interval", Show(p.keepalive))] + EndpointLines(pr, p);
    tail := tail + [Line("rx_bytes", Show(p.rxBytes))] + [Line("tx_bytes", Show(p.txBytes))];
    assert tail == [Line("persistent_keepalive_interval", Show(p.keepalive))] + EndpointLines(pr, p) + CounterLines(p);
    if p.lastHandshake.Some? {
      var t := p.lastHandshake.value;
      tail := tail + [Line("last_handshake_time_sec", Show(t / NANOS))] + [Line("last_handshake_time_nsec", Show(t % NANOS))];
    }
    assert tail == TailLines(pr, p);
    w := w + tail;
  }

  lemma {:induction false} PeersLinesGrow(pr: Printer, peers: seq<PeerOut>, orders: seq<seq<(Ip, nat)>>,
      p: PeerOut, order: seq<(Ip, nat)>)
    requires |peers| == |orders|
    ensures PeersLines(pr, peers + [p], orders + [order]) == PeersLines(pr, peers, orders) + PeerLines(pr, p, order)
  {
    if peers == [] {
      assert peers + [p] == [p] && orders + [order] == [order];
      assert [p][1..] == [] && [order][1..] == [];
    } else {
      assert (peers + [p])[0] == peers[0] && (peers + [p])[1..] == peers[1..] + [p];
      assert (orders + [order])[0] == orders[0] && (orders + [order])[1..] == orders[1..] + [order];
      PeersLinesGrow(pr, peers[1..], orders[1..], p, order);
    }
  }

  /** Each peer's allowed IPs, every one exactly once. */
  ghost predicate Orders(orders: seq<seq<(Ip, nat)>>, peers: seq<PeerOut>) {
    |orders| == |peers|
    && forall i :: 0 <= i < |orders| ==> Enumerates(orders[i], peers[i]) && |orders[i]| == |peers[i].allowedIps|
  }

  lemma OrdersGrow(orders: seq<seq<(Ip, nat)>>, peers: seq<PeerOut>, order: seq<(Ip, nat)>, p: PeerOut)
    requires Orders(orders, peers) && Enumerates(order, p) && |order| == |p.allowedIps|
    ensures Orders(orders + [order], peers + [p])
  {}

  method WritePeers(pr: Printer, peers: seq<PeerOut>) returns (w: seq<string>, ghost orders: seq<seq<(Ip, nat)>>)
    ensures Orders(orders, peers) && w == PeersLines(pr, peers, orders)
  {
    w, orders := [], [];
    for i := 0 to |peers|
      invariant Orders(orders, peers[..i]) && w == PeersLines(pr, peers[..i], orders)
    {
      ghost var order;
      var lines;
      lines, order := WritePeer(pr, peers[i]);
      PeersLinesGrow(pr, peers[..i], orders, peers[i], order);
      OrdersGrow(orders, peers[..i], order, peers[i]);
      assert peers[..i] + [peers[i]] == peers[..i + 1];
      w := w + lines;
      orders := orders + [order];
    }
    assert peers[..|peers|] == peers;
  }

  /** Prints a state, each peer's allowed IPs in the order that `orders` reports. */
  method WriteWgState(pr: Printer, s: StateOut) returns (w: seq<string>, ghost orders: seq<seq<(Ip, nat)>>)
    ensures Orders(orders, s.peers)
    ensures w == StateLines(pr, s, orders)
    ensures pr.Lawful() && s.Ok() ==> ParseGetResponse(pr, Items(w)) == Ok(State(s))
  {
    w := [Line("private_key", HexEncode(s.privateKey)), Line("listen_port", Show(s.listenPort))];
    if s.fwmark != 0 {
      w := w + [Line("fwmark", Show(s.fwmark))];
    }
    var peers;
    peers, orders := WritePeers(pr, s.peers);
    w := w + peers + ["errno=0", ""];
    assert w == StateLines(pr, s, orders);
    if pr.Lawful() && s.Ok() {
      StateRoundTrip(pr, s, orders);
    }
  }

  method WriteError(pr: Printer, errno: int) returns (w: seq<string>)
    ensures w == ErrorLines(errno)
    ensures -0x8000_0000 <= errno <= 0x7fff_ffff ==> ParseGetResponse(pr, Items(w)) == Ok(Errno(errno))
  {
    w := [Line("errno", ShowSigned(errno))];
    w := w + [""];
    if -0x8000_0000 <= errno <= 0x7fff_ffff {
      ErrorRoundTrip(pr, errno);
    }
  }
}
