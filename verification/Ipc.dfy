/** The state of an interface as it is printed on the configuration socket, and the parser that
    reads it back. */
module Ipc {
  import opened LittleEndian
  import opened Wrappers
  import opened IpcText

  const U16: nat := 0xffff
  const U32: nat := 0xffff_ffff
  const U64: nat := 0xffff_ffff_ffff_ffff
  const NANOS: nat := 1_000_000_000

  /** `lastHandshake` is in nanoseconds since the epoch. */
  datatype PeerOut = PeerOut(
    publicKey: seq<Byte>, presharedKey: Option<seq<Byte>>, endpoint: Option<SocketAddr>,
    lastHandshake: Option<nat>, rxBytes: nat, txBytes: nat, keepalive: nat, allowedIps: set<(Ip, nat)>)
  {
    ghost predicate Ok() {
      && |publicKey| == 32
      && (presharedKey.Some? ==> |presharedKey.value| == 32)
      && (lastHandshake.Some? ==> lastHandshake.value / NANOS <= U64)
      && rxBytes <= U64 && txBytes <= U64 && keepalive <= U16
      && (endpoint.Some? ==> endpoint.value.Ok())
      && forall a :: a in allowedIps ==> AllowedOk(a)
    }
  }

  datatype StateOut = StateOut(privateKey: seq<Byte>, peers: seq<PeerOut>, listenPort: nat, fwmark: nat) {
    ghost predicate Ok() {
      && |privateKey| == 32 && listenPort <= U16 && fwmark <= U32
      && forall i :: 0 <= i < |peers| ==> peers[i].Ok()
    }
  }

  // ----- printing -----

  /** `ips` lists the allowed IPs in the order in which they are printed. */
  ghost predicate Enumerates(ips: seq<(Ip, nat)>, p: PeerOut) {
    forall a :: a in ips <==> a in p.allowedIps
  }

  function AllowedLines(pr: Printer, ips: seq<(Ip, nat)>): seq<string> {
    if ips == [] then [] else [Line("allowed_ip", ShowAllowed(pr, ips[0]))] + AllowedLines(pr, ips[1..])
  }

  function EndpointLines(pr: Printer, p: PeerOut): seq<string> {
    if p.endpoint.Some? then [Line("endpoint", pr.showAddr(p.endpoint.value))] else []
  }

  function TimeLines(p: PeerOut): seq<string> {
    if p.lastHandshake.Some? then
      [Line("last_handshake_time_sec", Show(p.lastHandshake.value / NANOS)),
       Line("last_handshake_time_nsec", Show(p.lastHandshake.value % NANOS))]
    else []
  }

  function CounterLines(p: PeerOut): seq<string> {
    [Line("rx_bytes", Show(p.rxBytes)), Line("tx_bytes", Show(p.txBytes))]
  }

  /** The lines after the allowed IPs. */
  function TailLines(pr: Printer, p: PeerOut): seq<string> {
    [Line("persistent_keepalive_interval", Show(p.keepalive))] + EndpointLines(pr, p) + CounterLines(p) + TimeLines(p)
  }

  function PskLines(p: PeerOut): seq<string> {
    if p.presharedKey.Some? then [Line("preshared_key", HexEncode(p.presharedKey.value))] else []
  }

  function PeerLines(pr: Printer, p: PeerOut, ips: seq<(Ip, nat)>): seq<string> {
    [Line("public_key", HexEncode(p.publicKey))] + PskLines(p) + AllowedLines(pr, ips) + TailLines(pr, p)
  }

  function PeersLines(pr: Printer, peers: seq<PeerOut>, orders: seq<seq<(Ip, nat)>>): seq<string>
    requires |peers| == |orders|
  {
    if peers == [] then []
    else PeerLines(pr, peers[0], orders[0]) + PeersLines(pr, peers[1..], orders[1..])
  }

  function FwmarkLines(s: StateOut): seq<string> {
    if s.fwmark != 0 then [Line("fwmark", Show(s.fwmark))] else []
  }

  function StateLines(pr: Printer, s: StateOut, orders: seq<seq<(Ip, nat)>>): seq<string>
    requires |s.peers| == |orders|
  {
    [Line("private_key", HexEncode(s.privateKey)), Line("listen_port", Show(s.listenPort))]
    + FwmarkLines(s)
    + PeersLines(pr, s.peers, orders)
    + ["errno=0", ""]
  }

  /** A signed number in decimal. */
  function ShowSigned(e: int): string {
    if e < 0 then "-" + Show(0 - e) else Show(e)
  }

  function ErrorLines(errno: int): seq<string> {
    [Line("errno", ShowSigned(errno)), ""]
  }

  // ----- parsing -----

  datatype Result<+T> = Ok(value: T) | Err

  /** An item of the line stream: a line, or an error of the connection. */
  type Item = Result<string>

  function ParseKey(v: string): Option<seq<Byte>> {
    var b := HexDecode(v);
    if b.Some? && |b.value| == 32 then b else None
  }

  datatype Field = Unknown | Invalid | Known(peer: PeerOut)

  function ParseField(pr: Printer, p: PeerOut, k: string, v: string): Field {
    if k == "last_handshake_time_sec" then
      match Parse(v, U64)
      case None => Invalid
      case Some(n) => Known(p.(lastHandshake := Some(n * NANOS)))
    else if k == "last_handshake_time_nsec" then
      match (p.lastHandshake, Parse(v, U64))
      case (Some(t), Some(n)) => Known(p.(lastHandshake := Some(t + n)))
      case _ => Invalid
    else if k == "rx_bytes" then
      match Parse(v, U64)
      case None => Invalid
      case Some(n) => Known(p.(rxBytes := n))
    else if k == "tx_bytes" then
      match Parse(v, U64)
      case None => Invalid
      case Some(n) => Known(p.(txBytes := n))
    else if k == "preshared_key" then
      match ParseKey(v)
      case None => Invalid
      case Some(b) => Known(p.(presharedKey := Some(b)))
    else if k == "endpoint" then
      match pr.parseAddr(v)
      case None => Invalid
      case Some(a) => Known(p.(endpoint := Some(a)))
    else if k == "persistent_keepalive_interval" then
      match Parse(v, U16)
      case None => Invalid
      case Some(n) => Known(p.(keepalive := n))
    else if k == "allowed_ip" then
      match ParseAllowed(pr, v)
      case None => Invalid
      case Some(a) => Known(p.(allowedIps := p.allowedIps + {a}))
    else Unknown
  }

  /** A peer and the items behind it. */
  datatype Parsed = Parsed(peer: PeerOut, rest: seq<Item>)

  /** Fields up to an empty line, the next peer, or a key that is not a peer's; the line that
      ends them is not consumed. */
  function ParseFields(pr: Printer, p: PeerOut, items: seq<Item>): (r: Result<Parsed>)
    ensures r.Ok? ==> |r.value.rest| <= |items|
    decreases |items|
  {
    if items == [] || items[0].Err? then Err
    else
      var line := items[0].value;
      if line == "" || "public_key" <= line then Ok(Parsed(p, items))
      else
        var kv := SplitOnce(line, '=');
        if kv.None? then Err
        else
          match ParseField(pr, p, kv.value.0, kv.value.1)
          case Unknown => Ok(Parsed(p, items))
          case Invalid => Err
          case Known(p') => ParseFields(pr, p', items[1..])
  }

  function NewPeer(publicKey: seq<Byte>): PeerOut {
    PeerOut(publicKey, None, None, None, 0, 0, 0, {})
  }

  function ParsePeer(pr: Printer, items: seq<Item>): (r: Result<Parsed>)
    ensures r.Ok? ==> |r.value.rest| < |items|
  {
    if items == [] || items[0].Err? then Err
    else
      var kv := SplitOnce(items[0].value, '=');
      if kv.None? || kv.value.0 != "public_key" then Err
      else
        var key := ParseKey(kv.value.1);
        if key.None? then Err else ParseFields(pr, NewPeer(key.value), items[1..])
  }

  /** One peer after the other, as long as the next line starts one. */
  function ParsePeers(pr: Printer, items: seq<Item>): Result<seq<PeerOut>>
    decreases |items|
  {
    var r := ParsePeer(pr, items);
    if r.Err? then Err
    else
      var rest := r.value.rest;
      if rest == [] || rest[0].Err? then Err
      else if !("public_key" <= rest[0].value) then Ok([r.value.peer])
      else
        var more := ParsePeers(pr, rest);
        if more.Err? then Err else Ok([r.value.peer] + more.value)
  }

  function ParseState(pr: Printer, s: StateOut, items: seq<Item>): Result<StateOut>
    decreases |items|
  {
    if items == [] || items[0].Err? then Err
    else
      var line := items[0].value;
      if line == "" then Ok(s)
      else if "public_key" <= line then
        var r := ParsePeers(pr, items);
        if r.Err? then Err else Ok(s.(peers := s.peers + r.value))
      else
        var kv := SplitOnce(line, '=');
        if kv.None? then Err
        else
          var (k, v) := kv.value;
          if k == "private_key" then
            var b := ParseKey(v);
            if b.None? then Err else ParseState(pr, s.(privateKey := b.value), items[1..])
          else if k == "fwmark" then
            var n := Parse(v, U32);
            if n.None? then Err else ParseState(pr, s.(fwmark := n.value), items[1..])
          else if k == "listen_port" then
            var n := Parse(v, U16);
            if n.None? then Err else ParseState(pr, s.(listenPort := n.value), items[1..])
          else if k == "errno" || k == "protocol_version" then Ok(s)
          else Err
  }

  /** A state with an all-zero key, to be filled in. */
  function NoState(): StateOut {
    StateOut(seq(32, _ => 0), [], 0, 0)
  }

  /** The state, or the error number that the other side reports. */
  datatype Response = State(state: StateOut) | Errno(errno: int)

  /** A signed 32-bit number. */
  function ParseErrno(v: string): Option<int> {
    if v != "" && v[0] == '-' then
      if |v| >= 2 && v[1] == '+' then None
      else
        var n := Parse(v[1..], 0x8000_0000);
        if n.None? then None else (var e: int := 0 - n.value; Some(e))
    else
      var n := Parse(v, 0x7fff_ffff);
      if n.None? then None else Some(n.value)
  }

  function ParseGetResponse(pr: Printer, items: seq<Item>): Result<Response> {
    if items == [] || items[0].Err? then Err
    else if "errno=" <= items[0].value then
      var errno := ParseErrno(items[0].value[6..]);
      if errno.None? then Err else Ok(Errno(errno.value))
    else
      var r := ParseState(pr, NoState(), items);
      if r.Err? then Err else Ok(State(r.value))
  }

  // ----- the round trip -----

  function Items(lines: seq<string>): seq<Item> {
    seq(|lines|, i requires 0 <= i < |lines| => Ok(lines[i]))
  }

  /** The stream in which `lines` come before `rest`. */
  function Ahead(lines: seq<string>, rest: seq<Item>): seq<Item> {
    Items(lines) + rest
  }

  lemma AheadAppend(a: seq<string>, b: seq<string>, rest: seq<Item>)
    ensures Ahead(a + b, rest) == Ahead(a, Ahead(b, rest))
  {}

  lemma AheadOne(line: string, rest: seq<Item>)
    ensures Ahead([line], rest) == [Ok(line)] + rest
    ensures Ahead([line], rest)[0] == Ok(line) && Ahead([line], rest)[1..] == rest
  {}

  lemma AheadNone(rest: seq<Item>)
    ensures Ahead([], rest) == rest
  {}

  /** A key that does not look like the start of a peer. */
  predicate FieldKey(k: string) {
    |k| >= 2 && (k[0] != 'p' || k[1] != 'u') && '=' !in k
  }

  lemma NotPeerStart(k: string, v: string)
    requires FieldKey(k)
    ensures !("public_key" <= Line(k, v)) && Line(k, v) != ""
  {
    assert "public_key"[0] == 'p' && "public_key"[1] == 'u';
    assert Line(k, v)[0] == k[0] && Line(k, v)[1] == k[1];
  }

  /** A line with a known key is one field. */
  lemma FieldLine(pr: Printer, p: PeerOut, k: string, v: string, p': PeerOut, rest: seq<Item>)
    requires FieldKey(k) && ParseField(pr, p, k, v) == Known(p')
    ensures ParseFields(pr, p, Ahead([Line(k, v)], rest)) == ParseFields(pr, p', rest)
  {
    NotPeerStart(k, v);
    LineSplits(k, v);
    AheadOne(Line(k, v), rest);
  }

  lemma KeyRoundTrip(b: seq<Byte>)
    requires |b| == 32
    ensures ParseKey(HexEncode(b)) == Some(b)
  {
    HexRoundTrip(b);
  }

  lemma SecondsField(pr: Printer, p: PeerOut, n: nat)
    requires n <= U64
    ensures FieldKey("last_handshake_time_sec")
    ensures ParseField(pr, p, "last_handshake_time_sec", Show(n)) == Known(p.(lastHandshake := Some(n * NANOS)))
  {
    NumberRoundTrip(n, U64);
  }

  lemma NanosField(pr: Printer, p: PeerOut, t: nat, n: nat)
    requires n <= U64 && p.lastHandshake == Some(t)
    ensures FieldKey("last_handshake_time_nsec")
    ensures ParseField(pr, p, "last_handshake_time_nsec", Show(n)) == Known(p.(lastHandshake := Some(t + n)))
  {
    NumberRoundTrip(n, U64);
  }

  lemma RxField(pr: Printer, p: PeerOut, n: nat)
    requires n <= U64
    ensures FieldKey("rx_bytes") && ParseField(pr, p, "rx_bytes", Show(n)) == Known(p.(rxBytes := n))
  {
    NumberRoundTrip(n, U64);
  }

  lemma TxField(pr: Printer, p: PeerOut, n: nat)
    requires n <= U64
    ensures FieldKey("tx_bytes") && ParseField(pr, p, "tx_bytes", Show(n)) == Known(p.(txBytes := n))
  {
    NumberRoundTrip(n, U64);
    assert "tx_bytes"[0] == 't' && "rx_bytes"[0] == 'r';
  }

  lemma PskField(pr: Printer, p: PeerOut, b: seq<Byte>)
    requires |b| == 32
    ensures FieldKey("preshared_key")
    ensures ParseField(pr, p, "preshared_key", HexEncode(b)) == Known(p.(presharedKey := Some(b)))
  {
    KeyRoundTrip(b);
  }

  lemma EndpointField(pr: Printer, p: PeerOut, a: SocketAddr)
    requires pr.Lawful() && a.Ok()
    ensures FieldKey("endpoint")
    ensures ParseField(pr, p, "endpoint", pr.showAddr(a)) == Known(p.(endpoint := Some(a)))
  {
    assert "endpoint"[0] == 'e' && "rx_bytes"[0] == 'r' && "tx_bytes"[0] == 't';
  }

  lemma KeepaliveField(pr: Printer, p: PeerOut, n: nat)
    requires n <= U16
    ensures FieldKey("persistent_keepalive_interval")
    ensures ParseField(pr, p, "persistent_keepalive_interval", Show(n)) == Known(p.(keepalive := n))
  {
    NumberRoundTrip(n, U16);
  }

  lemma AllowedField(pr: Printer, p: PeerOut, a: (Ip, nat))
    requires pr.Lawful() && AllowedOk(a)
    ensures FieldKey("allowed_ip")
    ensures ParseField(pr, p, "allowed_ip", ShowAllowed(pr, a)) == Known(p.(allowedIps := p.allowedIps + {a}))
  {
    AllowedRoundTrip(pr, a);
  }

  lemma {:induction false} AllowedLinesParse(pr: Printer, p: PeerOut, ips: seq<(Ip, nat)>, rest: seq<Item>)
    requires pr.Lawful() && forall a :: a in ips ==> AllowedOk(a)
    ensures ParseFields(pr, p, Ahead(AllowedLines(pr, ips), rest))
         == ParseFields(pr, p.(allowedIps := p.allowedIps + set a | a in ips), rest)
    decreases |ips|
  {
    if ips == [] {
      AheadNone(rest);
      assert p.allowedIps + (set a | a in ips) == p.allowedIps;
    } else {
      var a, more := ips[0], AllowedLines(pr, ips[1..]);
      var p' := p.(allowedIps := p.allowedIps + {a});
      AllowedField(pr, p, a);
      AheadAppend([Line("allowed_ip", ShowAllowed(pr, a))], more, rest);
      FieldLine(pr, p, "allowed_ip", ShowAllowed(pr, a), p', Ahead(more, rest));
      AllowedLinesParse(pr, p', ips[1..], rest);
      assert p'.allowedIps + (set x | x in ips[1..]) == p.allowedIps + set x | x in ips;
    }
  }

  lemma PskLineParses(pr: Printer, p: PeerOut, q: PeerOut, rest: seq<Item>)
    requires p.Ok() && q.presharedKey == None
    ensures ParseFields(pr, q, Ahead(PskLines(p), rest)) == ParseFields(pr, q.(presharedKey := p.presharedKey), rest)
  {
    if p.presharedKey.Some? {
      var b := p.presharedKey.value;
      PskField(pr, q, b);
      FieldLine(pr, q, "preshared_key", HexEncode(b), q.(presharedKey := Some(b)), rest);
    } else {
      AheadNone(rest);
      assert q.(presharedKey := None) == q;
    }
  }

  lemma EndpointLineParses(pr: Printer, p: PeerOut, q: PeerOut, rest: seq<Item>)
    requires pr.Lawful() && p.Ok() && q.endpoint == None
    ensures ParseFields(pr, q, Ahead(EndpointLines(pr, p), rest)) == ParseFields(pr, q.(endpoint := p.endpoint), rest)
  {
    if p.endpoint.Some? {
      var a := p.endpoint.value;
      EndpointField(pr, q, a);
      FieldLine(pr, q, "endpoint", pr.showAddr(a), q.(endpoint := Some(a)), rest);
    } else {
      AheadNone(rest);
      assert q.(endpoint := None) == q;
    }
  }

  lemma TimeLinesParse(pr: Printer, p: PeerOut, q: PeerOut, rest: seq<Item>)
    requires p.Ok() && q.lastHandshake == None
    ensures ParseFields(pr, q, Ahead(TimeLines(p), rest)) == ParseFields(pr, q.(lastHandshake := p.lastHandshake), rest)
  {
    if p.lastHandshake.Some? {
      var t := p.lastHandshake.value;
      var sec, nsec := Line("last_handshake_time_sec", Show(t / NANOS)), Line("last_handshake_time_nsec", Show(t % NANOS));
      var q1 := q.(lastHandshake := Some(t / NANOS * NANOS));
      SecondsField(pr, q, t / NANOS);
      NanosField(pr, q1, t / NANOS * NANOS, t % NANOS);
      assert t / NANOS * NANOS + t % NANOS == t;
      assert TimeLines(p) == [sec] + [nsec];
      AheadAppend([sec], [nsec], rest);
      FieldLine(pr, q, "last_handshake_time_sec", Show(t / NANOS), q1, Ahead([nsec], rest));
      FieldLine(pr, q1, "last_handshake_time_nsec", Show(t % NANOS), q1.(lastHandshake := Some(t)), rest);
    } else {
      AheadNone(rest);
      assert q.(lastHandshake := None) == q;
    }
  }

  lemma CounterLinesParse(pr: Printer, p: PeerOut, q: PeerOut, rest: seq<Item>)
    requires p.Ok()
    ensures ParseFields(pr, q, Ahead(CounterLines(p), rest))
         == ParseFields(pr, q.(rxBytes := p.rxBytes, txBytes := p.txBytes), rest)
  {
    var rx, tx := Line("rx_bytes", Show(p.rxBytes)), Line("tx_bytes", Show(p.txBytes));
    var q1 := q.(rxBytes := p.rxBytes);
    RxField(pr, q, p.rxBytes);
    TxField(pr, q1, p.txBytes);
    assert CounterLines(p) == [rx] + [tx];
    AheadAppend([rx], [tx], rest);
    FieldLine(pr, q, "rx_bytes", Show(p.rxBytes), q1, Ahead([tx], rest));
    FieldLine(pr, q1, "tx_bytes", Show(p.txBytes), q1.(txBytes := p.txBytes), rest);
  }

  lemma TailLinesParse(pr: Printer, p: PeerOut, rest: seq<Item>)
    requires pr.Lawful() && p.Ok()
    ensures var q := NewPeer(p.publicKey).(presharedKey := p.presharedKey, allowedIps := p.allowedIps);
            ParseFields(pr, q, Ahead(TailLines(pr, p), rest)) == ParseFields(pr, p, rest)
  {
    var q := NewPeer(p.publicKey).(presharedKey := p.presharedKey, allowedIps := p.allowedIps);
    var keep := [Line("persistent_keepalive_interval", Show(p.keepalive))];
    var ends, counters, times := EndpointLines(pr, p), CounterLines(p), TimeLines(p);
    AheadAppend(keep + ends + counters, times, rest);
    AheadAppend(keep + ends, counters, Ahead(times, rest));
    AheadAppend(keep, ends, Ahead(counters, Ahead(times, rest)));
    var q1 := q.(keepalive := p.keepalive);
    var q2 := q1.(endpoint := p.endpoint);
    var q3 := q2.(rxBytes := p.rxBytes, txBytes := p.txBytes);
    KeepaliveField(pr, q, p.keepalive);
    FieldLine(pr, q, "persistent_keepalive_interval", Show(p.keepalive), q1, Ahead(ends, Ahead(counters, Ahead(times, rest))));
    EndpointLineParses(pr, p, q1, Ahead(counters, Ahead(times, rest)));
    CounterLinesParse(pr, p, q2, Ahead(times, rest));
    TimeLinesParse(pr, p, q3, rest);
  }

  /** The next line, which is there, ends the fields of a peer. */
  ghost predicate EndsFields(rest: seq<Item>) {
    rest != [] && rest[0].Ok? && ("public_key" <= rest[0].value || rest[0].value == "errno=0")
  }

  lemma ErrnoLine()
    ensures SplitOnce("errno=0", '=') == Some(("errno", "0")) && !("public_key" <= "errno=0")
  {
    assert "errno=0" == Line("errno", "0");
    NotPeerStart("errno", "0");
    LineSplits("errno", "0");
  }

  lemma FieldsEnd(pr: Printer, p: PeerOut, rest: seq<Item>)
    requires EndsFields(rest)
    ensures ParseFields(pr, p, rest) == Ok(Parsed(p, rest))
  {
    ErrnoLine();
    assert ParseField(pr, p, "errno", "0") == Unknown;
  }

  lemma PeerLinesParse(pr: Printer, p: PeerOut, ips: seq<(Ip, nat)>, rest: seq<Item>)
    requires pr.Lawful() && p.Ok() && Enumerates(ips, p) && EndsFields(rest)
    ensures ParsePeer(pr, Ahead(PeerLines(pr, p, ips), rest)) == Ok(Parsed(p, rest))
  {
    var key := Line("public_key", HexEncode(p.publicKey));
    var psk, allowed, tail := PskLines(p), AllowedLines(pr, ips), TailLines(pr, p);
    AheadAppend([key] + psk + allowed, tail, rest);
    AheadAppend([key] + psk, allowed, Ahead(tail, rest));
    AheadAppend([key], psk, Ahead(allowed, Ahead(tail, rest)));
    AheadOne(key, Ahead(psk, Ahead(allowed, Ahead(tail, rest))));
    KeyRoundTrip(p.publicKey);
    LineSplits("public_key", HexEncode(p.publicKey));
    var q0 := NewPeer(p.publicKey);
    var q1 := q0.(presharedKey := p.presharedKey);
    PskLineParses(pr, p, q0, Ahead(allowed, Ahead(tail, rest)));
    AllowedLinesParse(pr, q1, ips, Ahead(tail, rest));
    assert q1.allowedIps + (set a | a in ips) == p.allowedIps;
    TailLinesParse(pr, p, rest);
    FieldsEnd(pr, p, rest);
  }

  ghost predicate Printable(peers: seq<PeerOut>, orders: seq<seq<(Ip, nat)>>) {
    |peers| == |orders| && forall i :: 0 <= i < |peers| ==> peers[i].Ok() && Enumerates(orders[i], peers[i])
  }

  lemma PeersStart(pr: Printer, peers: seq<PeerOut>, orders: seq<seq<(Ip, nat)>>, rest: seq<Item>)
    requires |peers| == |orders| && peers != []
    ensures var items := Ahead(PeersLines(pr, peers, orders), rest);
            items != [] && items[0].Ok? && "public_key" <= items[0].value
  {
    var line := Line("public_key", HexEncode(peers[0].publicKey));
    assert PeerLines(pr, peers[0], orders[0])[0] == line;
    assert PeersLines(pr, peers, orders)[0] == line;
    assert line[..10] == "public_key";
  }

  lemma LastPeer(pr: Printer, p: PeerOut, items: seq<Item>, rest: seq<Item>)
    requires ParsePeer(pr, items) == Ok(Parsed(p, rest))
    requires rest != [] && rest[0].Ok? && !("public_key" <= rest[0].value)
    ensures ParsePeers(pr, items) == Ok([p])
  {}

  lemma OneMorePeer(pr: Printer, p: PeerOut, more: seq<PeerOut>, items: seq<Item>, rest: seq<Item>)
    requires ParsePeer(pr, items) == Ok(Parsed(p, rest))
    requires rest != [] && rest[0].Ok? && "public_key" <= rest[0].value
    requires ParsePeers(pr, rest) == Ok(more)
    ensures ParsePeers(pr, items) == Ok([p] + more)
  {}

  lemma LastPeerLines(pr: Printer, p: PeerOut, ips: seq<(Ip, nat)>, rest: seq<Item>)
    requires pr.Lawful() && p.Ok() && Enumerates(ips, p) && rest != [] && rest[0] == Ok("errno=0")
    ensures ParsePeers(pr, Ahead(PeerLines(pr, p, ips), rest)) == Ok([p])
  {
    ErrnoLine();
    PeerLinesParse(pr, p, ips, rest);
    LastPeer(pr, p, Ahead(PeerLines(pr, p, ips), rest), rest);
  }

  lemma MorePeerLines(pr: Printer, p: PeerOut, ips: seq<(Ip, nat)>, more: seq<PeerOut>, rest: seq<Item>)
    requires pr.Lawful() && p.Ok() && Enumerates(ips, p)
    requires rest != [] && rest[0].Ok? && "public_key" <= rest[0].value && ParsePeers(pr, rest) == Ok(more)
    ensures ParsePeers(pr, Ahead(PeerLines(pr, p, ips), rest)) == Ok([p] + more)
  {
    PeerLinesParse(pr, p, ips, rest);
    OneMorePeer(pr, p, more, Ahead(PeerLines(pr, p, ips), rest), rest);
  }

  lemma {:induction false} PeersLinesParse(pr: Printer, peers: seq<PeerOut>, orders: seq<seq<(Ip, nat)>>, rest: seq<Item>)
    requires pr.Lawful() && peers != [] && Printable(peers, orders)
    requires rest != [] && rest[0] == Ok("errno=0")
    ensures ParsePeers(pr, Ahead(PeersLines(pr, peers, orders), rest)) == Ok(peers)
    decreases |peers|
  {
    var first, more := PeerLines(pr, peers[0], orders[0]), PeersLines(pr, peers[1..], orders[1..]);
    AheadAppend(first, more, rest);
    if |peers| == 1 {
      AheadNone(rest);
      LastPeerLines(pr, peers[0], orders[0], rest);
      assert peers == [peers[0]];
    } else {
      PeersStart(pr, peers[1..], orders[1..], rest);
      PeersLinesParse(pr, peers[1..], orders[1..], rest);
      MorePeerLines(pr, peers[0], orders[0], peers[1..], Ahead(more, rest));
      assert peers == [peers[0]] + peers[1..];
    }
  }

  /** A `private_key`, `listen_port` or `fwmark` line sets that part of the state. */
  lemma PrivateKeyLine(pr: Printer, s: StateOut, b: seq<Byte>, rest: seq<Item>)
    requires |b| == 32
    ensures ParseState(pr, s, Ahead([Line("private_key", HexEncode(b))], rest)) == ParseState(pr, s.(privateKey := b), rest)
  {
    NotPeerStart("private_key", HexEncode(b));
    LineSplits("private_key", HexEncode(b));
    KeyRoundTrip(b);
    AheadOne(Line("private_key", HexEncode(b)), rest);
  }

  lemma ListenPortLine(pr: Printer, s: StateOut, n: nat, rest: seq<Item>)
    requires n <= U16
    ensures ParseState(pr, s, Ahead([Line("listen_port", Show(n))], rest)) == ParseState(pr, s.(listenPort := n), rest)
  {
    NotPeerStart("listen_port", Show(n));
    LineSplits("listen_port", Show(n));
    NumberRoundTrip(n, U16);
    AheadOne(Line("listen_port", Show(n)), rest);
    assert "listen_port"[0] == 'l' && "private_key"[0] == 'p' && "fwmark"[0] == 'f';
  }

  lemma FwmarkLine(pr: Printer, s: StateOut, n: nat, rest: seq<Item>)
    requires n <= U32
    ensures ParseState(pr, s, Ahead([Line("fwmark", Show(n))], rest)) == ParseState(pr, s.(fwmark := n), rest)
  {
    NotPeerStart("fwmark", Show(n));
    LineSplits("fwmark", Show(n));
    NumberRoundTrip(n, U32);
    AheadOne(Line("fwmark", Show(n)), rest);
    assert "private_key"[0] == 'p' && "fwmark"[0] == 'f';
  }

  /** Everything behind the two parts that a state always has. */
  lemma PeersEndState(pr: Printer, s: StateOut, peers: seq<PeerOut>, orders: seq<seq<(Ip, nat)>>, rest: seq<Item>)
    requires pr.Lawful() && Printable(peers, orders) && s.peers == []
    requires rest != [] && rest[0] == Ok("errno=0")
    ensures ParseState(pr, s, Ahead(PeersLines(pr, peers, orders), rest)) == Ok(s.(peers := peers))
  {
    ErrnoLine();
    if peers == [] {
      AheadNone(rest);
      assert s.(peers := []) == s;
    } else {
      PeersStart(pr, peers, orders, rest);
      PeersLinesParse(pr, peers, orders, rest);
      assert s.peers + peers == peers;
    }
  }

  lemma FirstLineIsNoError(b: seq<Byte>)
    ensures !("errno=" <= Line("private_key", HexEncode(b)))
  {
    assert Line("private_key", HexEncode(b))[0] == 'p' && "errno="[0] == 'e';
  }

  /** What is printed for a state reads back as that state, in whatever order the allowed IPs of
      each peer come out. */
  lemma StateRoundTrip(pr: Printer, s: StateOut, orders: seq<seq<(Ip, nat)>>)
    requires pr.Lawful() && s.Ok() && Printable(s.peers, orders)
    ensures ParseGetResponse(pr, Items(StateLines(pr, s, orders))) == Ok(State(s))
  {
    var key, port := [Line("private_key", HexEncode(s.privateKey))], [Line("listen_port", Show(s.listenPort))];
    var mark, peers, end := FwmarkLines(s), PeersLines(pr, s.peers, orders), ["errno=0", ""];
    var lines := StateLines(pr, s, orders);
    assert lines == key + (port + (mark + (peers + end)));
    AheadNone([]);
    assert Items(lines) == Ahead(lines, []);
    AheadAppend(key, port + (mark + (peers + end)), []);
    AheadAppend(port, mark + (peers + end), []);
    AheadAppend(mark, peers + end, []);
    AheadAppend(peers, end, []);
    var rest := Ahead(end, []);
    var s1 := NoState().(privateKey := s.privateKey);
    var s2 := s1.(listenPort := s.listenPort);
    var s3 := s2.(fwmark := s.fwmark);
    FirstLineIsNoError(s.privateKey);
    PrivateKeyLine(pr, NoState(), s.privateKey, Ahead(port, Ahead(mark, Ahead(peers, rest))));
    ListenPortLine(pr, s1, s.listenPort, Ahead(mark, Ahead(peers, rest)));
    if s.fwmark != 0 {
      FwmarkLine(pr, s2, s.fwmark, Ahead(peers, rest));
    } else {
      AheadNone(Ahead(peers, rest));
    }
    PeersEndState(pr, s3, s.peers, orders, rest);
    assert s3.(peers := s.peers) == s;
  }

  lemma NegativeReads(n: nat)
    ensures ParseErrno("-" + Show(n)) == if n <= 0x8000_0000 then Some(0 - n) else None
  {
    ShowIsDigits(n);
    NumberRoundTrip(n, 0x8000_0000);
    var v := "-" + Show(n);
    assert v[0] == '-' && v[1..] == Show(n) && v[1] == Show(n)[0];
  }

  lemma PositiveReads(n: nat)
    ensures ParseErrno(Show(n)) == if n <= 0x7fff_ffff then Some(n) else None
  {
    ShowIsDigits(n);
    NumberRoundTrip(n, 0x7fff_ffff);
    assert Show(n)[0] in Show(n);
  }

  /** An error number is read exactly if it has 32 bits with its sign. */
  lemma SignedRoundTrip(e: int)
    ensures ParseErrno(ShowSigned(e)) == if -0x8000_0000 <= e <= 0x7fff_ffff then Some(e) else None
  {
    if e < 0 {
      NegativeReads(0 - e);
    } else {
      PositiveReads(e);
    }
  }

  /** Every 32-bit error number that is printed reads back as that error. */
  lemma ErrorRoundTrip(pr: Printer, errno: int)
    requires -0x8000_0000 <= errno <= 0x7fff_ffff
    ensures ParseGetResponse(pr, Items(ErrorLines(errno))) == Ok(Errno(errno))
  {
    SignedRoundTrip(errno);
    var line := Line("errno", ShowSigned(errno));
    assert line == "errno=" + ShowSigned(errno);
    assert line[..6] == "errno=" && line[6..] == ShowSigned(errno);
  }
}
