/** The lines on the configuration socket, spelt out, and the answers to lines that are not in order. */
module IpcLaws {
  import opened LittleEndian
  import opened Wrappers
  import opened IpcText
  import opened Ipc

  // ----- what is printed -----

  lemma LineIs(key: string, start: string, value: string)
    requires key + "=" == start
    ensures Line(key, value) == start + value
  {}

  /** Every allowed IP is on a line of its own, with its prefix length. */
  lemma {:induction false} AllowedLinesSpelt(pr: Printer, ips: seq<(Ip, nat)>)
    ensures |AllowedLines(pr, ips)| == |ips|
    ensures forall i :: 0 <= i < |ips| ==>
      AllowedLines(pr, ips)[i] == "allowed_ip=" + (pr.showIp(ips[i].0) + "/" + Show(ips[i].1))
  {
    if ips != [] {
      AllowedLinesSpelt(pr, ips[1..]);
      LineIs("allowed_ip", "allowed_ip=", ShowAllowed(pr, ips[0]));
    }
  }

  ghost predicate PskSpelt(p: PeerOut) {
    PskLines(p) == if p.presharedKey.Some? then ["preshared_key=" + HexEncode(p.presharedKey.value)] else []
  }

  ghost predicate EndpointSpelt(pr: Printer, p: PeerOut) {
    EndpointLines(pr, p) == if p.endpoint.Some? then ["endpoint=" + pr.showAddr(p.endpoint.value)] else []
  }

  /** The time of the last handshake in whole seconds and the nanoseconds that are left. */
  ghost predicate TimesSpelt(p: PeerOut) {
    TimeLines(p) ==
      if p.lastHandshake.Some? then
        ["last_handshake_time_sec=" + Show(p.lastHandshake.value / 1_000_000_000),
         "last_handshake_time_nsec=" + Show(p.lastHandshake.value % 1_000_000_000)]
      else []
  }

  lemma OptionalLinesSpelt(pr: Printer, p: PeerOut)
    ensures PskSpelt(p) && EndpointSpelt(pr, p) && TimesSpelt(p)
  {
    if p.presharedKey.Some? {
      LineIs("preshared_key", "preshared_key=", HexEncode(p.presharedKey.value));
    }
    if p.endpoint.Some? {
      LineIs("endpoint", "endpoint=", pr.showAddr(p.endpoint.value));
    }
    if p.lastHandshake.Some? {
      var t := p.lastHandshake.value;
      LineIs("last_handshake_time_sec", "last_handshake_time_sec=", Show(t / 1_000_000_000));
      LineIs("last_handshake_time_nsec", "last_handshake_time_nsec=", Show(t % 1_000_000_000));
    }
  }

  /** The lines of a peer and their order. */
  lemma PeerLinesSpelt(pr: Printer, p: PeerOut, ips: seq<(Ip, nat)>)
    ensures PeerLines(pr, p, ips) ==
      ["public_key=" + HexEncode(p.publicKey)] + PskLines(p) + AllowedLines(pr, ips)
      + ["persistent_keepalive_interval=" + Show(p.keepalive)] + EndpointLines(pr, p)
      + ["rx_bytes=" + Show(p.rxBytes), "tx_bytes=" + Show(p.txBytes)] + TimeLines(p)
  {
    LineIs("public_key", "public_key=", HexEncode(p.publicKey));
    LineIs("persistent_keepalive_interval", "persistent_keepalive_interval=", Show(p.keepalive));
    LineIs("rx_bytes", "rx_bytes=", Show(p.rxBytes));
    LineIs("tx_bytes", "tx_bytes=", Show(p.txBytes));
  }

  /** The lines of a state; the mark is only printed if it is not zero. */
  lemma StateLinesSpelt(pr: Printer, s: StateOut, orders: seq<seq<(Ip, nat)>>)
    requires |s.peers| == |orders|
    ensures StateLines(pr, s, orders) ==
      ["private_key=" + HexEncode(s.privateKey), "listen_port=" + Show(s.listenPort)]
      + (if s.fwmark == 0 then [] else ["fwmark=" + Show(s.fwmark)])
      + PeersLines(pr, s.peers, orders) + ["errno=0", ""]
  {
    LineIs("private_key", "private_key=", HexEncode(s.privateKey));
    LineIs("listen_port", "listen_port=", Show(s.listenPort));
    LineIs("fwmark", "fwmark=", Show(s.fwmark));
  }

  // ----- numbers that are read -----

  /** Only the ten digits are read as a number. */
  lemma {:induction false} DigitsIff(s: string)
    ensures Digits(s).Some? <==> forall i :: 0 <= i < |s| ==> '0' <= s[i] <= '9'
  {
    if s != "" {
      var front, c := s[..|s| - 1], s[|s| - 1];
      DigitsIff(front);
      assert forall i :: 0 <= i < |front| ==> front[i] == s[i];
      assert Digits(s).Some? <==> '0' <= c <= '9' && Digits(front).Some?;
    }
  }

  /** Zeros in front do not change it. */
  lemma {:induction false} ZeroInFront(s: string)
    ensures Digits("0" + s) == Digits(s)
  {
    var z := "0" + s;
    if s == "" {
      assert z[..0] == "" && z[|z| - 1] == '0';
    } else {
      ZeroInFront(s[..|s| - 1]);
      assert z[..|z| - 1] == "0" + s[..|s| - 1] && z[|z| - 1] == s[|s| - 1];
    }
  }

  /** A number is read exactly if, after a plus sign or without one, there are digits and nothing
      else, and it does not exceed the largest that is allowed. */
  lemma ParseIff(s: string, max: nat)
    ensures var digits := if "+" <= s then s[1..] else s;
      && (Parse(s, max).Some? <==>
            && digits != "" && (forall i :: 0 <= i < |digits| ==> '0' <= digits[i] <= '9')
            && Digits(digits).Some? && Digits(digits).value <= max)
      && (Parse(s, max).Some? ==> Parse(s, max) == Digits(digits))
  {
    DigitsIff(if "+" <= s then s[1..] else s);
  }

  // ----- fields of a peer -----

  function OrInvalid(p: Option<PeerOut>): Field {
    if p.Some? then Known(p.value) else Invalid
  }

  /** What each line of a peer sets, and the values that are refused. */
  lemma NumberFields(pr: Printer, p: PeerOut, v: string)
    ensures var n := Parse(v, 0xffff_ffff_ffff_ffff);
      && ParseField(pr, p, "rx_bytes", v) == OrInvalid(if n.Some? then Some(p.(rxBytes := n.value)) else None)
      && ParseField(pr, p, "tx_bytes", v) == OrInvalid(if n.Some? then Some(p.(txBytes := n.value)) else None)
    ensures var n := Parse(v, 0xffff);
      ParseField(pr, p, "persistent_keepalive_interval", v)
        == OrInvalid(if n.Some? then Some(p.(keepalive := n.value)) else None)
  {
    assert "rx_bytes"[0] == 'r' && "tx_bytes"[0] == 't' && "persistent_keepalive_interval"[0] == 'p';
    assert "last_handshake_time_sec"[0] == 'l' && "last_handshake_time_nsec"[0] == 'l';
    assert "preshared_key"[1] == 'r' && "persistent_keepalive_interval"[1] == 'e' && "endpoint"[0] == 'e';
  }

  /** The seconds start the time, the nanoseconds are added to it, and they must come after it. */
  lemma TimeFields(pr: Printer, p: PeerOut, v: string)
    ensures var n := Parse(v, 0xffff_ffff_ffff_ffff);
      && ParseField(pr, p, "last_handshake_time_sec", v)
           == OrInvalid(if n.Some? then Some(p.(lastHandshake := Some(n.value * 1_000_000_000))) else None)
      && ParseField(pr, p, "last_handshake_time_nsec", v)
           == OrInvalid(if n.Some? && p.lastHandshake.Some?
                        then Some(p.(lastHandshake := Some(p.lastHandshake.value + n.value))) else None)
  {
    assert |"last_handshake_time_sec"| == 23 && |"last_handshake_time_nsec"| == 24;
  }

  /** A preshared key has 32 bytes. */
  lemma KeyField(pr: Printer, p: PeerOut, v: string)
    ensures var b := HexDecode(v);
      ParseField(pr, p, "preshared_key", v)
        == OrInvalid(if b.Some? && |b.value| == 32 then Some(p.(presharedKey := b)) else None)
  {}

  /** An allowed IP needs an address, a slash and a prefix length of at most 32 or 128. */
  lemma AllowedField(pr: Printer, p: PeerOut, a: string, n: string)
    requires '/' !in a
    ensures var ip, len := pr.parseIp(a), Parse(n, 0xffff_ffff);
      ParseField(pr, p, "allowed_ip", a + "/" + n)
        == OrInvalid(if ip.Some? && len.Some? && len.value <= (if ip.value.v4 then 32 else 128)
                     then Some(p.(allowedIps := p.allowedIps + {(ip.value, len.value)})) else None)
    ensures ParseField(pr, p, "allowed_ip", a) == Invalid
  {
    SplitAtFirst(a, '/', n);
    NoSplit(a, '/');
    assert "allowed_ip"[0] == 'a' && "rx_bytes"[0] == 'r' && "tx_bytes"[0] == 't' && "endpoint"[0] == 'e';
    assert "preshared_key"[0] == 'p' && "persistent_keepalive_interval"[0] == 'p';
    assert "last_handshake_time_sec"[0] == 'l' && "last_handshake_time_nsec"[0] == 'l';
  }

  /** There are no other fields. */
  lemma OtherFields(pr: Printer, p: PeerOut, k: string, v: string)
    ensures ParseField(pr, p, k, v) == Unknown <==>
      k !in {"last_handshake_time_sec", "last_handshake_time_nsec", "rx_bytes", "tx_bytes", "preshared_key",
             "endpoint", "persistent_keepalive_interval", "allowed_ip"}
  {}

  // ----- lines that are not in order -----

  /** The first line of a peer must be its key, of 32 bytes. */
  lemma PeerNeedsKey(pr: Printer, k: string, v: string, rest: seq<Item>)
    requires '=' !in k
    ensures var b := HexDecode(v);
      k != "public_key" || b.None? || |b.value| != 32 ==> ParsePeer(pr, [Ok(Line(k, v))] + rest) == Err
    ensures ParsePeer(pr, []) == Err && ParsePeer(pr, [Err] + rest) == Err
  {
    LineSplits(k, v);
  }

  /** A peer ends before an empty line, the next peer and a key that it does not have; a refused
      value, a line that is no field and the end of the stream are errors. */
  lemma FieldsStop(pr: Printer, p: PeerOut, k: string, v: string, rest: seq<Item>)
    requires '=' !in k
    ensures ParseFields(pr, p, []) == Err && ParseFields(pr, p, [Err] + rest) == Err
    ensures ParseFields(pr, p, [Ok("")] + rest) == Ok(Parsed(p, [Ok("")] + rest))
    ensures var items := [Ok(Line(k, v))] + rest;
      && ("public_key" <= Line(k, v) || ParseField(pr, p, k, v) == Unknown ==>
            ParseFields(pr, p, items) == Ok(Parsed(p, items)))
      && (!("public_key" <= Line(k, v)) && ParseField(pr, p, k, v) == Invalid ==> ParseFields(pr, p, items) == Err)
    ensures k != "" && !("public_key" <= k) ==> ParseFields(pr, p, [Ok(k)] + rest) == Err
  {
    LineSplits(k, v);
    NoSplit(k, '=');
  }

  lemma {:induction false} NoSplit(s: string, c: char)
    requires c !in s
    ensures SplitOnce(s, c) == None
  {
    if s != "" {
      NoSplit(s[1..], c);
    }
  }

  /** A state ends at an empty line, an error number and a protocol version. */
  lemma StateEnds(pr: Printer, s: StateOut, v: string, rest: seq<Item>)
    ensures ParseState(pr, s, [Ok("")] + rest) == Ok(s)
    ensures ParseState(pr, s, [Ok("errno=" + v)] + rest) == Ok(s)
    ensures ParseState(pr, s, [Ok("protocol_version=" + v)] + rest) == Ok(s)
    ensures ParseState(pr, s, []) == Err && ParseState(pr, s, [Err] + rest) == Err
  {
    LineIs("errno", "errno=", v);
    LineIs("protocol_version", "protocol_version=", v);
    LineSplits("errno", v);
    LineSplits("protocol_version", v);
    assert "public_key"[1] == 'u' && ("errno=" + v)[1] == 'r' && ("protocol_version=" + v)[1] == 'r';
  }

  /** A line of a state sets its key, mark or port; the mark has 32 bits and the port 16. Any other
      key, a value that is refused and a line without a key are errors. */
  lemma StateFields(pr: Printer, s: StateOut, k: string, v: string, rest: seq<Item>)
    requires '=' !in k && !("public_key" <= Line(k, v))
    ensures var b := HexDecode(v); k == "private_key" ==>
      ParseState(pr, s, [Ok(Line(k, v))] + rest)
        == if b.Some? && |b.value| == 32 then ParseState(pr, s.(privateKey := b.value), rest) else Err
    ensures var n := Parse(v, 0xffff_ffff); k == "fwmark" ==>
      ParseState(pr, s, [Ok(Line(k, v))] + rest) == if n.Some? then ParseState(pr, s.(fwmark := n.value), rest) else Err
    ensures var n := Parse(v, 0xffff); k == "listen_port" ==>
      ParseState(pr, s, [Ok(Line(k, v))] + rest) == if n.Some? then ParseState(pr, s.(listenPort := n.value), rest) else Err
    ensures k !in {"private_key", "fwmark", "listen_port", "errno", "protocol_version"} ==>
      ParseState(pr, s, [Ok(Line(k, v))] + rest) == Err
  {
    LineSplits(k, v);
    var items := [Ok(Line(k, v))] + rest;
    assert items[0] == Ok(Line(k, v)) && items[1..] == rest;
  }

  /** What no line sets is zero or empty. */
  lemma EmptyResponse(pr: Printer)
    ensures var r := ParseGetResponse(pr, [Ok("")]);
      && r.Ok? && r.value.State?
      && var s := r.value.state;
      && |s.privateKey| == 32 && (forall i :: 0 <= i < 32 ==> s.privateKey[i] == 0)
      && s.peers == [] && s.listenPort == 0 && s.fwmark == 0
  {}
}
