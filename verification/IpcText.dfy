/** The text forms on the configuration socket: hexadecimal keys, decimal numbers and
    `key=value` lines. The text forms of addresses are given by a `Printer`. */
module IpcText {
  import opened LittleEndian
  import opened Wrappers

  // ----- hexadecimal -----

  function HexDigit(d: nat): char
    requires d < 16
  {
    if d < 10 then ('0' as int + d) as char else ('a' as int + (d - 10)) as char
  }

  function DigitValue(c: char): Option<nat> {
    if '0' <= c <= '9' then Some(c as int - '0' as int)
    else if 'a' <= c <= 'f' then Some(c as int - 'a' as int + 10)
    else if 'A' <= c <= 'F' then Some(c as int - 'A' as int + 10)
    else None
  }

  function HexEncode(b: seq<Byte>): string {
    if b == [] then "" else [HexDigit(b[0] / 16), HexDigit(b[0] % 16)] + HexEncode(b[1..])
  }

  function HexDecode(s: string): Option<seq<Byte>> {
    if s == "" then Some([])
    else if |s| == 1 then None
    else
      var hi, lo, rest := DigitValue(s[0]), DigitValue(s[1]), HexDecode(s[2..]);
      if hi.Some? && lo.Some? && rest.Some? && hi.value < 16 && lo.value < 16
      then Some([hi.value * 16 + lo.value] + rest.value) else None
  }

  /** Digits are read in lower and in upper case, and nothing else is. */
  lemma DigitValueIff(c: char, d: nat)
    ensures DigitValue(c) == Some(d) <==>
      || (d < 10 && c as int == '0' as int + d)
      || (10 <= d < 16 && (c as int == 'a' as int + d - 10 || c as int == 'A' as int + d - 10))
  {}

  /** What is printed is in lower case, two digits to a byte, the higher one first. */
  lemma {:induction false} HexIsLowerCase(b: seq<Byte>)
    ensures |HexEncode(b)| == 2 * |b|
    ensures forall c :: c in HexEncode(b) ==> '0' <= c <= '9' || 'a' <= c <= 'f'
    ensures forall i :: 0 <= i < |b| ==>
      DigitValue(HexEncode(b)[2 * i]) == Some(b[i] / 16) && DigitValue(HexEncode(b)[2 * i + 1]) == Some(b[i] % 16)
  {
    if b != [] {
      HexIsLowerCase(b[1..]);
      HexDigitValue(b[0] / 16);
      HexDigitValue(b[0] % 16);
      forall i | 0 < i < |b| ensures
        && HexEncode(b)[2 * i] == HexEncode(b[1..])[2 * (i - 1)]
        && HexEncode(b)[2 * i + 1] == HexEncode(b[1..])[2 * (i - 1) + 1]
        && b[i] == b[1..][i - 1]
      {}
    }
  }

  lemma HexDigitValue(d: nat)
    requires d < 16
    ensures DigitValue(HexDigit(d)) == Some(d)
  {}

  lemma HexDecodeStep(hi: nat, lo: nat, rest: string)
    requires hi < 16 && lo < 16
    ensures HexDecode([HexDigit(hi), HexDigit(lo)] + rest)
         == var r := HexDecode(rest); if r.None? then None else Some([hi * 16 + lo] + r.value)
  {
    HexDigitValue(hi);
    HexDigitValue(lo);
    var s := [HexDigit(hi), HexDigit(lo)] + rest;
    assert s[0] == HexDigit(hi) && s[1] == HexDigit(lo) && s[2..] == rest;
  }

  lemma {:induction false} HexRoundTrip(b: seq<Byte>)
    ensures HexDecode(HexEncode(b)) == Some(b)
  {
    if b != [] {
      HexDecodeStep(b[0] / 16, b[0] % 16, HexEncode(b[1..]));
      HexRoundTrip(b[1..]);
      assert b == [b[0]] + b[1..];
    }
  }

  // ----- decimal -----

  function Show(n: nat): (s: string)
    ensures s != ""
  {
    if n < 10 then [HexDigit(n)] else Show(n / 10) + [HexDigit(n % 10)]
  }

  function Digits(s: string): Option<nat> {
    if s == "" then Some(0)
    else
      var d, rest := DigitValue(s[|s| - 1]), Digits(s[..|s| - 1]);
      if d.Some? && d.value < 10 && rest.Some? then Some(10 * rest.value + d.value) else None
  }

  /** An unsigned number of at most `max`; a plus sign in front is allowed. */
  function Parse(s: string, max: nat): Option<nat> {
    var digits := if s != "" && s[0] == '+' then s[1..] else s;
    if digits == "" then None
    else
      var n := Digits(digits);
      if n.Some? && n.value <= max then n else None
  }

  lemma {:induction false} ShowIsDigits(n: nat)
    ensures Digits(Show(n)) == Some(n) && Show(n)[0] != '+'
    ensures forall c :: c in Show(n) ==> '0' <= c <= '9'
  {
    HexDigitValue(n % 10);
    if n >= 10 {
      ShowIsDigits(n / 10);
      assert Show(n)[..|Show(n)| - 1] == Show(n / 10);
    } else {
      assert Show(n)[..0] == "";
    }
  }

  /** Only zero starts with the digit zero, and there is nothing behind that. */
  lemma {:induction false} NoLeadingZero(n: nat)
    ensures Show(n)[0] == '0' ==> n == 0 && Show(n) == "0"
  {
    if n >= 10 {
      NoLeadingZero(n / 10);
    }
  }

  /** A plus sign is allowed in front of a number, but not alone, and neither is nothing at all. */
  lemma SignedNumber(n: nat, max: nat)
    ensures Parse("+" + Show(n), max) == (if n <= max then Some(n) else None)
    ensures Parse("+", max) == None && Parse("", max) == None
  {
    ShowIsDigits(n);
    assert ("+" + Show(n))[1..] == Show(n);
  }

  lemma NumberRoundTrip(n: nat, max: nat)
    ensures Parse(Show(n), max) == if n <= max then Some(n) else None
  {
    ShowIsDigits(n);
  }

  // ----- lines -----

  /** The parts before and after the first `c`. */
  function SplitOnce(s: string, c: char): Option<(string, string)> {
    if s == "" then None
    else if s[0] == c then Some(("", s[1..]))
    else
      var r := SplitOnce(s[1..], c);
      if r.Some? then Some(([s[0]] + r.value.0, r.value.1)) else None
  }

  lemma {:induction false} SplitAtFirst(a: string, c: char, b: string)
    requires c !in a
    ensures SplitOnce(a + [c] + b, c) == Some((a, b))
  {
    var s := a + [c] + b;
    if a == "" {
      assert s[1..] == b;
    } else {
      SplitAtFirst(a[1..], c, b);
      assert s[0] == a[0] && s[1..] == a[1..] + [c] + b;
      assert [a[0]] + a[1..] == a;
    }
  }

  function Line(key: string, value: string): string {
    key + "=" + value
  }

  lemma LineSplits(key: string, value: string)
    requires '=' !in key
    ensures SplitOnce(Line(key, value), '=') == Some((key, value))
  {
    SplitAtFirst(key, '=', value);
  }

  // ----- addresses -----

  /** An IP address by its version and number, and a socket address. */
  datatype Ip = Ip(v4: bool, number: nat) {
    predicate Ok() {
      number <= if v4 then 0xffff_ffff else 0xffff_ffff_ffff_ffff_ffff_ffff_ffff_ffff
    }
  }

  datatype SocketAddr = SocketAddr(ip: Ip, port: nat) {
    predicate Ok() {
      ip.Ok() && port <= 0xffff
    }
  }

  /** An address with a prefix length that fits it. */
  predicate AllowedOk(a: (Ip, nat)) {
    a.0.Ok() && a.1 <= if a.0.v4 then 32 else 128
  }

  /** The standard library's text forms of addresses, and their parsers. */
  datatype Printer = Printer(
    showIp: Ip -> string, parseIp: string -> Option<Ip>,
    showAddr: SocketAddr -> string, parseAddr: string -> Option<SocketAddr>)
  {
    ghost predicate Lawful() {
      && (forall ip: Ip :: ip.Ok() ==> parseIp(showIp(ip)) == Some(ip) && '/' !in showIp(ip))
      && (forall a: SocketAddr :: a.Ok() ==> parseAddr(showAddr(a)) == Some(a))
    }
  }

  /** An allowed IP as it is printed. */
  function ShowAllowed(pr: Printer, a: (Ip, nat)): string {
    pr.showIp(a.0) + "/" + Show(a.1)
  }

  function ParseAllowed(pr: Printer, v: string): Option<(Ip, nat)> {
    var parts := SplitOnce(v, '/');
    if parts.None? then None
    else
      var ip, len := pr.parseIp(parts.value.0), Parse(parts.value.1, 0xffff_ffff);
      if ip.None? || len.None? || len.value > (if ip.value.v4 then 32 else 128) then None
      else Some((ip.value, len.value))
  }

  lemma AllowedRoundTrip(pr: Printer, a: (Ip, nat))
    requires pr.Lawful() && AllowedOk(a)
    ensures ParseAllowed(pr, ShowAllowed(pr, a)) == Some(a)
  {
    assert pr.parseIp(pr.showIp(a.0)) == Some(a.0);
    SplitAtFirst(pr.showIp(a.0), '/', Show(a.1));
    NumberRoundTrip(a.1, 0xffff_ffff);
  }
}
