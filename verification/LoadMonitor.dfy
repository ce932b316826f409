/** The token bucket that decides whether handshakes arrive too quickly. All times are in
    nanoseconds, and a token is worth 10^9 units of the bucket. */
module LoadMonitor {
  const NANOS: nat := 1_000_000_000
  const CAP_RATIO: nat := 4
  const U32: nat := 0xffff_ffff
  const U64: nat := 0xffff_ffff_ffff_ffff

  // ----- the bucket, in exact arithmetic -----

  datatype Monitor = Monitor(freq: nat, bucket: nat, lastCheck: nat, underLoad: bool) {
    function Cap(): nat { CAP_RATIO * freq * NANOS }

    predicate Ok() { bucket <= Cap() }
  }

  function New(freq: nat, now: nat): (m: Monitor) {
    Monitor(freq, CAP_RATIO * freq * NANOS, now, false)
  }

  function Min(a: nat, b: nat): nat {
    if a < b then a else b
  }

  function Credit(freq: nat, passed: nat): nat {
    passed * freq
  }

  /** The level of the bucket after a check that comes `passed` after the last one. */
  function Level(m: Monitor, passed: nat): nat {
    var full := Min(m.Cap(), m.bucket + Credit(m.freq, passed));
    if full < NANOS then 0 else full - NANOS
  }

  function Check(m: Monitor, now: nat): Monitor
    requires m.lastCheck <= now
  {
    var bucket := Level(m, now - m.lastCheck);
    var loaded := if m.underLoad then bucket < 7 * m.Cap() / 8 else bucket <= 3 * m.Cap() / 4;
    Monitor(m.freq, bucket, now, loaded)
  }

  // ----- the bucket, in 64-bit arithmetic -----

  function Wrap(n: nat): nat { n % (U64 + 1) }

  lemma WrapSmall(n: nat)
    requires n <= U64
    ensures Wrap(n) == n
  {}

  lemma {:induction false} WrapMultiple(n: nat, k: nat)
    ensures Wrap(n + k * (U64 + 1)) == Wrap(n)
  {
    if k > 0 {
      WrapMultiple(n, k - 1);
      assert n + k * (U64 + 1) == n + (k - 1) * (U64 + 1) + (U64 + 1);
    }
  }

  lemma WrapOnce(n: nat)
    ensures Wrap(n) <= U64 && n == Wrap(n) + n / (U64 + 1) * (U64 + 1)
  {}

  lemma WrapSum(a: nat, b: nat)
    ensures Wrap(a + Wrap(b)) == Wrap(a + b) == Wrap(Wrap(a) + b)
  {
    WrapOnce(a);
    WrapOnce(b);
    WrapMultiple(a + Wrap(b), b / (U64 + 1));
    WrapMultiple(Wrap(a) + b, a / (U64 + 1));
  }

  lemma WrapSumOfWraps(a: nat, b: nat)
    ensures Wrap(Wrap(a) + Wrap(b)) == Wrap(a + b)
  {
    WrapSum(Wrap(a), b);
    WrapSum(a, b);
  }

  lemma WrapProduct(a: nat, n: nat)
    ensures Wrap(Wrap(a) * n) == Wrap(a * n)
  {
    var k := a / (U64 + 1);
    WrapOnce(a);
    Distribute(Wrap(a), k, n);
    WrapMultiple(Wrap(a) * n, k * n);
  }

  lemma Distribute(r: nat, k: nat, n: nat)
    ensures (r + k * (U64 + 1)) * n == r * n + k * n * (U64 + 1)
  {}

  lemma CapFits(freq: nat)
    requires freq <= U32
    ensures Wrap(Wrap(CAP_RATIO * freq) * NANOS) == CAP_RATIO * freq * NANOS <= U64
  {
    WrapSmall(CAP_RATIO * freq);
    WrapSmall(CAP_RATIO * freq * NANOS);
  }

  /** What is added to the bucket, from the whole seconds and the nanoseconds that have passed. */
  function WrappedCredit(freq: nat, passed: nat): nat {
    Wrap(Wrap(Wrap(passed / NANOS * freq) * NANOS) + Wrap(passed % NANOS * freq))
  }

  lemma CreditSplits(freq: nat, s: nat, n: nat)
    ensures (s * NANOS + n) * freq == s * freq * NANOS + n * freq
  {}

  /** The wrapped sums and products come to the remainder of the credit. */
  lemma CreditWraps(freq: nat, passed: nat)
    ensures WrappedCredit(freq, passed) == Wrap(Credit(freq, passed))
  {
    var s, n := passed / NANOS, passed % NANOS;
    CreditSplits(freq, s, n);
    WrapProduct(s * freq, NANOS);
    WrapSumOfWraps(s * freq * NANOS, n * freq);
  }

  /** The credit is exact exactly if it fits. */
  lemma CreditExactIff(freq: nat, passed: nat)
    ensures WrappedCredit(freq, passed) == Credit(freq, passed) <==> Credit(freq, passed) <= U64
  {
    CreditWraps(freq, passed);
    WrapOnce(Credit(freq, passed));
  }

  /** What the bucket would hold, were it not capped. */
  function Total(m: Monitor, passed: nat): nat {
    m.bucket + Credit(m.freq, passed)
  }

  lemma TotalWraps(m: Monitor, passed: nat)
    ensures Wrap(m.bucket + WrappedCredit(m.freq, passed)) == Wrap(Total(m, passed))
  {
    CreditWraps(m.freq, passed);
    WrapSum(m.bucket, Credit(m.freq, passed));
  }

  function StoredLevel(m: Monitor, passed: nat): nat {
    var full := Min(m.Cap(), Wrap(Total(m, passed)));
    if full < NANOS then 0 else full - NANOS
  }

  /** The monitor that a check leaves, its bucket and thresholds being 64-bit numbers. */
  function StoredCheck(m: Monitor, now: nat): Monitor
    requires m.lastCheck <= now
  {
    var bucket := StoredLevel(m, now - m.lastCheck);
    var loaded := if m.underLoad then bucket < Wrap(7 * m.Cap()) / 8 else bucket <= Wrap(3 * m.Cap()) / 4;
    Monitor(m.freq, bucket, now, loaded)
  }

  /** The total fits, or it wraps around to something that fills the bucket all the same. */
  predicate LevelFits(m: Monitor, passed: nat) {
    Total(m, passed) <= U64 || Wrap(Total(m, passed)) >= m.Cap()
  }

  lemma LevelExactIff(m: Monitor, passed: nat)
    requires m.Ok() && m.freq <= U32
    ensures StoredLevel(m, passed) == Level(m, passed) <==> LevelFits(m, passed)
  {
    CapFits(m.freq);
    WrapOnce(Total(m, passed));
    if Total(m, passed) <= U64 {
      WrapSmall(Total(m, passed));
    }
  }

  /** The frequency, at most 658812288, for which the thresholds fit. */
  predicate ThresholdsFit(freq: nat) {
    7 * CAP_RATIO * freq * NANOS <= U64
  }

  /** With thresholds that fit, a check is exact exactly if the level is. */
  lemma CheckExactIff(m: Monitor, now: nat)
    requires m.Ok() && m.freq <= U32 && ThresholdsFit(m.freq) && m.lastCheck <= now
    ensures StoredCheck(m, now) == Check(m, now) <==> LevelFits(m, now - m.lastCheck)
  {
    LevelExactIff(m, now - m.lastCheck);
    WrapSmall(7 * m.Cap());
    WrapSmall(3 * m.Cap());
  }

  /** Every check whose level is exact is exact, and reports what it should. */
  ghost predicate ReportsAreExact(freq: nat) {
    forall m: Monitor, now: nat :: m.Ok() && m.freq == freq && m.lastCheck <= now && LevelFits(m, now - m.lastCheck) ==>
      StoredCheck(m, now) == Check(m, now)
  }

  /** The highest level at which the end of the load is not to be reported. */
  function JustLoaded(freq: nat): Monitor
    requires freq >= 2
  {
    Monitor(freq, 7 * (CAP_RATIO * freq * NANOS) / 8 - 1 + NANOS, 0, true)
  }

  lemma JustLoadedIsMisjudged(freq: nat)
    requires freq <= U32 && !ThresholdsFit(freq)
    ensures freq >= 2 && JustLoaded(freq).Ok() && LevelFits(JustLoaded(freq), 0)
    ensures Check(JustLoaded(freq), 0).underLoad && !StoredCheck(JustLoaded(freq), 0).underLoad
  {
    var m := JustLoaded(freq);
    CapFits(freq);
    assert Credit(freq, 0) == 0;
    WrapSmall(Total(m, 0));
    WrapOnce(7 * m.Cap());
    assert m.Cap() == CAP_RATIO * freq * NANOS;
  }

  lemma ReportsAreExactIff(freq: nat)
    requires freq <= U32
    ensures ReportsAreExact(freq) <==> ThresholdsFit(freq)
  {
    if ThresholdsFit(freq) {
      forall m: Monitor, now: nat | m.Ok() && m.freq == freq && m.lastCheck <= now && LevelFits(m, now - m.lastCheck)
        ensures StoredCheck(m, now) == Check(m, now)
      {
        CheckExactIff(m, now);
      }
    } else {
      JustLoadedIsMisjudged(freq);
      assert StoredCheck(JustLoaded(freq), 0) != Check(JustLoaded(freq), 0);
    }
  }

  /** A new monitor for 250 messages a second, as the interface has it, that gets its first message
      after two years and four months: the bucket should be full, but is empty, and load is
      reported. */
  lemma LongPauseReportsLoad()
    ensures var m, now := New(250, 0), 73_786_972_294_838_207;
      && Check(m, now) == Monitor(250, 999 * NANOS, now, false)
      && StoredCheck(m, now) == Monitor(250, 0, now, true)
      && !LevelFits(m, now)
  {}

  // ----- the monitor -----

  class LoadMonitor {
    const freq: nat
    var bucket: nat
    var lastCheck: nat
    var underLoad: bool

    function State(): Monitor
      reads this
    {
      Monitor(freq, bucket, lastCheck, underLoad)
    }

    constructor (freq: nat, now: nat)
      requires freq <= U32
      ensures State() == New(freq, now)
    {
      this.freq := freq;
      CapFits(freq);
      bucket := Wrap(Wrap(CAP_RATIO * freq) * NANOS);
      lastCheck := now;
      underLoad := false;
    }

    /** Adds the credit of the time since the last check, and takes a message out. */
    method Refill(now: nat)
      requires lastCheck <= now && freq <= U32
      modifies this`bucket, this`lastCheck
      ensures lastCheck == now && bucket == StoredLevel(old(State()), now - old(lastCheck))
      ensures old(State().Ok()) ==>
        (bucket == Level(old(State()), now - old(lastCheck)) <==> LevelFits(old(State()), now - old(lastCheck)))
    {
      ghost var m := State();
      var cap := Wrap(Wrap(CAP_RATIO * freq) * NANOS);
      CapFits(freq);
      var passed := now - lastCheck;
      var bucketAdd := WrappedCredit(freq, passed);
      TotalWraps(m, passed);
      lastCheck := now;
      bucket := Min(cap, Wrap(bucket + bucketAdd));
      bucket := if bucket < NANOS then 0 else bucket - NANOS;
      if m.Ok() {
        LevelExactIff(m, passed);
      }
    }

    /** One check at the time `now`, which does not run backwards. */
    method CheckNow(now: nat) returns (loaded: bool)
      requires lastCheck <= now && freq <= U32
      modifies this`bucket, this`lastCheck, this`underLoad
      ensures loaded == underLoad && State().Ok()
      ensures State() == StoredCheck(old(State()), now)
      ensures old(State().Ok()) && ThresholdsFit(freq) ==>
        (State() == Check(old(State()), now) <==> old(LevelFits(State(), now - lastCheck)))
      // What is reported, for at least two messages a second and as long as everything fits.
      ensures old(State().Ok()) && ThresholdsFit(freq) && old(LevelFits(State(), now - lastCheck)) && freq >= 2 ==>
        var total := old(bucket) + (now - old(lastCheck)) * freq;
        loaded <==> if old(underLoad) then total < 3_500_000_000 * freq + 1_000_000_000
                    else total <= 3_000_000_000 * freq + 1_000_000_000
    {
      ghost var m := State();
      Refill(now);
      var cap := CAP_RATIO * freq * NANOS;
      if underLoad {
        if bucket >= Wrap(7 * cap) / 8 {
          underLoad := false;
        }
      } else if bucket <= Wrap(3 * cap) / 4 {
        underLoad := true;
      }
      loaded := underLoad;
      if m.Ok() && ThresholdsFit(freq) {
        CheckExactIff(m, now);
        if freq >= 2 {
          ReportMeaning(m, now);
        }
      }
    }
  }

  // ----- runs -----

  /** Times of checks, none before the one in front of it. */
  predicate Ascending(start: nat, times: seq<nat>)
    decreases |times|
  {
    times == [] || (start <= times[0] && Ascending(times[0], times[1..]))
  }

  function Run(m: Monitor, times: seq<nat>): (r: Monitor)
    requires Ascending(m.lastCheck, times)
    decreases |times|
  {
    if times == [] then m else Run(Check(m, times[0]), times[1..])
  }

  /** Every check of the run reports `loaded`. */
  predicate AllReport(m: Monitor, times: seq<nat>, loaded: bool)
    requires Ascending(m.lastCheck, times)
    decreases |times|
  {
    times == []
    || (Check(m, times[0]).underLoad == loaded && AllReport(Check(m, times[0]), times[1..], loaded))
  }

  function End(start: nat, times: seq<nat>): nat {
    if times == [] then start else times[|times| - 1]
  }

  lemma {:induction false} RunKeepsBounds(m: Monitor, times: seq<nat>)
    requires m.Ok() && Ascending(m.lastCheck, times)
    ensures Run(m, times).Ok() && Run(m, times).freq == m.freq
    ensures Run(m, times).lastCheck == End(m.lastCheck, times) >= m.lastCheck
    decreases |times|
  {
    if times != [] {
      RunKeepsBounds(Check(m, times[0]), times[1..]);
    }
  }

  lemma CreditAdds(freq: nat, a: nat, b: nat)
    ensures Credit(freq, a + b) == Credit(freq, a) + Credit(freq, b)
  {}

  /** Checks that report no load are all paid for. */
  lemma {:induction false} FreeChecksArePaid(m: Monitor, times: seq<nat>)
    requires m.Ok() && m.freq > 0 && Ascending(m.lastCheck, times) && AllReport(m, times, false)
    ensures End(m.lastCheck, times) >= m.lastCheck
    ensures Run(m, times).bucket + |times| * NANOS <= m.bucket + Credit(m.freq, End(m.lastCheck, times) - m.lastCheck)
    decreases |times|
  {
    if times != [] {
      var m', end := Check(m, times[0]), End(m.lastCheck, times);
      FreeChecksArePaid(m', times[1..]);
      assert end == End(m'.lastCheck, times[1..]);
      CreditAdds(m.freq, times[0] - m.lastCheck, end - times[0]);
    }
  }

  lemma {:induction false} FreeAtTheEnd(m: Monitor, times: seq<nat>)
    requires m.Ok() && m.freq > 0 && Ascending(m.lastCheck, times) && AllReport(m, times, false) && !m.underLoad
    requires m.bucket > 3 * m.Cap() / 4
    ensures Run(m, times).bucket > 3 * m.Cap() / 4
    decreases |times|
  {
    if times != [] {
      FreeAtTheEnd(Check(m, times[0]), times[1..]);
    }
  }

  /** As long as no load is reported, there are fewer than `freq` checks a second, counting one
      second more than passes between the first and the last of them. */
  lemma FreeMeansFewChecks(m: Monitor, times: seq<nat>)
    requires m.Ok() && m.freq > 0 && times != [] && Ascending(m.lastCheck, times) && AllReport(m, times, false)
    ensures times[0] <= times[|times| - 1]
    ensures |times| * NANOS < Credit(m.freq, times[|times| - 1] - times[0] + NANOS)
  {
    var first := Check(m, times[0]);
    FreeChecksArePaid(first, times[1..]);
    FreeAtTheEnd(first, times[1..]);
    CreditAdds(m.freq, times[|times| - 1] - times[0], NANOS);
  }

  /** With at least two messages a second, no credit is lost while load is reported. */
  lemma {:induction false} LoadKeepsCredit(m: Monitor, times: seq<nat>)
    requires m.Ok() && m.freq >= 2 && Ascending(m.lastCheck, times) && AllReport(m, times, true)
    ensures End(m.lastCheck, times) >= m.lastCheck
    ensures Run(m, times).bucket + |times| * NANOS >= m.bucket + Credit(m.freq, End(m.lastCheck, times) - m.lastCheck)
    ensures times != [] ==> Run(m, times).bucket < 7 * m.Cap() / 8
    decreases |times|
  {
    if times != [] {
      var m', end := Check(m, times[0]), End(m.lastCheck, times);
      LoadKeepsCredit(m', times[1..]);
      assert end == End(m'.lastCheck, times[1..]);
      CreditAdds(m.freq, times[0] - m.lastCheck, end - times[0]);
    }
  }

  /** Once the credit of the time that passes exceeds the messages by seven eighths of the bucket,
      some check has reported that there is no load. */
  lemma QuietEndsLoad(m: Monitor, times: seq<nat>)
    requires m.Ok() && m.freq >= 2 && times != [] && Ascending(m.lastCheck, times)
    requires times[|times| - 1] >= m.lastCheck
    requires Credit(m.freq, times[|times| - 1] - m.lastCheck) >= |times| * NANOS + 7 * m.Cap() / 8
    ensures !AllReport(m, times, true)
  {
    if AllReport(m, times, true) {
      LoadKeepsCredit(m, times);
    }
  }

  /** A bucket for one message a second never leaves the state of load, however slowly the messages
      come. */
  lemma {:induction false} OneIsAlwaysLoad(m: Monitor, times: seq<nat>)
    requires m.Ok() && m.freq == 1 && Ascending(m.lastCheck, times)
    ensures AllReport(m, times, true)
    decreases |times|
  {
    if times != [] {
      OneIsAlwaysLoad(Check(m, times[0]), times[1..]);
    }
  }

  /** A bucket for no messages at all reports load and no load in turn. */
  lemma ZeroAlternates(m: Monitor, now: nat)
    requires m.Ok() && m.freq == 0 && m.lastCheck <= now
    ensures Check(m, now).underLoad == !m.underLoad
  {
    assert m.Cap() == 0;
  }

  /** Four seconds without a message fill the bucket, and the next message finds no load. */
  lemma FourSecondsEndLoad(m: Monitor, now: nat)
    requires m.Ok() && m.freq >= 2 && m.lastCheck + 4 * NANOS <= now
    ensures !Check(m, now).underLoad
  {
    CreditAdds(m.freq, 4 * NANOS, now - m.lastCheck - 4 * NANOS);
    assert Credit(m.freq, 4 * NANOS) == m.Cap();
  }

  /** When a monitor for at least two messages a second reports load: it starts when no more than
      three seconds' worth of messages is left in the bucket, and it ends when there are three and
      a half. */
  lemma ReportMeaning(m: Monitor, now: nat)
    requires m.Ok() && m.freq >= 2 && m.lastCheck <= now
    ensures var total := m.bucket + (now - m.lastCheck) * m.freq;
      Check(m, now).underLoad <==>
        if m.underLoad then total < 3_500_000_000 * m.freq + 1_000_000_000
        else total <= 3_000_000_000 * m.freq + 1_000_000_000
  {}

  /** The same message after message. */
  function Burst(m: Monitor, n: nat): (r: Monitor)
    ensures r.lastCheck == m.lastCheck
  {
    if n == 0 then m else var before := Burst(m, n - 1); Check(before, before.lastCheck)
  }

  /** Of the messages that a new monitor gets all at once, it reports load exactly from the one
      whose number is its frequency on. */
  lemma {:induction false} BurstReportsLoad(freq: nat, now: nat, n: nat)
    requires freq >= 1
    ensures var m := Burst(New(freq, now), n);
      && m.freq == freq && m.bucket == (if n <= 4 * freq then (4 * freq - n) * 1_000_000_000 else 0)
      && (m.underLoad <==> n > 0 && n >= freq)
  {
    if n > 0 {
      BurstReportsLoad(freq, now, n - 1);
      assert Credit(freq, 0) == 0;
    }
  }

  /** Some messages, at times that can still come, end the state of load. */
  ghost predicate CanRecover(m: Monitor) {
    exists times: seq<nat> :: Ascending(m.lastCheck, times) && !AllReport(m, times, true)
  }

  /** A monitor that is under load can recover from it, whatever it holds, exactly if it is not for
      one message a second. */
  lemma RecoversIff(m: Monitor)
    requires m.Ok() && m.underLoad
    ensures CanRecover(m) <==> m.freq != 1
  {
    if m.freq == 1 {
      forall times: seq<nat> | Ascending(m.lastCheck, times) ensures AllReport(m, times, true) {
        OneIsAlwaysLoad(m, times);
      }
    } else {
      var now: nat := m.lastCheck + 4 * NANOS;
      var times: seq<nat> := [now];
      if m.freq == 0 { ZeroAlternates(m, now); } else { FourSecondsEndLoad(m, now); }
      assert Ascending(now, times[1..]);
      assert Ascending(m.lastCheck, times) && !AllReport(m, times, true);
    }
  }

  /** Nor does a new monitor ever report that there is no load exactly if it is for one message a
      second. */
  lemma NeverFreeIff(freq: nat, now: nat)
    ensures !CanRecover(New(freq, now)) <==> freq == 1
  {
    var m := New(freq, now);
    if freq == 1 {
      forall times: seq<nat> | Ascending(now, times) ensures AllReport(m, times, true) {
        OneIsAlwaysLoad(m, times);
      }
    } else {
      var first := Check(m, now);
      var times: seq<nat> := [now, now + 4 * NANOS];
      assert times[1..] == [now + 4 * NANOS] && times[1..][1..] == [];
      assert Ascending(now, times[1..]) && Ascending(now, times);
      if freq == 0 { ZeroAlternates(first, now + 4 * NANOS); } else { FourSecondsEndLoad(first, now + 4 * NANOS); }
      if freq == 0 { ZeroAlternates(m, now); }
      assert !AllReport(first, times[1..], true);
      assert !AllReport(m, times, true);
    }
  }
}
