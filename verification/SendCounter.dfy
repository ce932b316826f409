/** Concurrent senders on one session. Every sender first asks whether the session may be used,
    and then draws a number from the shared counter, which wraps around at 2^64; a number past
    the limit is not used, and makes the sender switch the session off. The handler that makes a
    session as initiator is different: it sends the packets that have queued up without asking,
    and it does not survive a number past the limit.

    Each atomic access is a step of its own, so between the question and the draw, and between
    the draw and the switching off, the others may do anything. The result: no number is ever used
    twice exactly if at most 17 of them, the handler included, can be at work at a time. */
module SendCounter {

  const U64: nat := 0x1_0000_0000_0000_0000
  const REJECT_AFTER_MESSAGES: nat := 0xffff_ffff_ffff_ffef
  const MAX_SENDERS: nat := U64 - REJECT_AFTER_MESSAGES

  /** A sender is idle, has asked, or has drawn a number past the limit. The handler is sending,
      has drawn such a number, or is gone. */
  datatype Pc = Idle | Checked | Rejecting | Handling | Crashing | Gone

  /** `used` lists the numbers that packets were encrypted with, `draws` counts the draws. */
  datatype State = State(counter: nat, notTooOld: bool, workers: seq<Pc>, used: seq<nat>, draws: nat)

  datatype Step =
    | Check(i: nat)     // the session may be used
    | Draw(i: nat)      // fetch-and-add; encrypts unless past the limit
    | SwitchOff(i: nat) // after a draw past the limit
    | Finish(i: nat)    // the handler has sent everything
    | Expire            // the session is too old

  /** The senders, and behind them the handler if there is one. */
  function AtStart(senders: nat, handler: bool): seq<Pc> {
    seq(senders, _ => Idle) + if handler then [Handling] else []
  }

  function Init(senders: nat, handler: bool): State {
    State(0, true, AtStart(senders, handler), [], 0)
  }

  predicate Enabled(s: State, step: Step) {
    match step
    case Check(i) => i < |s.workers| && s.workers[i].Idle? && s.notTooOld
    case Draw(i) => i < |s.workers| && (s.workers[i].Checked? || s.workers[i].Handling?)
    case SwitchOff(i) => i < |s.workers| && (s.workers[i].Rejecting? || s.workers[i].Crashing?)
    case Finish(i) => i < |s.workers| && s.workers[i].Handling?
    case Expire => true
  }

  function AfterUse(pc: Pc): Pc { if pc.Handling? then Handling else Idle }

  function PastTheLimit(pc: Pc): Pc { if pc.Handling? then Crashing else Rejecting }

  function SwitchedOff(pc: Pc): Pc { if pc.Crashing? then Gone else Idle }

  function Next(s: State, step: Step): State
    requires Enabled(s, step)
  {
    match step
    case Check(i) => s.(workers := s.workers[i := Checked])
    case Draw(i) =>
      var c := s.counter;
      var s' := s.(counter := (c + 1) % U64, draws := s.draws + 1);
      if c >= REJECT_AFTER_MESSAGES then s'.(workers := s.workers[i := PastTheLimit(s.workers[i])])
      else s'.(workers := s.workers[i := AfterUse(s.workers[i])], used := s.used + [c])
    case SwitchOff(i) => s.(workers := s.workers[i := SwitchedOff(s.workers[i])], notTooOld := false)
    case Finish(i) => s.(workers := s.workers[i := Gone])
    case Expire => s.(notTooOld := false)
  }

  ghost predicate ValidRun(senders: nat, handler: bool, steps: seq<Step>)
    decreases |steps|, 0
  {
    steps == [] ||
    var before := steps[..|steps| - 1];
    ValidRun(senders, handler, before) && Enabled(After(senders, handler, before), steps[|steps| - 1])
  }

  ghost function After(senders: nat, handler: bool, steps: seq<Step>): State
    requires ValidRun(senders, handler, steps)
    decreases |steps|, 1
  {
    if steps == [] then Init(senders, handler)
    else Next(After(senders, handler, steps[..|steps| - 1]), steps[|steps| - 1])
  }

  predicate Distinct(s: seq<nat>) {
    forall i, j :: 0 <= i < j < |s| ==> s[i] != s[j]
  }

  // ----- safety -----

  function Count(pcs: seq<Pc>, pc: Pc): nat {
    if pcs == [] then 0
    else Count(pcs[..|pcs| - 1], pc) + (if pcs[|pcs| - 1] == pc then 1 else 0)
  }

  lemma {:induction false} CountUpdate(pcs: seq<Pc>, i: nat, new_: Pc, pc: Pc)
    requires i < |pcs|
    ensures Count(pcs[i := new_], pc)
         == Count(pcs, pc) - (if pcs[i] == pc then 1 else 0) + (if new_ == pc then 1 else 0)
  {
    var n := |pcs| - 1;
    if i == n {
      assert pcs[i := new_][..n] == pcs[..n];
    } else {
      CountUpdate(pcs[..n], i, new_, pc);
      assert pcs[i := new_][..n] == pcs[..n][i := new_];
    }
  }

  lemma {:induction false} CountAll(pcs: seq<Pc>)
    ensures Count(pcs, Checked) + Count(pcs, Rejecting) + Count(pcs, Handling) + Count(pcs, Crashing) <= |pcs|
  {
    if pcs != [] {
      CountAll(pcs[..|pcs| - 1]);
    }
  }

  lemma {:induction false} CountIdle(n: nat, pc: Pc)
    ensures Count(seq(n, _ => Idle), pc) == if pc == Idle then n else 0
  {
    if n > 0 {
      CountIdle(n - 1, pc);
      assert seq(n, _ => Idle)[..n - 1] == seq(n - 1, _ => Idle);
    }
  }

  lemma NobodyPastLimit(senders: nat, handler: bool)
    ensures PastCount(AtStart(senders, handler)) == 0
  {
    CountIdle(senders, Rejecting);
    CountIdle(senders, Crashing);
    var pcs := AtStart(senders, handler);
    if handler {
      assert pcs[..senders] == seq(senders, _ => Idle);
    } else {
      assert pcs == seq(senders, _ => Idle);
    }
  }

  /** Those that are about to switch the session off. */
  function PastCount(pcs: seq<Pc>): nat {
    Count(pcs, Rejecting) + Count(pcs, Crashing)
  }

  /** Those that can draw. */
  function DrawCount(pcs: seq<Pc>): nat {
    Count(pcs, Checked) + Count(pcs, Handling)
  }

  function UpTo(n: nat): seq<nat> { seq(n, i => i) }

  /** How many draws were past the limit. */
  function PastLimit(s: State): nat {
    if s.draws > REJECT_AFTER_MESSAGES then s.draws - REJECT_AFTER_MESSAGES else 0
  }

  /** While the session is on, every draw past the limit belongs to somebody who is about to
      switch it off; afterwards only those that had already asked, and the handler, can draw. */
  ghost predicate Invariant(s: State) {
    && |s.workers| <= MAX_SENDERS
    && s.counter == s.draws % U64
    && s.used == UpTo(if s.draws < REJECT_AFTER_MESSAGES then s.draws else REJECT_AFTER_MESSAGES)
    && (if s.notTooOld then PastLimit(s) == PastCount(s.workers)
        else PastLimit(s) + DrawCount(s.workers) <= |s.workers|)
  }

  lemma CountsChange(pcs: seq<Pc>, i: nat, new_: Pc)
    requires i < |pcs|
    ensures var pcs' := pcs[i := new_];
      && DrawCount(pcs') + (if pcs[i].Checked? || pcs[i].Handling? then 1 else 0)
         == DrawCount(pcs) + (if new_.Checked? || new_.Handling? then 1 else 0)
      && PastCount(pcs') + (if pcs[i].Rejecting? || pcs[i].Crashing? then 1 else 0)
         == PastCount(pcs) + (if new_.Rejecting? || new_.Crashing? then 1 else 0)
  {
    CountUpdate(pcs, i, new_, Checked);
    CountUpdate(pcs, i, new_, Handling);
    CountUpdate(pcs, i, new_, Rejecting);
    CountUpdate(pcs, i, new_, Crashing);
  }

  /** Somebody who can draw finds fewer than 17 draws past the limit. */
  lemma RoomToDraw(s: State, i: nat)
    requires Invariant(s) && Enabled(s, Draw(i))
    ensures s.draws < U64
  {
    CountAll(s.workers);
    CountsChange(s.workers, i, Gone);
  }

  lemma DrawBelowLimit(s: State, i: nat)
    requires Invariant(s) && Enabled(s, Draw(i)) && s.draws < REJECT_AFTER_MESSAGES
    ensures Invariant(Next(s, Draw(i)))
  {
    CountsChange(s.workers, i, AfterUse(s.workers[i]));
    assert UpTo(s.draws + 1) == UpTo(s.draws) + [s.draws];
  }

  lemma DrawPastLimit(s: State, i: nat)
    requires Invariant(s) && Enabled(s, Draw(i)) && s.draws >= REJECT_AFTER_MESSAGES
    ensures Invariant(Next(s, Draw(i)))
  {
    RoomToDraw(s, i);
    CountsChange(s.workers, i, PastTheLimit(s.workers[i]));
  }

  lemma InvariantStep(s: State, step: Step)
    requires Invariant(s) && Enabled(s, step)
    ensures Invariant(Next(s, step))
  {
    CountAll(s.workers);
    match step {
      case Check(i) => CountsChange(s.workers, i, Checked);
      case Draw(i) => if s.draws < REJECT_AFTER_MESSAGES { DrawBelowLimit(s, i); } else { DrawPastLimit(s, i); }
      case SwitchOff(i) => CountsChange(s.workers, i, SwitchedOff(s.workers[i]));
      case Finish(i) => CountsChange(s.workers, i, Gone);
      case Expire =>
    }
  }

  /** Those at work at a time. */
  function AtWork(senders: nat, handler: bool): nat {
    senders + if handler then 1 else 0
  }

  lemma {:induction false} InvariantOnRuns(senders: nat, handler: bool, steps: seq<Step>)
    requires AtWork(senders, handler) <= MAX_SENDERS && ValidRun(senders, handler, steps)
    ensures Invariant(After(senders, handler, steps))
    ensures |After(senders, handler, steps).workers| == AtWork(senders, handler)
    decreases |steps|
  {
    if steps == [] {
      NobodyPastLimit(senders, handler);
    } else {
      var before := steps[..|steps| - 1];
      InvariantOnRuns(senders, handler, before);
      InvariantStep(After(senders, handler, before), steps[|steps| - 1]);
    }
  }

  /** With at most 17 at work no number is used twice, every number used is below the limit, and
      not even the numbers past the limit are drawn twice. */
  lemma NumbersAreUnique(senders: nat, handler: bool, steps: seq<Step>)
    requires AtWork(senders, handler) <= MAX_SENDERS && ValidRun(senders, handler, steps)
    ensures var s := After(senders, handler, steps);
      && Distinct(s.used)
      && (forall c :: c in s.used ==> c < REJECT_AFTER_MESSAGES)
      && s.draws <= U64
  {
    InvariantOnRuns(senders, handler, steps);
    CountAll(After(senders, handler, steps).workers);
  }

  // ----- more than 17 reuse a number -----

  lemma Extend(senders: nat, handler: bool, steps: seq<Step>, step: Step)
    requires ValidRun(senders, handler, steps) && Enabled(After(senders, handler, steps), step)
    ensures ValidRun(senders, handler, steps + [step])
    ensures After(senders, handler, steps + [step]) == Next(After(senders, handler, steps), step)
  {
    assert (steps + [step])[..|steps|] == steps;
  }

  function UsedUpTo(senders: nat, handler: bool, n: nat): State {
    State(n, true, AtStart(senders, handler), UpTo(n), n)
  }

  lemma CheckAndDraw(senders: nat, handler: bool, n: nat)
    requires senders > 0 && n < REJECT_AFTER_MESSAGES
    ensures var s := UsedUpTo(senders, handler, n);
      && Enabled(s, Check(0)) && Enabled(Next(s, Check(0)), Draw(0))
      && Next(Next(s, Check(0)), Draw(0)) == UsedUpTo(senders, handler, n + 1)
  {
    assert UpTo(n + 1) == UpTo(n) + [n];
    assert AtStart(senders, handler)[0 := Checked][0 := Idle] == AtStart(senders, handler);
  }

  lemma OneMoreUse(senders: nat, handler: bool, steps: seq<Step>, n: nat)
    requires senders > 0 && n < REJECT_AFTER_MESSAGES
    requires ValidRun(senders, handler, steps) && After(senders, handler, steps) == UsedUpTo(senders, handler, n)
    ensures ValidRun(senders, handler, steps + [Check(0)] + [Draw(0)])
    ensures After(senders, handler, steps + [Check(0)] + [Draw(0)]) == UsedUpTo(senders, handler, n + 1)
  {
    CheckAndDraw(senders, handler, n);
    Extend(senders, handler, steps, Check(0));
    Extend(senders, handler, steps + [Check(0)], Draw(0));
  }

  lemma NothingUsed(senders: nat, handler: bool)
    ensures ValidRun(senders, handler, []) && After(senders, handler, []) == UsedUpTo(senders, handler, 0)
  {
    assert UpTo(0) == [];
  }

  /** One sender alone can bring the counter to any value up to the limit. */
  lemma {:induction false} WarmUp(senders: nat, handler: bool, n: nat) returns (steps: seq<Step>)
    requires senders > 0 && n <= REJECT_AFTER_MESSAGES
    ensures ValidRun(senders, handler, steps)
    ensures After(senders, handler, steps) == UsedUpTo(senders, handler, n)
    decreases n
  {
    if n == 0 {
      NothingUsed(senders, handler);
      steps := [];
    } else {
      var before := WarmUp(senders, handler, n - 1);
      OneMoreUse(senders, handler, before, n - 1);
      steps := before + [Check(0)] + [Draw(0)];
    }
  }

  /** The first `a` senders are at `x` and the others at `y`; the handler is sending. */
  function Mixed(senders: nat, handler: bool, a: nat, x: Pc, y: Pc): seq<Pc> {
    seq(senders, i => if i < a then x else y) + if handler then [Handling] else []
  }

  lemma {:induction false} AllCheck(senders: nat, handler: bool, steps0: seq<Step>, a: nat, used: seq<nat>) returns (steps: seq<Step>)
    requires ValidRun(senders, handler, steps0) && a <= senders
    requires After(senders, handler, steps0)
          == State(REJECT_AFTER_MESSAGES, true, AtStart(senders, handler), used, REJECT_AFTER_MESSAGES)
    ensures ValidRun(senders, handler, steps)
    ensures After(senders, handler, steps)
         == State(REJECT_AFTER_MESSAGES, true, Mixed(senders, handler, a, Checked, Idle), used, REJECT_AFTER_MESSAGES)
    decreases a
  {
    if a == 0 {
      steps := steps0;
      assert Mixed(senders, handler, 0, Checked, Idle) == AtStart(senders, handler);
    } else {
      steps := AllCheck(senders, handler, steps0, a - 1, used);
      Extend(senders, handler, steps, Check(a - 1));
      steps := steps + [Check(a - 1)];
      assert Mixed(senders, handler, a - 1, Checked, Idle)[a - 1 := Checked] == Mixed(senders, handler, a, Checked, Idle);
    }
  }

  /** Past the limit, with all senders having asked and the first `a` having drawn. */
  function Drawn(senders: nat, handler: bool, a: nat, used: seq<nat>): State {
    State((REJECT_AFTER_MESSAGES + a) % U64, true, Mixed(senders, handler, a, Rejecting, Checked), used,
          REJECT_AFTER_MESSAGES + a)
  }

  lemma OneMoreDraw(senders: nat, handler: bool, a: nat, used: seq<nat>)
    requires a < senders && a < MAX_SENDERS
    ensures Enabled(Drawn(senders, handler, a, used), Draw(a))
    ensures Next(Drawn(senders, handler, a, used), Draw(a)) == Drawn(senders, handler, a + 1, used)
  {
    assert Mixed(senders, handler, a, Rejecting, Checked)[a := Rejecting]
        == Mixed(senders, handler, a + 1, Rejecting, Checked);
  }

  lemma {:induction false} SomeDraw(senders: nat, handler: bool, steps0: seq<Step>, a: nat, used: seq<nat>) returns (steps: seq<Step>)
    requires ValidRun(senders, handler, steps0) && a <= senders && a <= MAX_SENDERS
    requires After(senders, handler, steps0) == Drawn(senders, handler, 0, used)
    ensures ValidRun(senders, handler, steps)
    ensures After(senders, handler, steps) == Drawn(senders, handler, a, used)
    decreases a
  {
    if a == 0 {
      steps := steps0;
    } else {
      steps := SomeDraw(senders, handler, steps0, a - 1, used);
      OneMoreDraw(senders, handler, a - 1, used);
      Extend(senders, handler, steps, Draw(a - 1));
      steps := steps + [Draw(a - 1)];
    }
  }

  /** Seventeen senders that all asked before the first one drew past the limit, and one more of
      them, or the handler, that draws zero again. */
  lemma MoreReuse(senders: nat, handler: bool) returns (steps: seq<Step>)
    requires AtWork(senders, handler) > MAX_SENDERS
    ensures ValidRun(senders, handler, steps) && !Distinct(After(senders, handler, steps).used)
  {
    var used := UpTo(REJECT_AFTER_MESSAGES);
    steps := WarmUp(senders, handler, REJECT_AFTER_MESSAGES);
    steps := AllCheck(senders, handler, steps, senders, used);
    assert Mixed(senders, handler, senders, Checked, Idle) == Mixed(senders, handler, 0, Rejecting, Checked);
    steps := SomeDraw(senders, handler, steps, MAX_SENDERS, used);
    Extend(senders, handler, steps, Draw(MAX_SENDERS));
    steps := steps + [Draw(MAX_SENDERS)];
    var s := After(senders, handler, steps);
    assert s.used[0] == 0 == s.used[REJECT_AFTER_MESSAGES];
  }

  ghost predicate NeverReuses(senders: nat, handler: bool) {
    forall steps :: ValidRun(senders, handler, steps) ==> Distinct(After(senders, handler, steps).used)
  }

  lemma NeverReusesIff(senders: nat, handler: bool)
    ensures NeverReuses(senders, handler) <==> AtWork(senders, handler) <= 17
  {
    if AtWork(senders, handler) <= 17 {
      forall steps | ValidRun(senders, handler, steps) ensures Distinct(After(senders, handler, steps).used) {
        NumbersAreUnique(senders, handler, steps);
      }
    } else {
      var steps := MoreReuse(senders, handler);
    }
  }
}
