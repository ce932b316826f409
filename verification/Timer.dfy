/** Timers: a flag and a deadline that handles change while a task waits for the deadline. All
    times are in seconds. */
module Timer {
  /** How far the deadline is put off whenever it has passed. */
  const RE_POLL: nat := 600

  /** What the task of a timer is doing. While it is swapping it holds the lock of the delay: it has
      seen the deadline pass and put it off, and is about to take the flag. */
  datatype Task = Waiting | Runnable | Swapping(notified: bool) | Acting | Stopped

  /** What a handle is doing. While it is adjusting it holds the lock of the delay: at the time `at`
      it has set the deadline for a delay, and it is about to set the flag. */
  datatype Handle = Idle | Adjusting(at: nat, delay: nat)

  /** What has happened to a timer: at some time it was armed for a delay, it was disarmed, or it
      fired at some time. */
  datatype Event = Arm(at: nat, delay: nat) | Disarm | Fire(time: nat)

  /** `registered`: the delay will wake the task when it elapses. */
  datatype State = State(
    now: nat, activated: bool, deadline: nat, registered: bool, task: Task,
    handle: Handle, dropped: bool, log: seq<Event>)
  {
    predicate LockFree() { handle.Idle? && !task.Swapping? }

    function Wake(): State {
      match task
      case Waiting => this.(task := Runnable)
      case Swapping(_) => this.(task := Swapping(true))
      case _ => this
    }
  }

  function Init(now: nat): State {
    State(now, false, now, false, Runnable, Idle, false, [])
  }

  datatype Step =
    | Tick(seconds: nat)
    | AdjustBegin(delay: nat)
    | AdjustEnd
    | DeActivate
    | Elapse
    | SpuriousWake
    | PollLock
    | PollDropped
    | Swap
    | ActionDone
    | Drop

  predicate Enabled(s: State, step: Step) {
    match step
    case Tick(_) => true
    case AdjustBegin(_) => s.LockFree() && !s.dropped
    case AdjustEnd => s.handle.Adjusting?
    case DeActivate => !s.dropped
    case Elapse => s.registered && s.deadline <= s.now
    case SpuriousWake => true
    case PollLock => s.task == Runnable && s.handle.Idle? && !s.dropped
    case PollDropped => s.task == Runnable && s.dropped
    case Swap => s.task.Swapping?
    case ActionDone => s.task == Acting
    case Drop => s.handle.Idle? && !s.dropped
  }

  function Next(s: State, step: Step): State
    requires Enabled(s, step)
  {
    match step
    case Tick(n) => s.(now := s.now + n)
    case AdjustBegin(d) => s.(deadline := s.now + d, handle := Adjusting(s.now, d))
    case AdjustEnd =>
      s.(activated := true, handle := Idle, log := s.log + [Arm(s.handle.at, s.handle.delay)])
    case DeActivate => s.(activated := false, log := s.log + [Disarm])
    case Elapse => s.(registered := false).Wake()
    case SpuriousWake => s.Wake()
    case PollLock =>
      if s.now < s.deadline then s.(registered := true, task := Waiting)
      else s.(deadline := s.now + RE_POLL, registered := true, task := Swapping(false))
    case PollDropped => s.(task := Stopped)
    case Swap =>
      if s.activated then s.(activated := false, task := Acting, log := s.log + [Fire(s.now)])
      else s.(task := if s.task.notified then Runnable else Waiting)
    case ActionDone => s.(task := Runnable)
    case Drop => s.(dropped := true).Wake()
  }

  predicate Valid(s: State, steps: seq<Step>)
    decreases |steps|
  {
    steps == [] || (Enabled(s, steps[0]) && Valid(Next(s, steps[0]), steps[1..]))
  }

  function Run(s: State, steps: seq<Step>): State
    requires Valid(s, steps)
    decreases |steps|
  {
    if steps == [] then s else Run(Next(s, steps[0]), steps[1..])
  }

  // ----- what every step keeps -----

  /** What happened last is that the timer was armed, for the time `d`. */
  predicate ArmedFor(log: seq<Event>, d: nat) {
    Armed(log) && log[|log| - 1].at + log[|log| - 1].delay == d
  }

  predicate Armed(log: seq<Event>) {
    log != [] && log[|log| - 1].Arm?
  }

  /** The timer was armed last, and since then its delay has passed. */
  predicate Due(log: seq<Event>, now: nat) {
    Armed(log) && log[|log| - 1].at + log[|log| - 1].delay <= now
  }

  /** A timer only fires when what happened last is that it was armed, and not before its delay has
      passed since then. */
  predicate FiresAreDue(log: seq<Event>) {
    forall i :: 0 <= i < |log| && log[i].Fire? ==>
      i > 0 && log[i - 1].Arm? && log[i - 1].at + log[i - 1].delay <= log[i].time
  }

  predicate Invariant(s: State) {
    && FiresAreDue(s.log)
    && (s.activated <==> Armed(s.log))
    // The deadline of an activated timer is the one that it was armed for, unless the task has just
    // seen it pass or a handle is setting another.
    && (s.activated && s.LockFree() ==> ArmedFor(s.log, s.deadline))
    && (s.activated && s.task.Swapping? ==> Due(s.log, s.now))
    && (s.handle.Adjusting? ==> s.deadline == s.handle.at + s.handle.delay)
    && (s.task.Swapping? ==> s.handle.Idle?)
    && (s.handle.Adjusting? ==> !s.dropped)
    // The task sleeps only while something will wake it.
    && (s.task == Waiting ==> s.registered && !s.dropped)
    && (s.task.Swapping? && !s.task.notified ==> s.registered && !s.dropped)
    && (s.task == Stopped ==> s.dropped)
  }

  lemma InitInvariant(now: nat)
    ensures Invariant(Init(now))
  {}

  lemma StepKeepsInvariant(s: State, step: Step)
    requires Invariant(s) && Enabled(s, step)
    ensures Invariant(Next(s, step))
  {}

  lemma {:induction false} RunKeepsInvariant(s: State, steps: seq<Step>)
    requires Invariant(s) && Valid(s, steps)
    ensures Invariant(Run(s, steps))
    decreases |steps|
  {
    if steps != [] {
      StepKeepsInvariant(s, steps[0]);
      RunKeepsInvariant(Next(s, steps[0]), steps[1..]);
    }
  }

  /** Whatever is interleaved, every time that a timer fires it was armed just before, with nothing
      else in between, and the delay that it was armed for has passed since. So it fires at most once for each
      time that it is armed, and never between being disarmed and being armed again. */
  lemma FiresOncePerArm(now: nat, steps: seq<Step>)
    requires Valid(Init(now), steps)
    ensures FiresAreDue(Run(Init(now), steps).log)
    ensures Fires(Run(Init(now), steps).log) <= Arms(Run(Init(now), steps).log)
  {
    InitInvariant(now);
    RunKeepsInvariant(Init(now), steps);
    FiresAreFewer(Run(Init(now), steps).log);
  }

  function Fires(log: seq<Event>): nat {
    if log == [] then 0 else (if log[|log| - 1].Fire? then 1 else 0) + Fires(log[..|log| - 1])
  }

  function Arms(log: seq<Event>): nat {
    if log == [] then 0 else (if log[|log| - 1].Arm? then 1 else 0) + Arms(log[..|log| - 1])
  }

  lemma {:induction false} FiresAreFewer(log: seq<Event>)
    requires FiresAreDue(log)
    ensures Fires(log) + (if log != [] && log[|log| - 1].Arm? then 1 else 0) <= Arms(log)
  {
    if log != [] {
      var front := log[..|log| - 1];
      assert forall i :: 0 <= i < |front| ==> front[i] == log[i];
      FiresAreFewer(front);
    }
  }

  // ----- no arm is lost -----

  /** What the task and its delay do next on their own. */
  function OwnSteps(s: State): seq<Step> {
    match s.task
    case Waiting => [Elapse, PollLock, Swap]
    case Runnable => [PollLock, Swap]
    case Swapping(_) => [Swap]
    case Acting => [ActionDone, PollLock, Swap]
    case Stopped => []
  }

  /** Once the delay of an armed timer has passed, the task needs nobody's help to fire, whatever it
      was doing and whatever has happened before. */
  lemma NoArmIsLost(now: nat, steps: seq<Step>)
    requires Valid(Init(now), steps)
    ensures var s := Run(Init(now), steps);
      Due(s.log, s.now) && s.handle.Idle? && !s.dropped ==>
        && Valid(s, OwnSteps(s))
        && Run(s, OwnSteps(s)).log == s.log + [Fire(s.now)]
  {
    InitInvariant(now);
    RunKeepsInvariant(Init(now), steps);
    var s := Run(Init(now), steps);
    if Due(s.log, s.now) && s.handle.Idle? && !s.dropped {
      OwnStepsFire(s);
    }
  }

  /** Until then the task goes back to sleep whenever it polls, to be woken when the delay has passed,
      and the timer stays armed. */
  lemma NotDueWaits(now: nat, steps: seq<Step>)
    requires Valid(Init(now), steps)
    ensures var s := Run(Init(now), steps);
      Armed(s.log) && !Due(s.log, s.now) && Enabled(s, PollLock) ==>
        var s' := Next(s, PollLock);
        s'.task == Waiting && s'.registered && s'.activated && s'.log == s.log && ArmedFor(s.log, s'.deadline)
  {
    InitInvariant(now);
    RunKeepsInvariant(Init(now), steps);
  }

  lemma OneStep(s: State, step: Step, rest: seq<Step>)
    requires Enabled(s, step) && Valid(Next(s, step), rest)
    ensures Valid(s, [step] + rest) && Run(s, [step] + rest) == Run(Next(s, step), rest)
  {
    assert ([step] + rest)[1..] == rest;
  }

  lemma PollAndSwapFire(s: State)
    requires s.task == Runnable && s.activated && s.handle.Idle? && !s.dropped && s.deadline <= s.now
    ensures Valid(s, [PollLock, Swap]) && Run(s, [PollLock, Swap]).log == s.log + [Fire(s.now)]
  {
    OneStep(Next(s, PollLock), Swap, []);
    OneStep(s, PollLock, [Swap]);
  }

  lemma OwnStepsFire(s: State)
    requires Invariant(s) && Due(s.log, s.now) && s.handle.Idle? && !s.dropped
    ensures Valid(s, OwnSteps(s)) && Run(s, OwnSteps(s)).log == s.log + [Fire(s.now)]
  {
    match s.task
    case Waiting =>
      PollAndSwapFire(Next(s, Elapse));
      OneStep(s, Elapse, [PollLock, Swap]);
    case Runnable => PollAndSwapFire(s);
    case Swapping(_) => OneStep(s, Swap, []);
    case Acting =>
      PollAndSwapFire(Next(s, ActionDone));
      OneStep(s, ActionDone, [PollLock, Swap]);
  }

  // ----- the timer itself -----

  /** What a handle and the task of a timer share. */
  class TimerOptions {
    var activated: bool
    var deadline: nat
    var registered: bool

    /** These fields as parts of the state `s`. */
    predicate Matches(s: State)
      reads this
    {
      activated == s.activated && deadline == s.deadline && registered == s.registered
    }

    constructor (now: nat)
      ensures Matches(Init(now)) && !activated
    {
      activated, deadline, registered := false, now, false;
    }

    /** Under the lock of the delay. */
    method AdjustAndActivate(ghost s: State, delay: nat, now: nat)
      requires Matches(s) && s.now == now && Enabled(s, AdjustBegin(delay))
      modifies this
      ensures Matches(Next(Next(s, AdjustBegin(delay)), AdjustEnd))
      ensures deadline == now + delay && activated && registered == old(registered)
    {
      deadline := now + delay;
      activated := true;
    }

    method AdjustIfNotActivated(ghost s: State, delay: nat, now: nat)
      requires Matches(s) && s.now == now && Enabled(s, AdjustBegin(delay))
      modifies this
      ensures Matches(if s.activated then s else Next(Next(s, AdjustBegin(delay)), AdjustEnd))
      ensures activated && deadline == if old(activated) then old(deadline) else now + delay
    {
      if !activated {
        AdjustAndActivate(s, delay, now);
      }
    }

    method Deactivate(ghost s: State)
      requires Matches(s) && Enabled(s, DeActivate)
      modifies this
      ensures Matches(Next(s, DeActivate))
      ensures !activated && deadline == old(deadline)
    {
      activated := false;
    }

    /** Polls the delay: it is ready when its deadline has come; otherwise the task is to be woken. */
    method PollDelay(now: nat) returns (ready: bool)
      modifies this`registered
      ensures ready == (deadline <= now)
      ensures registered == (if ready then false else true)
    {
      ready := deadline <= now;
      registered := !ready;
    }

    /** One poll by the task, under the lock of the delay: whether to run the action. */
    method Poll(ghost s: State, now: nat) returns (fire: bool)
      requires Matches(s) && s.now == now && Enabled(s, PollLock)
      modifies this
      ensures var s' := Next(s, PollLock);
              if s'.task.Swapping? then Matches(Next(s', Swap)) && fire == (Next(s', Swap).task == Acting)
              else Matches(s') && !fire
      // Ready at the deadline, which is then put off by ten minutes; the flag is taken.
      ensures fire == (old(activated) && old(deadline) <= now) && registered
      ensures activated == (old(activated) && now < old(deadline))
      ensures deadline == if old(deadline) <= now then now + 600 else old(deadline)
    {
      var ready := PollDelay(now);
      if !ready {
        return false;
      }
      deadline := now + RE_POLL;
      ready := PollDelay(now);
      assert !ready;
      fire := activated;
      activated := false;
    }
  }
}
