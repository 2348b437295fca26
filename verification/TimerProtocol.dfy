/** The timer callback thread against the main thread: a critical section, suspension of the main thread,
    and the CPU interrupt flag. Each step of the relation is one access to shared state. */
module TimerProtocol {
  import opened Wrappers

  /** TIMER_MAXIMUM_VALUE; the minimum is zero. */
  const MAXIMUM_PERIOD: nat := 0xFFFF_FFFF

  /** DEFAULT_TIMER_TICK_DURATION. */
  const DEFAULT_PERIOD: nat := 100000

  const TICK_RANGE: nat := 0x1_0000_0000

  /** Longer pauses, in milliseconds, are not reported. */
  const LONGEST_DELTA: nat := 1000

  /** The next statement of the callback. */
  datatype TimerPc =
    | Idle
    | CheckCancel
    | Enter
    | Suspend
    | CheckCancelAgain
    | ResumeCancelled
    | LeaveCancelled
    | Kill
    | ReadFlag
    | TestFlag
    | ResumeToWait
    | LeaveToWait
    | Poll
    | TestPoll
    | EnterAgain
    | SuspendAgain
    | ReadFlagAgain
    | Sample
    | TestDelta
    | RaiseTpl
    | FetchHandler
    | CallHandler
    | RestoreTpl
    | Resume
    | Leave

  /** The next statement of the main thread, inside the driver or outside of it. */
  datatype MainPc =
    | Outside
    | CancelEnter
    | CancelSet
    | CancelLeave
    | CancelKill
    | CancelClearId
    | ZeroEnter
    | ZeroPeriod
    | ZeroLeave
    | StartEnter
    | StartPeriod
    | StartUncancel
    | StartLeave
    | StartReadTick
    | StartStoreTick
    | StartKill
    | StartClearId
    | CreateEnter
    | CreateReadPeriod
    | CreateLeave
    | CreateEvent
    | CreateStoreId
    | RegisterEnter
    | RegisterSet
    | RegisterLeave

  datatype Owner = Nobody | Main | Timer

  type Handler = nat

  /** A call of the registered handler with the time that it reports, in units of 100 ns. */
  datatype Call = Call(handler: Handler, time: nat)

  /** The critical section, and how often the main thread has been suspended and resumed. */
  datatype Lock = Lock(owner: Owner, suspendCount: nat, suspends: nat, resumes: nat)

  /** The globals of the driver, without the tick. */
  datatype Globals = Globals(cancel: bool, period: nat, handler: Option<Handler>, timerId: nat)

  /** The system clock in milliseconds, the tick that the driver stores and the one that the main thread has read,
      each with the time that it was taken. */
  datatype Time = Time(clock: nat, lastTick: nat, lastTickTime: nat, readTick: nat, readTickTime: nat)

  /** The locals of the callback, and the calls of handlers so far. */
  datatype Callback = Callback(sawInterrupts: bool, delta: nat, handler: Option<Handler>, calls: seq<Call>)

  /** The arguments and locals of the main thread. */
  datatype Arguments = Arguments(period: nat, handler: Option<Handler>, newId: nat)

  /** What has happened so far; no step of the driver reads it. All times are in milliseconds.
      created: the system has created a timer event, so that callbacks can run;
      firstStart: when the tick that was stored first was taken;
      lastCall: when the callback that made the last call took its sample;
      storedSince: the ticks that dropped samples and restarts have stored since then;
      lost: the time that dropped samples, restarts and wrap-arounds of the tick have taken from the handlers;
      givenBack: the time that restarts have given to them a second time. */
  datatype History = History(
    created: bool, firstStart: Option<nat>, lastCall: Option<nat>, storedSince: seq<nat>, lost: int, givenBack: int)

  datatype State = State(
    timer: TimerPc,
    main: MainPc,
    interrupts: bool,
    lock: Lock,
    globals: Globals,
    time: Time,
    callback: Callback,
    args: Arguments,
    history: History)

  function TickCount(s: State): nat {
    s.time.clock % TICK_RANGE
  }

  /** The driver begins with a SetTimerPeriod call of its own, before it publishes its protocol. */
  predicate Init(s: State) {
    && s.timer == Idle && s.main == StartEnter && s.args.period == DEFAULT_PERIOD
    && s.lock.owner == Nobody && s.lock.suspendCount == 0
    && s.globals.period == 0 && s.globals.handler == None && s.globals.timerId == 0
    && s.time.lastTick == 0 && s.time.lastTickTime == 0
    && s.lock.suspends == 0 && s.lock.resumes == 0 && s.callback.calls == []
    && s.history == History(false, None, None, [], 0, 0)
  }

  // ---------------------------------------------------------------- What is recorded

  /** A sample: the difference of two ticks lacks whole multiples of their range. */
  function AfterSample(s: State, delta: nat): History {
    s.history.(lost := s.history.lost + (s.time.clock - s.time.lastTickTime - delta))
  }

  /** A sample that makes no call. */
  function AfterDrop(s: State): History {
    s.history.(storedSince := s.history.storedSince + [s.time.lastTick], lost := s.history.lost + s.callback.delta)
  }

  function AfterCall(s: State): History {
    s.history.(lastCall := Some(s.time.lastTickTime), storedSince := [])
  }

  /** A restart stores a tick that was read before. Only the first one has no tick to replace. */
  function AfterRestart(s: State): History {
    var h := s.history.(storedSince := s.history.storedSince + [s.time.readTick]);
    var skipped := s.time.readTickTime - s.time.lastTickTime;
    if h.firstStart.None? then h.(firstStart := Some(s.time.readTickTime))
    else if skipped >= 0 then h.(lost := h.lost + skipped)
    else h.(givenBack := h.givenBack - skipped)
  }

  // ---------------------------------------------------------------- The callback

  predicate TimerEnters(pc: TimerPc) {
    pc == Enter || pc == EnterAgain
  }

  /** The callback is running and does not wait for the critical section. */
  predicate TimerEnabled(s: State) {
    s.timer != Idle && (TimerEnters(s.timer) ==> s.lock.owner == Nobody)
  }

  /** The statement after this one. */
  function TimerGoesTo(s: State): TimerPc {
    match s.timer
    case Idle => CheckCancel
    case CheckCancel => if s.globals.cancel then Kill else Enter
    case Enter => Suspend
    case Suspend => CheckCancelAgain
    case CheckCancelAgain => if s.globals.cancel then ResumeCancelled else ReadFlag
    case ResumeCancelled => LeaveCancelled
    case LeaveCancelled => Kill
    case Kill => Idle
    case ReadFlag => TestFlag
    case TestFlag => if s.callback.sawInterrupts then Sample else ResumeToWait
    case ResumeToWait => LeaveToWait
    case LeaveToWait => Poll
    case Poll => TestPoll
    case TestPoll => if s.callback.sawInterrupts then EnterAgain else Poll
    case EnterAgain => SuspendAgain
    case SuspendAgain => ReadFlagAgain
    case ReadFlagAgain => TestFlag
    case Sample => TestDelta
    case TestDelta => if s.callback.delta < LONGEST_DELTA then RaiseTpl else Resume
    case RaiseTpl => FetchHandler
    case FetchHandler => if s.globals.handler.Some? then CallHandler else RestoreTpl
    case CallHandler => RestoreTpl
    case RestoreTpl => Resume
    case Resume => Leave
    case Leave => Idle
  }

  /** Entering and leaving the critical section, and suspending and resuming the main thread. ResumeThread on a thread
      that is not suspended does nothing. */
  function TimerLocks(pc: TimerPc, lock: Lock): Lock {
    match pc
    case Enter | EnterAgain => lock.(owner := Timer)
    case Suspend | SuspendAgain => lock.(suspendCount := lock.suspendCount + 1, suspends := lock.suspends + 1)
    case ResumeCancelled | ResumeToWait | Resume =>
      var count := if lock.suspendCount == 0 then 0 else lock.suspendCount - 1;
      lock.(suspendCount := count, resumes := lock.resumes + 1)
    case LeaveCancelled | LeaveToWait | Leave => lock.(owner := Nobody)
    case _ => lock
  }

  function Delta(s: State): nat {
    (TickCount(s) - s.time.lastTick) % TICK_RANGE
  }

  function Called(c: Callback): Callback {
    match c.handler
    case Some(handler) => c.(calls := c.calls + [Call(handler, c.delta * 10000)])
    case None => c
  }

  /** The locals of the callback, and its calls. */
  function TimerComputes(s: State): Callback {
    match s.timer
    case ReadFlag | Poll | ReadFlagAgain => s.callback.(sawInterrupts := s.interrupts)
    case Sample => s.callback.(delta := Delta(s))
    case FetchHandler => s.callback.(handler := s.globals.handler)
    case CallHandler => Called(s.callback)
    case _ => s.callback
  }

  function TimerRecords(s: State): History {
    match s.timer
    case Sample => AfterSample(s, Delta(s))
    case TestDelta => if s.callback.delta < LONGEST_DELTA then s.history else AfterDrop(s)
    case FetchHandler => if s.globals.handler.Some? then s.history else AfterDrop(s)
    case CallHandler => AfterCall(s)
    case _ => s.history
  }

  /** One statement of the callback. TPL services and the handler may leave the interrupt flag as `flag`. */
  function TimerNext(s: State, flag: bool): State {
    var tpl := s.timer == RaiseTpl || s.timer == CallHandler || s.timer == RestoreTpl;
    s.(timer := TimerGoesTo(s),
       interrupts := if tpl then flag else s.interrupts,
       lock := TimerLocks(s.timer, s.lock),
       globals := if s.timer == Kill then s.globals.(timerId := 0) else s.globals,
       time := if s.timer == Sample then s.time.(lastTick := TickCount(s), lastTickTime := s.time.clock) else s.time,
       callback := TimerComputes(s),
       history := TimerRecords(s))
  }

  /** The operating system starts a callback only of a timer event, and only when no other one is running. */
  ghost predicate TimerStep(s: State, s': State) {
    (if s.timer == Idle then s.history.created else TimerEnabled(s)) && s' == TimerNext(s, s'.interrupts)
  }

  // ---------------------------------------------------------------- The main thread

  predicate MainEnters(pc: MainPc) {
    pc == CancelEnter || pc == ZeroEnter || pc == StartEnter || pc == CreateEnter || pc == RegisterEnter
  }

  /** The main thread is not suspended and does not wait for the critical section. */
  predicate MainEnabled(s: State) {
    s.lock.suspendCount == 0 && (MainEnters(s.main) ==> s.lock.owner == Nobody)
  }

  /** What the main thread does next outside of the driver. */
  datatype Request = SetTimerPeriod(period: nat) | RegisterHandler(handler: Option<Handler>)

  function Begin(s: State, request: Request): State {
    match request
    case SetTimerPeriod(p) =>
      if p == 0 then s.(main := CancelEnter, args := s.args.(period := p))
      else if p < MAXIMUM_PERIOD then s.(main := StartEnter, args := s.args.(period := p))
      else s
    case RegisterHandler(h) =>
      if h.Some? == s.globals.handler.Some? then s else s.(main := RegisterEnter, args := s.args.(handler := h))
  }

  /** One statement of the main thread inside the driver. `id` is what the system returns for a new timer event. */
  function MainNext(s: State, id: nat): State
    requires MainEnabled(s) && s.main != Outside
  {
    match s.main
    case CancelEnter => s.(main := CancelSet, lock := s.lock.(owner := Main))
    case CancelSet => s.(main := CancelLeave, globals := s.globals.(cancel := true))
    case CancelLeave => s.(main := CancelKill, lock := s.lock.(owner := Nobody))
    case CancelKill => s.(main := CancelClearId)
    case CancelClearId => s.(main := ZeroEnter, globals := s.globals.(timerId := 0))
    case ZeroEnter => s.(main := ZeroPeriod, lock := s.lock.(owner := Main))
    case ZeroPeriod => s.(main := ZeroLeave, globals := s.globals.(period := s.args.period))
    case ZeroLeave => s.(main := Outside, lock := s.lock.(owner := Nobody))
    case StartEnter => s.(main := StartPeriod, lock := s.lock.(owner := Main))
    case StartPeriod => s.(main := StartUncancel, globals := s.globals.(period := s.args.period))
    case StartUncancel => s.(main := StartLeave, globals := s.globals.(cancel := false))
    case StartLeave => s.(main := StartReadTick, lock := s.lock.(owner := Nobody))
    case StartReadTick =>
      s.(main := StartStoreTick, time := s.time.(readTick := TickCount(s), readTickTime := s.time.clock))
    case StartStoreTick =>
      s.(main := StartKill, history := AfterRestart(s),
         time := s.time.(lastTick := s.time.readTick, lastTickTime := s.time.readTickTime))
    case StartKill => s.(main := StartClearId)
    case StartClearId => s.(main := CreateEnter, globals := s.globals.(timerId := 0))
    case CreateEnter => s.(main := CreateReadPeriod, lock := s.lock.(owner := Main))
    case CreateReadPeriod => s.(main := CreateLeave)
    case CreateLeave => s.(main := CreateEvent, lock := s.lock.(owner := Nobody))
    case CreateEvent =>
      s.(main := CreateStoreId, args := s.args.(newId := id),
         history := s.history.(created := s.history.created || id != 0))
    case CreateStoreId => s.(main := Outside, globals := s.globals.(timerId := s.args.newId))
    case RegisterEnter => s.(main := RegisterSet, lock := s.lock.(owner := Main))
    case RegisterSet => s.(main := RegisterLeave, globals := s.globals.(handler := s.args.handler))
    case RegisterLeave => s.(main := Outside, lock := s.lock.(owner := Nobody))
    case Outside => s
  }

  /** The main thread may also change the interrupt flag at any point where it runs. */
  ghost predicate MainStep(s: State, s': State) {
    s.lock.suspendCount == 0
    && (|| s' == s.(interrupts := s'.interrupts)
        || (s.main == Outside && exists request :: s' == Begin(s, request))
        || (s.main != Outside && MainEnabled(s) && s' == MainNext(s, s'.args.newId)))
  }

  ghost predicate ClockStep(s: State, s': State) {
    s' == s.(time := s.time.(clock := s'.time.clock)) && s.time.clock <= s'.time.clock
  }

  ghost predicate Next(s: State, s': State) {
    TimerStep(s, s') || MainStep(s, s') || ClockStep(s, s')
  }

  /** A finite run of the system. */
  ghost predicate Run(b: seq<State>) {
    b != [] && Init(b[0]) && forall i :: 0 <= i < |b| - 1 ==> Next(b[i], b[i + 1])
  }

  // ---------------------------------------------------------------- Safety

  /** The callback has suspended the main thread and not resumed it. */
  predicate Frozen(pc: TimerPc) {
    || pc == CheckCancelAgain || pc == ResumeCancelled || pc == ReadFlag || pc == TestFlag || pc == ResumeToWait
    || pc == ReadFlagAgain || pc == Sample || pc == TestDelta || pc == RaiseTpl || pc == FetchHandler
    || pc == CallHandler || pc == RestoreTpl || pc == Resume
  }

  predicate TimerOwns(pc: TimerPc) {
    Frozen(pc) || pc == Suspend || pc == LeaveCancelled || pc == LeaveToWait || pc == SuspendAgain || pc == Leave
  }

  predicate MainOwns(pc: MainPc) {
    || pc == CancelSet || pc == CancelLeave || pc == ZeroPeriod || pc == ZeroLeave || pc == StartPeriod
    || pc == StartUncancel || pc == StartLeave || pc == CreateReadPeriod || pc == CreateLeave
    || pc == RegisterSet || pc == RegisterLeave
  }

  /** The lock and the suspension follow the program counters. */
  predicate LockInvariant(s: State) {
    OwnerInvariant(s) && SuspendInvariant(s) && BalanceInvariant(s)
  }

  predicate OwnerInvariant(s: State) {
    (s.lock.owner == Timer <==> TimerOwns(s.timer)) && MainOwnerInvariant(s)
  }

  predicate MainOwnerInvariant(s: State) {
    s.lock.owner == Main <==> MainOwns(s.main)
  }

  predicate SuspendInvariant(s: State) {
    s.lock.suspendCount == (if Frozen(s.timer) then 1 else 0)
  }

  predicate BalanceInvariant(s: State) {
    s.lock.suspends == s.lock.resumes + s.lock.suspendCount
  }

  /** Between the test of the flag and the sample the main thread is suspended, so the flag stays. */
  predicate FlagInvariant(s: State) {
    && (s.timer == TestFlag ==> s.callback.sawInterrupts == s.interrupts)
    && (s.timer == Sample ==> s.interrupts)
  }

  /** A stored tick is the one of its time, and that time has come. */
  predicate TimeInvariant(s: State) {
    && s.time.lastTick == s.time.lastTickTime % TICK_RANGE && s.time.lastTickTime <= s.time.clock
    && (s.main == StartStoreTick
        ==> s.time.readTick == s.time.readTickTime % TICK_RANGE && s.time.readTickTime <= s.time.clock)
  }

  /** Only short deltas come to a handler, and only the handler that is registered at that moment is called. */
  predicate CallInvariant(s: State) {
    && (s.timer == RaiseTpl || s.timer == FetchHandler || s.timer == CallHandler ==> s.callback.delta < LONGEST_DELTA)
    && (s.timer == CallHandler ==> s.callback.handler == s.globals.handler && s.globals.handler.Some?)
  }

  /** Handlers are registered and unregistered in turn. */
  predicate HandlerInvariant(s: State) {
    s.main == RegisterEnter || s.main == RegisterSet ==> s.args.handler.Some? != s.globals.handler.Some?
  }

  predicate Inv(s: State) {
    LockInvariant(s) && FlagInvariant(s) && TimeInvariant(s) && CallInvariant(s) && HandlerInvariant(s)
  }

  lemma {:induction false} InitInv(s: State)
    requires Init(s)
    ensures Inv(s)
  {
  }

  lemma {:induction false} OwnerFollows(s: State)
    requires s.lock.owner == Timer <==> TimerOwns(s.timer)
    ensures TimerLocks(s.timer, s.lock).owner == Timer <==> TimerOwns(TimerGoesTo(s))
  {
  }

  lemma {:induction false} MainOwnerFollows(s: State)
    requires OwnerInvariant(s) && (TimerEnters(s.timer) ==> s.lock.owner == Nobody)
    ensures TimerLocks(s.timer, s.lock).owner == Main <==> MainOwns(s.main)
  {
    hide MainOwns;
  }

  lemma {:induction false} CountFollows(s: State)
    requires SuspendInvariant(s)
    ensures TimerLocks(s.timer, s.lock).suspendCount == if Frozen(TimerGoesTo(s)) then 1 else 0
  {
  }

  lemma {:induction false} BalanceFollows(s: State)
    requires SuspendInvariant(s) && BalanceInvariant(s)
    ensures var lock := TimerLocks(s.timer, s.lock);
            lock.suspends == lock.resumes + lock.suspendCount
  {
  }

  lemma {:induction false} TimerKeepsLock(s: State, s': State)
    requires LockInvariant(s) && TimerStep(s, s')
    ensures LockInvariant(s')
  {
    OwnerFollows(s);
    MainOwnerFollows(s);
    CountFollows(s);
    BalanceFollows(s);
    hide TimerGoesTo, TimerLocks, TimerComputes, TimerRecords, TimerOwns, MainOwns, Frozen;
  }

  lemma {:induction false} TimerKeepsFlag(s: State, s': State)
    requires FlagInvariant(s) && TimerStep(s, s')
    ensures FlagInvariant(s')
  {
    hide TimerLocks, TimerRecords, Called;
  }

  lemma {:induction false} TimerKeepsTime(s: State, s': State)
    requires TimeInvariant(s) && TimerStep(s, s')
    ensures TimeInvariant(s')
  {
    hide TimerGoesTo, TimerLocks, TimerComputes, TimerRecords;
  }

  lemma {:induction false} TimerKeepsCalls(s: State, s': State)
    requires CallInvariant(s) && TimerStep(s, s')
    ensures CallInvariant(s')
  {
    hide TimerLocks, TimerRecords, Called;
  }

  lemma {:induction false} TimerKeepsHandlers(s: State, s': State)
    requires HandlerInvariant(s) && TimerStep(s, s')
    ensures HandlerInvariant(s')
  {
    hide TimerGoesTo, TimerLocks, TimerComputes, TimerRecords;
  }

  lemma {:induction false} MainKeepsOwner(s: State, s': State)
    requires OwnerInvariant(s) && MainStep(s, s')
    ensures OwnerInvariant(s')
  {
    hide AfterRestart;
  }

  lemma {:induction false} MainKeepsSuspension(s: State, s': State)
    requires SuspendInvariant(s) && BalanceInvariant(s) && MainStep(s, s')
    ensures SuspendInvariant(s') && BalanceInvariant(s')
  {
    hide AfterRestart;
  }

  lemma {:induction false} MainKeepsFlag(s: State, s': State)
    requires LockInvariant(s) && FlagInvariant(s) && MainStep(s, s')
    ensures FlagInvariant(s')
  {
    hide AfterRestart, OwnerInvariant, BalanceInvariant;
  }

  lemma {:induction false} MainKeepsTime(s: State, s': State)
    requires TimeInvariant(s) && MainStep(s, s')
    ensures TimeInvariant(s')
  {
    hide AfterRestart;
  }

  lemma {:induction false} MainKeepsCalls(s: State, s': State)
    requires LockInvariant(s) && CallInvariant(s) && MainStep(s, s')
    ensures CallInvariant(s')
  {
    hide AfterRestart, OwnerInvariant, BalanceInvariant;
  }

  lemma {:induction false} MainKeepsHandlers(s: State, s': State)
    requires HandlerInvariant(s) && MainStep(s, s')
    ensures HandlerInvariant(s')
  {
    hide AfterRestart;
  }

  lemma {:induction false} ClockKeepsInv(s: State, s': State)
    requires Inv(s) && ClockStep(s, s')
    ensures Inv(s')
  {
  }

  lemma {:induction false} StepKeepsInv(s: State, s': State)
    requires Inv(s) && Next(s, s')
    ensures Inv(s')
  {
    hide OwnerInvariant, SuspendInvariant, BalanceInvariant, FlagInvariant, TimeInvariant, CallInvariant;
    hide HandlerInvariant, TimerStep, MainStep, ClockStep;
    if TimerStep(s, s') {
      TimerKeepsLock(s, s');
      TimerKeepsFlag(s, s');
      TimerKeepsTime(s, s');
      TimerKeepsCalls(s, s');
      TimerKeepsHandlers(s, s');
    } else if MainStep(s, s') {
      MainKeepsOwner(s, s');
      MainKeepsSuspension(s, s');
      MainKeepsFlag(s, s');
      MainKeepsTime(s, s');
      MainKeepsCalls(s, s');
      MainKeepsHandlers(s, s');
    } else {
      ClockKeepsInv(s, s');
    }
  }

  lemma {:induction false} RunInv(b: seq<State>, i: nat)
    requires Run(b) && i < |b|
    ensures Inv(b[i])
  {
    if i == 0 {
      InitInv(b[0]);
    } else {
      RunInv(b, i - 1);
      assert Next(b[i - 1], b[i - 1 + 1]);
      StepKeepsInv(b[i - 1], b[i]);
    }
  }

  /** In every reachable state the main thread is suspended only by a callback that owns the critical section, and
      never while it owns the section itself; a callback that has ended has undone all its suspensions. */
  lemma {:induction false} SuspensionIsGuarded(b: seq<State>, i: nat)
    requires Run(b) && i < |b|
    ensures b[i].lock.suspendCount <= 1
    ensures b[i].lock.suspendCount > 0 ==> b[i].lock.owner == Timer
    ensures b[i].lock.owner == Main ==> b[i].lock.suspendCount == 0
    ensures b[i].timer == Idle ==> b[i].lock.suspends == b[i].lock.resumes && b[i].lock.owner != Timer
  {
    RunInv(b, i);
  }

  /** Whenever the callback samples the tick, interrupts are enabled and the main thread is suspended. */
  lemma {:induction false} InterruptsGateSample(b: seq<State>, i: nat)
    requires Run(b) && i < |b| && b[i].timer == Sample
    ensures b[i].interrupts && b[i].lock.suspendCount == 1 && b[i].lock.owner == Timer
  {
    RunInv(b, i);
  }

  lemma {:induction false} DifferenceOfTicks(now: nat, before: nat)
    requires before <= now
    ensures (now % TICK_RANGE - before % TICK_RANGE) % TICK_RANGE == (now - before) % TICK_RANGE
    ensures (now - before) % TICK_RANGE <= now - before
  {
  }

  lemma {:induction false} SampleStep(s: State, s': State)
    requires TimeInvariant(s) && s.timer == Sample && TimerStep(s, s')
    ensures s.time.lastTickTime <= s.time.clock
    ensures s'.callback.delta == (s.time.clock - s.time.lastTickTime) % TICK_RANGE
    ensures s'.callback.delta <= s.time.clock - s.time.lastTickTime
    ensures s'.time.lastTickTime == s.time.clock == s'.time.clock
  {
    hide TimerGoesTo, TimerLocks, TimerRecords;
    DifferenceOfTicks(s.time.clock, s.time.lastTickTime);
  }

  /** The delta of a sample is the time that has passed since the stored tick was taken, modulo 2^32. */
  lemma {:induction false} SampleMeasures(b: seq<State>, i: nat)
    requires Run(b) && i + 1 < |b| && b[i].timer == Sample && TimerStep(b[i], b[i + 1])
    ensures b[i].time.lastTickTime <= b[i].time.clock
    ensures b[i + 1].callback.delta == (b[i].time.clock - b[i].time.lastTickTime) % TICK_RANGE
    ensures b[i + 1].time.lastTickTime == b[i].time.clock
  {
    hide TimerStep;
    RunInv(b, i);
    SampleStep(b[i], b[i + 1]);
  }

  /** A handler is called only with less than a second, and it is the handler that is registered at that moment. */
  lemma {:induction false} CallsAreCurrent(b: seq<State>, i: nat)
    requires Run(b) && i + 1 < |b| && b[i].timer == CallHandler && TimerStep(b[i], b[i + 1])
    ensures b[i].globals.handler.Some?
    ensures b[i + 1].callback.calls
         == b[i].callback.calls + [Call(b[i].globals.handler.value, b[i].callback.delta * 10000)]
    ensures b[i].callback.delta < LONGEST_DELTA
  {
    RunInv(b, i);
  }

  /** A step that changes the registered handler registers one where there was none, or takes one away. */
  lemma {:induction false} RegistrationAlternates(b: seq<State>, i: nat)
    requires Run(b) && i + 1 < |b| && b[i].globals.handler != b[i + 1].globals.handler
    ensures b[i].globals.handler.Some? != b[i + 1].globals.handler.Some?
  {
    RunInv(b, i);
    assert Next(b[i], b[i + 1]);
    OnlyRegisterSetsHandler(b[i], b[i + 1]);
  }

  lemma {:induction false} OnlyRegisterSetsHandler(s: State, s': State)
    requires Next(s, s') && s.globals.handler != s'.globals.handler
    ensures s.main == RegisterSet && s'.globals.handler == s.args.handler
  {
    hide TimerGoesTo, TimerLocks, TimerComputes, TimerRecords, AfterRestart;
  }

  // ---------------------------------------------------------------- Progress

  /** In every reachable state the main thread or a callback that is under way can take a step of its own. */
  lemma {:induction false} NoDeadlock(b: seq<State>, i: nat)
    requires Run(b) && i < |b|
    ensures MainEnabled(b[i]) || TimerEnabled(b[i])
  {
    RunInv(b, i);
  }

  /** How many steps the callback takes at most until it resumes the main thread. */
  function StepsToResume(pc: TimerPc): nat {
    match pc
    case CheckCancelAgain => 10
    case ReadFlag => 9
    case ReadFlagAgain => 9
    case TestFlag => 8
    case Sample => 7
    case TestDelta => 6
    case RaiseTpl => 5
    case FetchHandler => 4
    case CallHandler => 3
    case RestoreTpl => 2
    case Resume => 1
    case ResumeToWait => 1
    case ResumeCancelled => 1
    case _ => 0
  }

  /** While the main thread is suspended only the callback steps, and every step brings the resumption nearer. */
  lemma {:induction false} StepNearerToResume(s: State, s': State)
    requires Inv(s) && s.lock.suspendCount > 0 && Next(s, s')
    ensures TimerEnabled(s)
    ensures StepsToResume(s'.timer) <= StepsToResume(s.timer)
    ensures TimerStep(s, s') ==> s'.timer != s.timer && StepsToResume(s'.timer) < StepsToResume(s.timer)
  {
  }

  /** The steps of the callback in a run. */
  ghost function TimerSteps(b: seq<State>): nat {
    if |b| < 2 then 0
    else TimerSteps(b[..|b| - 1]) + (if b[|b| - 2].timer != b[|b| - 1].timer then 1 else 0)
  }

  /** The main thread is never suspended for more than ten steps of the callback, whatever the clock does. */
  lemma {:induction false} SuspensionIsBounded(b: seq<State>, from: nat)
    requires Run(b) && from < |b|
    requires forall i :: from <= i < |b| ==> b[i].lock.suspendCount > 0
    ensures TimerSteps(b[from..]) + StepsToResume(b[|b| - 1].timer) <= StepsToResume(b[from].timer) <= 10
  {
    if from < |b| - 1 {
      var n := |b| - 1;
      var before := b[..n];
      assert Run(before);
      SuspensionIsBounded(before, from);
      assert b[from..][..|b[from..]| - 1] == before[from..];
      RunInv(b, n - 1);
      assert Next(b[n - 1], b[n - 1 + 1]);
      StepNearerToResume(b[n - 1], b[n]);
    }
  }
}
