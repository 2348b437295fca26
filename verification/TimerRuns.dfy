/** Runs of the timer driver in which handlers are told of other times than have passed. */
module TimerRuns {
  import opened Wrappers
  import opened TimerProtocol
  import opened TimerReports

  ghost predicate Reachable(s: State) {
    exists b :: Run(b) && b[|b| - 1] == s
  }

  lemma {:induction false} InitReachable(s: State)
    requires Init(s)
    ensures Reachable(s)
  {
    hide Next, Init;
    var b := [s];
    assert Run(b) && b[|b| - 1] == s;
  }

  lemma {:induction false} Extend(s: State, s': State)
    requires Reachable(s) && Next(s, s')
    ensures Reachable(s')
  {
    hide Next;
    var b :| Run(b) && b[|b| - 1] == s;
    var c := b + [s'];
    forall i | 0 <= i < |c| - 1 ensures Next(c[i], c[i + 1]) {
      if i < |b| - 1 {
        assert Next(b[i], b[i + 1]);
      }
    }
    assert Run(c);
  }

  lemma {:induction false} TimerAdvances(s: State) returns (s': State)
    requires Reachable(s)
    requires if s.timer == Idle then s.history.created else TimerEnabled(s)
    ensures s' == TimerNext(s, s.interrupts) && Reachable(s')
  {
    s' := TimerNext(s, s.interrupts);
    assert TimerStep(s, s') by { hide TimerGoesTo, TimerLocks, TimerComputes, TimerRecords; }
    hide Reachable, TimerNext, TimerStep;
    Extend(s, s');
  }

  lemma {:induction false} MainAdvances(s: State) returns (s': State)
    requires Reachable(s) && s.main != Outside && MainEnabled(s)
    ensures s' == MainNext(s, s.args.newId) && Reachable(s')
  {
    s' := MainNext(s, s.args.newId);
    assert MainStep(s, s');
    hide Reachable, MainNext, MainStep;
    Extend(s, s');
  }

  lemma {:induction false} ClockAdvances(s: State, clock: nat) returns (s': State)
    requires Reachable(s) && s.time.clock <= clock
    ensures s' == s.(time := s.time.(clock := clock)) && Reachable(s')
  {
    s' := s.(time := s.time.(clock := clock));
    hide Reachable;
    Extend(s, s');
  }

  lemma {:induction false} RequestBegins(s: State, request: Request) returns (s': State)
    requires Reachable(s) && s.main == Outside && MainEnabled(s)
    ensures s' == Begin(s, request) && Reachable(s')
  {
    s' := Begin(s, request);
    assert MainStep(s, s');
    hide Reachable, MainStep, Begin;
    Extend(s, s');
  }

  // ---------------------------------------------------------------- Undisturbed callbacks

  predicate ReadyToSample(s: State) {
    && s.timer == Idle && s.history.created && s.interrupts && !s.globals.cancel
    && s.lock.owner == Nobody && s.lock.suspendCount == 0 && s.globals.handler.Some?
  }

  lemma {:induction false} CallbackSamples(s: State) returns (s': State)
    requires Reachable(s) && ReadyToSample(s)
    ensures Reachable(s')
    ensures s' == s.(timer := Sample, lock := Lock(Timer, 1, s.lock.suspends + 1, s.lock.resumes),
                     callback := s.callback.(sawInterrupts := true))
  {
    hide Reachable;
    s' := TimerAdvances(s);
    s' := TimerAdvances(s');
    s' := TimerAdvances(s');
    s' := TimerAdvances(s');
    s' := TimerAdvances(s');
    s' := TimerAdvances(s');
    s' := TimerAdvances(s');
  }

  lemma {:induction false} CallbackTests(s: State) returns (s': State)
    requires Reachable(s) && s.timer == Sample
    ensures Reachable(s')
    ensures s' == s.(timer := TestDelta, history := AfterSample(s, Delta(s)),
                     time := s.time.(lastTick := TickCount(s), lastTickTime := s.time.clock),
                     callback := s.callback.(delta := Delta(s)))
  {
    hide Reachable, AfterSample;
    s' := TimerAdvances(s);
  }

  lemma {:induction false} CallbackFetches(s: State) returns (s': State)
    requires Reachable(s) && s.timer == TestDelta && s.globals.handler.Some? && s.callback.delta < LONGEST_DELTA
    ensures Reachable(s')
    ensures s' == s.(timer := CallHandler, callback := s.callback.(handler := s.globals.handler))
  {
    hide Reachable, AfterDrop;
    s' := TimerAdvances(s);
    s' := TimerAdvances(s');
    s' := TimerAdvances(s');
  }

  lemma {:induction false} CallbackCalls(s: State) returns (s': State)
    requires Reachable(s) && s.timer == CallHandler
    ensures Reachable(s')
    ensures s' == s.(timer := Resume, callback := Called(s.callback), history := AfterCall(s))
  {
    hide Reachable, AfterCall, Called;
    s' := TimerAdvances(s);
    s' := TimerAdvances(s');
  }

  lemma {:induction false} CallbackReturns(s: State) returns (s': State)
    requires Reachable(s) && s.timer == Resume && s.lock.suspendCount == 1
    ensures Reachable(s')
    ensures s' == s.(timer := Idle, lock := Lock(Nobody, 0, s.lock.suspends, s.lock.resumes + 1))
  {
    hide Reachable;
    s' := TimerAdvances(s);
    s' := TimerAdvances(s');
  }

  /** A callback comes to its call, and reports the time since the stored tick. */
  lemma {:induction false} CallbackArrives(s: State) returns (s': State)
    requires Reachable(s) && ReadyToSample(s) && Delta(s) < LONGEST_DELTA
    ensures Reachable(s') && s'.timer == CallHandler
    ensures s'.callback == Callback(true, Delta(s), s.globals.handler, s.callback.calls)
    ensures s'.time == s.time.(lastTick := TickCount(s), lastTickTime := s.time.clock)
    ensures s' == s.(timer := CallHandler, lock := Lock(Timer, 1, s.lock.suspends + 1, s.lock.resumes),
                     time := s'.time, callback := s'.callback, history := AfterSample(s, Delta(s)))
  {
    hide Reachable, TimerNext;
    s' := CallbackSamples(s);
    s' := CallbackTests(s');
    s' := CallbackFetches(s');
  }

  lemma {:induction false} CallbackPasses(s: State) returns (s': State)
    requires Reachable(s) && ReadyToSample(s) && Delta(s) < LONGEST_DELTA
    ensures Reachable(s') && ReadyToSample(s')
    ensures s'.main == s.main && s'.globals == s.globals && s'.args == s.args && s'.lock.suspendCount == 0
    ensures s'.time == s.time.(lastTick := TickCount(s), lastTickTime := s.time.clock)
    ensures s'.callback.calls == s.callback.calls + [Call(s.globals.handler.value, Delta(s) * 10000)]
    ensures s'.history.firstStart == s.history.firstStart
    ensures s'.history.lastCall == Some(s.time.clock) && s'.history.storedSince == []
  {
    hide Reachable, TimerNext;
    s' := CallbackArrives(s);
    s' := CallbackCalls(s');
    s' := CallbackReturns(s');
  }

  /** After a second or more the sample is dropped. */
  lemma {:induction false} CallbackDrops(s: State) returns (s': State)
    requires Reachable(s) && ReadyToSample(s) && Delta(s) >= LONGEST_DELTA
    ensures Reachable(s') && ReadyToSample(s')
    ensures s'.main == s.main && s'.globals == s.globals && s'.args == s.args && s'.lock.suspendCount == 0
    ensures s'.time == s.time.(lastTick := TickCount(s), lastTickTime := s.time.clock)
    ensures s'.callback.calls == s.callback.calls
    ensures s'.history.lastCall == s.history.lastCall
    ensures s'.history.storedSince == s.history.storedSince + [TickCount(s)]
  {
    s' := CallbackSamples(s);
    s' := CallbackTests(s');
    s' := CallbackGivesUp(s');
    hide Reachable, TimerNext;
    s' := CallbackReturns(s');
  }

  lemma {:induction false} CallbackGivesUp(s: State) returns (s': State)
    requires Reachable(s) && s.timer == TestDelta && s.callback.delta >= LONGEST_DELTA
    ensures Reachable(s')
    ensures s' == s.(timer := Resume, history := AfterDrop(s))
  {
    hide Reachable, AfterDrop;
    s' := TimerAdvances(s);
  }

  // ---------------------------------------------------------------- The driver is running

  const POWER_ON: State := State(
    Idle, StartEnter, true, Lock(Nobody, 0, 0, 0), Globals(false, 0, None, 0), Time(0, 0, 0, 0, 0),
    Callback(true, 0, None, []), Arguments(DEFAULT_PERIOD, None, 1), History(false, None, None, [], 0, 0))

  /** SetTimerPeriod, up to the read of the tick. */
  lemma {:induction false} StartReadsTick(s: State) returns (s': State)
    requires Reachable(s) && s.main == StartEnter && s.lock.owner == Nobody && s.lock.suspendCount == 0
    ensures Reachable(s')
    ensures s' == s.(main := StartStoreTick, globals := s.globals.(cancel := false, period := s.args.period),
                     time := s.time.(readTick := TickCount(s), readTickTime := s.time.clock))
  {
    hide Reachable;
    s' := MainAdvances(s);
    s' := MainAdvances(s');
    s' := MainAdvances(s');
    s' := MainAdvances(s');
    s' := MainAdvances(s');
  }

  lemma {:induction false} StartStoresTick(s: State) returns (s': State)
    requires Reachable(s) && s.main == StartStoreTick && s.lock.suspendCount == 0
    ensures Reachable(s')
    ensures s' == s.(main := StartKill, history := AfterRestart(s),
                     time := s.time.(lastTick := s.time.readTick, lastTickTime := s.time.readTickTime))
  {
    hide Reachable, AfterRestart;
    s' := MainAdvances(s);
  }

  /** SetTimerPeriod, from the store of the tick to the end. */
  lemma {:induction false} StartCreatesEvent(s: State) returns (s': State)
    requires Reachable(s) && s.main == StartKill && s.lock.owner == Nobody && s.lock.suspendCount == 0
    requires s.args.newId != 0
    ensures Reachable(s')
    ensures s' == s.(main := Outside, globals := s.globals.(timerId := s.args.newId),
                     history := s.history.(created := true))
  {
    hide Reachable;
    s' := MainAdvances(s);
    s' := MainAdvances(s');
    s' := MainAdvances(s');
    s' := MainAdvances(s');
    s' := MainAdvances(s');
    s' := MainAdvances(s');
    s' := MainAdvances(s');
  }

  /** The first SetTimerPeriod. */
  lemma {:induction false} FirstStartPasses(s: State) returns (s': State)
    requires Reachable(s) && s.main == StartEnter && s.lock.owner == Nobody && s.lock.suspendCount == 0
    requires s.history == History(false, None, None, [], 0, 0) && s.args.newId != 0
    ensures Reachable(s')
    ensures s' == s.(main := Outside, globals := Globals(false, s.args.period, s.globals.handler, s.args.newId),
                     time := Time(s.time.clock, TickCount(s), s.time.clock, TickCount(s), s.time.clock),
                     history := History(true, Some(s.time.clock), None, [TickCount(s)], 0, 0))
  {
    hide Reachable, TimerNext, MainNext, Begin;
    s' := StartReadsTick(s);
    s' := StartStoresTick(s');
    s' := StartCreatesEvent(s');
  }

  lemma {:induction false} RegisterPasses(s: State, handler: Handler) returns (s': State)
    requires Reachable(s) && s.main == Outside && MainEnabled(s) && s.lock.owner == Nobody && s.globals.handler == None
    ensures Reachable(s')
    ensures s' == s.(globals := s.globals.(handler := Some(handler)), args := s.args.(handler := Some(handler)))
  {
    hide Reachable;
    s' := RequestBegins(s, RegisterHandler(Some(handler)));
    s' := MainAdvances(s');
    s' := MainAdvances(s');
    s' := MainAdvances(s');
  }

  /** The driver has started the timer, and then a handler was registered. */
  lemma {:induction false} Running() returns (s: State)
    ensures Reachable(s) && ReadyToSample(s) && s.main == Outside && s.callback.calls == []
    ensures s.time == Time(0, 0, 0, 0, 0) && s.history == History(true, Some(0), None, [0], 0, 0)
  {
    InitReachable(POWER_ON);
    hide Reachable, TimerNext, MainNext, Begin;
    s := FirstStartPasses(POWER_ON);
    s := RegisterPasses(s, 1);
  }

  // ---------------------------------------------------------------- The claims that fail

  /** A sample between the read and the store of a restart lets the next one report the same time again, so that
      handlers are told of more time than has passed since the first start. */
  lemma {:induction false} TimeIsReportedTwice()
    ensures exists s :: Reachable(s) && s.history.firstStart.Some?
                        && Reported(s.callback.calls) > (s.time.clock - s.history.firstStart.value) * 10000
  {
    hide Reachable, TimerNext, MainNext;
    var s := Running();
    s := ClockAdvances(s, 500);
    s := RequestBegins(s, SetTimerPeriod(200000));
    s := StartReadsTick(s);
    s := ClockAdvances(s, 900);
    var first, second := Call(s.globals.handler.value, 9000000), Call(s.globals.handler.value, 4000000);
    s := CallbackPasses(s);
    s := StartStoresTick(s);
    s := CallbackPasses(s);
    assert s.callback.calls == [] + [first] + [second];
    ReportedAppend([], first);
    ReportedAppend([] + [first], second);
  }

  /** A sample after a second and a half is dropped, so that the next call reports 300 milliseconds although 1800 have
      passed since the call before. */
  lemma {:induction false} DroppedTimeIsNotReported()
    ensures exists s :: Reachable(s) && s.timer == CallHandler && s.history.lastCall.Some?
                        && s.history.storedSince == [2000] && s.callback.delta == 300 && SinceCall(s) == 1800
  {
    hide Reachable, TimerNext, MainNext;
    var s := Running();
    s := ClockAdvances(s, 500);
    s := CallbackPasses(s);
    s := ClockAdvances(s, 2000);
    s := CallbackDrops(s);
    s := ClockAdvances(s, 2300);
    s := CallbackArrives(s);
  }

  lemma {:induction false} InterruptsChange(s: State, flag: bool) returns (s': State)
    requires Reachable(s) && s.lock.suspendCount == 0
    ensures s' == s.(interrupts := flag) && Reachable(s')
  {
    s' := s.(interrupts := flag);
    assert MainStep(s, s') by { hide MainNext, Begin; }
    hide Reachable, MainStep;
    Extend(s, s');
  }

  /** A callback that finds interrupts disabled waits for them. */
  lemma {:induction false} CallbackWaits(s: State) returns (s': State)
    requires Reachable(s) && ReadyToSample(s.(interrupts := true)) && !s.interrupts
    ensures Reachable(s')
    ensures s' == s.(timer := Poll, lock := Lock(Nobody, 0, s.lock.suspends + 1, s.lock.resumes + 1),
                     callback := s.callback.(sawInterrupts := false))
  {
    hide Reachable;
    s' := TimerAdvances(s);
    s' := TimerAdvances(s');
    s' := TimerAdvances(s');
    s' := TimerAdvances(s');
    s' := TimerAdvances(s');
    s' := TimerAdvances(s');
    s' := TimerAdvances(s');
    s' := TimerAdvances(s');
    s' := TimerAdvances(s');
  }

  /** When they are enabled again it goes on to its sample. */
  lemma {:induction false} CallbackGoesOn(s: State) returns (s': State)
    requires Reachable(s) && s.timer == Poll && s.interrupts && s.lock.owner == Nobody && s.lock.suspendCount == 0
    ensures Reachable(s')
    ensures s' == s.(timer := Sample, lock := Lock(Timer, 1, s.lock.suspends + 1, s.lock.resumes),
                     callback := s.callback.(sawInterrupts := true))
  {
    hide Reachable;
    s' := TimerAdvances(s);
    s' := TimerAdvances(s');
    s' := TimerAdvances(s');
    s' := TimerAdvances(s');
    s' := TimerAdvances(s');
    s' := TimerAdvances(s');
  }

  /** SetTimerPeriod(0), up to the end of its first critical section. */
  lemma {:induction false} CancelSetsFlag(s: State) returns (s': State)
    requires Reachable(s) && s.main == Outside && MainEnabled(s) && s.lock.owner == Nobody
    ensures Reachable(s')
    ensures s' == s.(main := CancelKill, globals := s.globals.(cancel := true), args := s.args.(period := 0))
  {
    hide Reachable;
    s' := RequestBegins(s, SetTimerPeriod(0));
    s' := MainAdvances(s');
    s' := MainAdvances(s');
    s' := MainAdvances(s');
  }

  /** A callback that waits for interrupts while the timer is cancelled calls its handler all the same. */
  lemma {:induction false} CalledAfterCancel()
    ensures exists s :: Reachable(s) && s.globals.cancel && s.timer == CallHandler && s.callback.handler.Some?
  {
    hide Reachable, TimerNext, MainNext, Begin;
    var s := Running();
    s := InterruptsChange(s, false);
    s := CallbackWaits(s);
    s := InterruptsChange(s, true);
    s := CancelSetsFlag(s);
    s := CallbackGoesOn(s);
    s := CallbackTests(s);
    s := CallbackFetches(s);
  }
}
