/** How much time the timer callback tells handlers of, over whole runs. */
module TimerReports {
  import opened Wrappers
  import opened TimerProtocol

  function Reported(calls: seq<Call>): nat {
    if calls == [] then 0 else Reported(calls[..|calls| - 1]) + calls[|calls| - 1].time
  }

  lemma {:induction false} ReportedAppend(calls: seq<Call>, call: Call)
    ensures Reported(calls + [call]) == Reported(calls) + call.time
  {
    assert (calls + [call])[..|calls|] == calls;
  }

  /** The callback has a sample that is not yet reported or dropped. */
  predicate Sampled(pc: TimerPc) {
    pc == TestDelta || pc == RaiseTpl || pc == FetchHandler || pc == CallHandler
  }

  function Pending(s: State): nat {
    if Sampled(s.timer) then s.callback.delta else 0
  }

  /** The first SetTimerPeriod stores a tick before it creates a timer event, and only then callbacks run. */
  predicate StartInvariant(s: State) {
    && (s.timer != Idle || s.callback.calls != [] ==> s.history.created)
    && (s.history.created || StoredFirst(s.main) ==> s.history.firstStart.Some?)
  }

  predicate StoredFirst(pc: MainPc) {
    || pc == StartKill || pc == StartClearId || pc == CreateEnter || pc == CreateReadPeriod || pc == CreateLeave
    || pc == CreateEvent
  }

  /** The account of time: what was reported, is pending or is lost makes up the time between the first stored tick and
      the last one, and what was given back. */
  predicate Balanced(s: State) {
    match s.history.firstStart
    case None => s.callback.calls == [] && !Sampled(s.timer) && s.history.lost == s.history.givenBack == 0
    case Some(start) =>
      && s.history.lost >= 0 && s.history.givenBack >= 0
      && Reported(s.callback.calls) + (Pending(s) + s.history.lost) * 10000
      == (s.time.lastTickTime - start + s.history.givenBack) * 10000
  }

  /** The tick that was stored last, by the last call or after it. */
  function Expected(h: History): nat
    requires h.lastCall.Some?
  {
    if h.storedSince == [] then h.lastCall.value % TICK_RANGE else h.storedSince[|h.storedSince| - 1]
  }

  predicate GapInvariant(s: State) {
    s.history.lastCall.Some? ==>
      && s.history.lastCall.value <= s.time.clock
      && Expected(s.history) < TICK_RANGE
      && if Sampled(s.timer)
         then s.history.lastCall.value <= s.time.lastTickTime
              && s.callback.delta == (s.time.lastTick - Expected(s.history)) % TICK_RANGE
         else s.time.lastTick == Expected(s.history)
  }

  predicate ReportInv(s: State) {
    StartInvariant(s) && Accounted(s)
  }

  // ---------------------------------------------------------------- Steps

  /** SetTimerPeriod stores the tick that it read before, outside of the critical section. */
  predicate Restarts(s: State, s': State) {
    s.main == StartStoreTick && s'.main == StartKill
  }

  /** The next statement of the callback gives a sample up without a call. */
  predicate Drops(s: State) {
    || (s.timer == TestDelta && s.callback.delta >= LONGEST_DELTA)
    || (s.timer == FetchHandler && s.globals.handler.None?)
  }

  /** The callback takes a sample. */
  predicate Samples(s: State, s': State) {
    && s.timer == Sample && s'.timer == TestDelta && s'.history == AfterSample(s, Delta(s))
    && s'.callback == s.callback.(delta := Delta(s))
    && s'.time == s.time.(lastTick := TickCount(s), lastTickTime := s.time.clock)
  }

  /** The callback calls the handler. */
  predicate Calls(s: State, s': State) {
    && s.timer == CallHandler && s'.timer == RestoreTpl && s'.history == AfterCall(s)
    && s'.callback == Called(s.callback) && s'.time == s.time
  }

  /** The callback gives its sample up. */
  predicate GivesUp(s: State, s': State) {
    && Drops(s) && !Sampled(s'.timer) && s'.history == AfterDrop(s)
    && s'.callback == s.callback.(handler := s'.callback.handler) && s'.time == s.time
  }

  /** SetTimerPeriod stores its tick. */
  predicate StoresTick(s: State, s': State) {
    && Restarts(s, s') && s.lock.suspendCount == 0
    && s'.timer == s.timer && s'.callback == s.callback && s'.history == AfterRestart(s)
    && s'.time == s.time.(lastTick := s.time.readTick, lastTickTime := s.time.readTickTime)
  }

  /** A step that does nothing of this kind. */
  predicate Passes(s: State, s': State) {
    && (Sampled(s'.timer) <==> Sampled(s.timer)) && s'.history == s.history.(created := s'.history.created)
    && s'.callback.calls == s.callback.calls && s'.callback.delta == s.callback.delta
    && s'.time.lastTick == s.time.lastTick && s'.time.lastTickTime == s.time.lastTickTime
    && s'.time.clock >= s.time.clock
  }

  lemma {:induction false} TimerEffect(s: State, s': State)
    requires TimerStep(s, s')
    ensures s'.main == s.main
    ensures if s.timer == Sample then Samples(s, s')
            else if s.timer == CallHandler then Calls(s, s')
            else if Drops(s) then GivesUp(s, s')
            else Passes(s, s')
  {
    hide TimerLocks, AfterSample, AfterDrop, AfterCall, Called;
  }

  lemma {:induction false} MainEffect(s: State, s': State)
    requires MainStep(s, s')
    ensures if Restarts(s, s') then StoresTick(s, s') else Passes(s, s')
  {
    hide AfterRestart;
  }

  lemma {:induction false} TimerKeepsStart(s: State, s': State)
    requires StartInvariant(s) && TimerStep(s, s')
    ensures StartInvariant(s')
  {
    hide TimerLocks, TimerGoesTo;
  }

  lemma {:induction false} MainKeepsStart(s: State, s': State)
    requires StartInvariant(s) && MainStep(s, s')
    ensures StartInvariant(s')
  {
    RestartIsFirst(s);
    hide AfterRestart;
  }

  lemma {:induction false} RestartIsFirst(s: State)
    ensures AfterRestart(s).firstStart.Some? && AfterRestart(s).created == s.history.created
  {
  }

  /** What a step leaves balanced. */
  predicate Accounted(s: State) {
    Balanced(s) && GapInvariant(s)
  }

  lemma {:induction false} SampleKeepsAccounts(s: State, s': State)
    requires Samples(s, s') && s.history.firstStart.Some? && TimeInvariant(s) && Accounted(s)
    ensures Accounted(s')
  {
    hide Reported;
    DifferenceOfTicks(s.time.clock, s.time.lastTickTime);
  }

  lemma {:induction false} CallKeepsAccounts(s: State, s': State)
    requires Calls(s, s') && TimeInvariant(s) && CallInvariant(s) && Accounted(s)
    ensures Accounted(s')
  {
    hide Reported;
    ReportedAppend(s.callback.calls, Call(s.callback.handler.value, s.callback.delta * 10000));
  }

  lemma {:induction false} DropKeepsAccounts(s: State, s': State)
    requires GivesUp(s, s') && TimeInvariant(s) && Accounted(s)
    ensures Accounted(s')
  {
    hide Reported;
  }

  lemma {:induction false} RestartKeepsAccounts(s: State, s': State)
    requires StoresTick(s, s') && !Sampled(s.timer) && TimeInvariant(s) && Accounted(s)
    ensures Accounted(s')
  {
    assert Reported([]) == 0;
    hide Reported;
  }

  lemma {:induction false} OthersKeepAccounts(s: State, s': State)
    requires Passes(s, s') && Accounted(s)
    ensures Accounted(s')
  {
    hide Reported;
  }

  lemma {:induction false} StepKeepsReports(s: State, s': State)
    requires Inv(s) && ReportInv(s) && Next(s, s')
    ensures ReportInv(s')
  {
    hide StartInvariant, Accounted, TimerStep, MainStep, ClockStep, Passes, Samples, Calls, GivesUp;
    hide TimeInvariant, CallInvariant, OwnerInvariant, BalanceInvariant, FlagInvariant;
    if TimerStep(s, s') {
      TimerKeepsStart(s, s');
      TimerEffect(s, s');
      if s.timer == Sample {
        StartedBefore(s);
        SampleKeepsAccounts(s, s');
      } else if s.timer == CallHandler {
        CallKeepsAccounts(s, s');
      } else if Drops(s) {
        DropKeepsAccounts(s, s');
      } else {
        OthersKeepAccounts(s, s');
      }
    } else if MainStep(s, s') {
      MainKeepsStart(s, s');
      MainEffect(s, s');
      if Restarts(s, s') {
        RestartKeepsAccounts(s, s');
      } else {
        OthersKeepAccounts(s, s');
      }
    } else {
      ClockKeepsReports(s, s');
    }
  }

  lemma {:induction false} StartedBefore(s: State)
    requires StartInvariant(s) && s.timer != Idle
    ensures s.history.firstStart.Some?
  {
  }

  lemma {:induction false} ClockKeepsReports(s: State, s': State)
    requires ReportInv(s) && ClockStep(s, s')
    ensures ReportInv(s')
  {
    OthersKeepAccounts(s, s');
  }

  lemma {:induction false} RunReports(b: seq<State>, i: nat)
    requires Run(b) && i < |b|
    ensures ReportInv(b[i])
  {
    hide Inv, Next;
    if i > 0 {
      RunReports(b, i - 1);
      RunInv(b, i - 1);
      assert Next(b[i - 1], b[i - 1 + 1]);
      StepKeepsReports(b[i - 1], b[i]);
    }
  }

  // ---------------------------------------------------------------- All the time that is reported

  /** In every reachable state after the first start, the time that handlers have been told of is the time from the
      first stored tick to the last one, less what is pending or lost, and with what restarts have given back. */
  lemma {:induction false} TimeIsConserved(b: seq<State>, i: nat)
    requires Run(b) && i < |b|
    ensures var s := b[i];
            if s.history.firstStart.None? then s.callback.calls == [] else
              Reported(s.callback.calls)
              == (s.time.lastTickTime - s.history.firstStart.value - Pending(s) - s.history.lost + s.history.givenBack)
                 * 10000
  {
    RunReports(b, i);
  }

  /** Handlers have been told of more time than has passed since the first start if and only if restarts have given back
      more than is lost, pending or not sampled yet. */
  lemma {:induction false} TooMuchIsReportedIff(b: seq<State>, i: nat)
    requires Run(b) && i < |b| && b[i].history.firstStart.Some?
    ensures var s := b[i];
            Reported(s.callback.calls) > (s.time.clock - s.history.firstStart.value) * 10000
            <==> s.history.givenBack > s.history.lost + Pending(s) + (s.time.clock - s.time.lastTickTime)
  {
    RunReports(b, i);
  }

  /** No callback samples the tick between the two statements of a restart that read and store it. */
  ghost predicate RestartsUndisturbed(b: seq<State>) {
    forall i :: 0 <= i < |b| - 1 && Restarts(b[i], b[i + 1]) ==> b[i].time.lastTickTime <= b[i].time.readTickTime
  }

  /** Time is given back by exactly the restarts that have a sample between their read and their store. */
  lemma {:induction false} GivenBackIff(s: State, s': State)
    requires Next(s, s')
    ensures s'.history.givenBack >= s.history.givenBack
    ensures s'.history.givenBack > s.history.givenBack
       <==> && Restarts(s, s') && s.history.firstStart.Some?
            && s.time.readTickTime < s.time.lastTickTime
  {
    hide TimerStep, MainStep;
    if TimerStep(s, s') {
      TimerEffect(s, s');
    } else if MainStep(s, s') {
      MainEffect(s, s');
    }
  }

  /** Time is lost by exactly the samples after which the tick has gone round, the dropped samples, and the restarts
      that skip time. */
  lemma {:induction false} LostIff(s: State, s': State)
    requires TimeInvariant(s) && Next(s, s')
    ensures s'.history.lost >= s.history.lost
    ensures s'.history.lost > s.history.lost
       <==> || (TimerStep(s, s') && s.timer == Sample && s.time.clock - s.time.lastTickTime >= TICK_RANGE)
            || (TimerStep(s, s') && Drops(s) && s.callback.delta > 0)
            || (Restarts(s, s') && s.history.firstStart.Some? && s.time.readTickTime > s.time.lastTickTime)
  {
    hide TimerStep, MainStep;
    if TimerStep(s, s') {
      TimerEffect(s, s');
      DifferenceOfTicks(s.time.clock, s.time.lastTickTime);
    } else if MainStep(s, s') {
      MainEffect(s, s');
    }
  }

  lemma {:induction false} NothingGivenBack(b: seq<State>, i: nat)
    requires Run(b) && i < |b| && RestartsUndisturbed(b)
    ensures b[i].history.givenBack == 0
  {
    hide Next;
    if i > 0 {
      NothingGivenBack(b, i - 1);
      assert Next(b[i - 1], b[i - 1 + 1]);
      GivenBackIff(b[i - 1], b[i]);
      assert Restarts(b[i - 1], b[i - 1 + 1]) ==> b[i - 1].time.lastTickTime <= b[i - 1].time.readTickTime;
    }
  }

  /** Without such restarts, handlers are told of no more time than has passed since the first start. */
  lemma {:induction false} NoTimeIsInvented(b: seq<State>, i: nat)
    requires Run(b) && i < |b| && RestartsUndisturbed(b)
    ensures b[i].history.firstStart.None? ==> b[i].callback.calls == []
    ensures b[i].history.firstStart.Some?
            ==> Reported(b[i].callback.calls) <= (b[i].time.clock - b[i].history.firstStart.value) * 10000
  {
    hide Next;
    RunInv(b, i);
    RunReports(b, i);
    NothingGivenBack(b, i);
  }

  // ---------------------------------------------------------------- The time that one call reports

  /** At a call that is not the first one: the time since the sample of the call before, in milliseconds. */
  function SinceCall(s: State): int
    requires s.history.lastCall.Some?
  {
    s.time.lastTickTime - s.history.lastCall.value
  }

  /** A call reports the time since the previous call if and only if that is less than 2^32 milliseconds, and no
      dropped sample and no restart has stored a tick since then, or the last such tick is the one of the previous
      call. */
  lemma {:induction false} CallReportsSinceCallIff(b: seq<State>, i: nat)
    requires Run(b) && i < |b| && b[i].timer == CallHandler && b[i].history.lastCall.Some?
    ensures var s, since := b[i], b[i].history.storedSince;
            s.callback.delta == SinceCall(s)
            <==> && SinceCall(s) < TICK_RANGE
                 && (since == [] || since[|since| - 1] == s.history.lastCall.value % TICK_RANGE)
  {
    RunInv(b, i);
    RunReports(b, i);
    var s := b[i];
    SameRemainder(s.time.lastTickTime, s.history.lastCall.value, Expected(s.history));
  }

  lemma {:induction false} SameRemainder(now: nat, before: nat, tick: nat)
    requires before <= now && tick < TICK_RANGE
    ensures (now % TICK_RANGE - tick) % TICK_RANGE == now - before
       <==> now - before < TICK_RANGE && tick == before % TICK_RANGE
  {
  }

  /** If none of the stored ticks is the one of the previous call: a call reports the time since the previous call,
      within 2^32 milliseconds, if and only if no sample in between was dropped and no restart stored a tick. */
  lemma {:induction false} QuietCallsIff(b: seq<State>, i: nat)
    requires Run(b) && i < |b| && b[i].timer == CallHandler && b[i].history.lastCall.Some?
    requires SinceCall(b[i]) < TICK_RANGE
    requires b[i].history.lastCall.value % TICK_RANGE !in b[i].history.storedSince
    ensures b[i].callback.delta == SinceCall(b[i]) <==> b[i].history.storedSince == []
  {
    CallReportsSinceCallIff(b, i);
  }

  /** What is recorded since the last call: exactly the dropped samples and the restarts, until the next call. */
  lemma {:induction false} StoresAreRecorded(s: State, s': State)
    requires CallInvariant(s) && Next(s, s')
    ensures s'.history.storedSince
         == if TimerStep(s, s') && s.timer == CallHandler then []
            else if TimerStep(s, s') && Drops(s) then s.history.storedSince + [s.time.lastTick]
            else if Restarts(s, s') then s.history.storedSince + [s.time.readTick]
            else s.history.storedSince
  {
    hide TimerStep, MainStep;
    if TimerStep(s, s') {
      TimerEffect(s, s');
    } else if MainStep(s, s') {
      MainEffect(s, s');
    }
  }
}
