/** What the requests of the main thread bring about, whatever the callback does meanwhile. */
module TimerRequests {
  import opened Wrappers
  import opened TimerProtocol

  // ---------------------------------------------------------------- RegisterHandler

  /** RegisterHandler has not stored its handler yet. */
  predicate Registering(pc: MainPc) {
    pc == RegisterEnter || pc == RegisterSet
  }

  /** A call of RegisterHandler begins that is not turned down. */
  predicate RegisterBegins(s: State, s': State) {
    s.main == Outside && s'.main == RegisterEnter
  }

  /** A request is taken up if and only if it registers while there is no handler, or unregisters while there is one. */
  lemma {:induction false} TakenUpIff(s: State, handler: Option<Handler>)
    requires s.main == Outside
    ensures RegisterBegins(s, Begin(s, RegisterHandler(handler)))
       <==> (handler == None && s.globals.handler != None) || (handler != None && s.globals.handler == None)
    ensures !RegisterBegins(s, Begin(s, RegisterHandler(handler))) ==> Begin(s, RegisterHandler(handler)) == s
  {
  }

  /** The last request that was taken up was for `handler`, and has stored it unless it is still under way. */
  predicate Requested(s: State, handler: Option<Handler>) {
    s.args.handler == handler && (Registering(s.main) || s.globals.handler == handler)
  }

  lemma {:induction false} TimerKeepsRequest(s: State, s': State)
    requires TimerStep(s, s')
    ensures s'.main == s.main && s'.args == s.args && s'.globals.handler == s.globals.handler
  {
    hide TimerGoesTo, TimerLocks, TimerComputes, TimerRecords;
  }

  lemma {:induction false} MainKeepsRequest(s: State, s': State, handler: Option<Handler>)
    requires MainStep(s, s') && Requested(s, handler) && !RegisterBegins(s, s')
    ensures Requested(s', handler)
    ensures Registering(s'.main) ==> Registering(s.main)
  {
    hide AfterRestart;
  }

  lemma {:induction false} StepKeepsRequest(s: State, s': State, handler: Option<Handler>)
    requires Next(s, s') && Requested(s, handler) && !RegisterBegins(s, s')
    ensures Requested(s', handler)
    ensures Registering(s'.main) ==> Registering(s.main)
  {
    hide TimerStep, MainStep;
    if TimerStep(s, s') {
      TimerKeepsRequest(s, s');
    } else if MainStep(s, s') {
      MainKeepsRequest(s, s', handler);
    }
  }

  /** Step `k` of the run begins no request of RegisterHandler that is taken up. */
  predicate NoRegistration(b: seq<State>, k: nat) {
    k + 1 < |b| ==> !RegisterBegins(b[k], b[k + 1])
  }

  /** From state `i` on, RegisterHandler(handler) is the last request that was taken up. */
  ghost predicate LastRequest(b: seq<State>, i: nat, j: nat, handler: Option<Handler>) {
    && Run(b) && i < j < |b|
    && b[i].main == Outside && b[i + 1] == Begin(b[i], RegisterHandler(handler)) && RegisterBegins(b[i], b[i + 1])
    && (forall k: nat :: i < k < j ==> NoRegistration(b, k))
  }

  lemma {:induction false} RunStep(b: seq<State>, k: nat)
    requires Run(b) && k + 1 < |b|
    ensures Next(b[k], b[k + 1])
  {
    hide Next, Init;
  }

  lemma {:induction false} RequestStep(b: seq<State>, i: nat, j: nat, handler: Option<Handler>)
    requires LastRequest(b, i, j, handler)
    ensures j < |b|
    ensures i + 1 < j ==>
              && LastRequest(b, i, j - 1, handler)
              && Next(b[j - 1], b[j]) && !RegisterBegins(b[j - 1], b[j])
  {
    hide Next, Run, Begin, RegisterBegins;
    if i + 1 < j {
      RunStep(b, j - 1);
      assert NoRegistration(b, j - 1);
    }
  }

  lemma {:induction false} LastRequestLater(b: seq<State>, i: nat, j: nat, handler: Option<Handler>)
    requires LastRequest(b, i, j, handler)
    ensures i < j < |b|
  {
    hide Run, Begin, RegisterBegins;
  }

  lemma {:induction false} RequestStarts(b: seq<State>, i: nat, handler: Option<Handler>)
    requires LastRequest(b, i, i + 1, handler)
    ensures Requested(b[i + 1], handler) && Registering(b[i + 1].main)
  {
    hide Run;
  }

  lemma {:induction false} RequestHolds(b: seq<State>, i: nat, j: nat, handler: Option<Handler>)
    requires LastRequest(b, i, j, handler)
    ensures j < |b| && Requested(b[j], handler)
    decreases j
  {
    hide LastRequest, Next, Requested, RegisterBegins, Run, Begin;
    RequestStep(b, i, j, handler);
    LastRequestLater(b, i, j, handler);
    if i + 1 == j {
      RequestStarts(b, i, handler);
    } else {
      RequestHolds(b, i, j - 1, handler);
      StepKeepsRequest(b[j - 1], b[j], handler);
    }
  }

  /** Once the request is past its store, it stays so. */
  lemma {:induction false} StoreStays(b: seq<State>, i: nat, m: nat, j: nat, handler: Option<Handler>)
    requires LastRequest(b, i, j, handler) && i < m <= j && m < |b| && !Registering(b[m].main)
    ensures j < |b| && !Registering(b[j].main) && b[j].globals.handler == handler
    decreases j
  {
    hide LastRequest, Next, RegisterBegins, Run, Begin;
    RequestHolds(b, i, j, handler);
    RequestStep(b, i, j, handler);
    if m < j {
      StoreStays(b, i, m, j - 1, handler);
      RequestHolds(b, i, j - 1, handler);
      StepKeepsRequest(b[j - 1], b[j], handler);
    }
  }

  /** `calls` grows to `later` by calls of `handler` only, and so not at all if it is None. */
  predicate OnlyCallsOf(calls: seq<Call>, later: seq<Call>, handler: Option<Handler>) {
    && calls <= later
    && (handler == None ==> later == calls)
    && forall k :: |calls| <= k < |later| ==> handler == Some(later[k].handler)
  }

  lemma {:induction false} StepCalls(s: State, s': State)
    requires CallInvariant(s) && Next(s, s')
    ensures OnlyCallsOf(s.callback.calls, s'.callback.calls, s.globals.handler)
  {
    hide TimerStep, MainStep;
    if TimerStep(s, s') {
      TimerCalls(s, s');
    } else if MainStep(s, s') {
      MainCallsNobody(s, s');
    }
  }

  lemma {:induction false} TimerCalls(s: State, s': State)
    requires CallInvariant(s) && TimerStep(s, s')
    ensures OnlyCallsOf(s.callback.calls, s'.callback.calls, s.globals.handler)
  {
    hide TimerGoesTo, TimerLocks, TimerRecords;
  }

  lemma {:induction false} MainCallsNobody(s: State, s': State)
    requires MainStep(s, s')
    ensures s'.callback.calls == s.callback.calls
  {
    hide AfterRestart;
  }

  /** Once RegisterHandler(handler) has stored its handler, and until another request is taken up, every call is one of
      this handler; after RegisterHandler(NULL) there is none. */
  lemma {:induction false} CallsFollowRequest(b: seq<State>, i: nat, m: nat, j: nat, handler: Option<Handler>)
    requires LastRequest(b, i, j, handler) && i < m <= j && m < |b| && !Registering(b[m].main)
    ensures j < |b| && OnlyCallsOf(b[m].callback.calls, b[j].callback.calls, handler)
    ensures handler == None ==> b[j].callback.calls == b[m].callback.calls
    decreases j
  {
    hide LastRequest, Next, RegisterBegins, Run, Begin, Registering, CallInvariant;
    RequestStep(b, i, j, handler);
    if m < j {
      RequestRuns(b, i, j, handler);
      CallsFollowRequest(b, i, m, j - 1, handler);
      StoreStays(b, i, m, j - 1, handler);
      RunCallInvariant(b, j - 1);
      StepCalls(b[j - 1], b[j]);
    }
  }

  lemma {:induction false} RequestRuns(b: seq<State>, i: nat, j: nat, handler: Option<Handler>)
    requires LastRequest(b, i, j, handler)
    ensures Run(b)
  {
    hide Run, Next, Begin;
  }

  lemma {:induction false} RunCallInvariant(b: seq<State>, i: nat)
    requires Run(b) && i < |b|
    ensures CallInvariant(b[i])
  {
    RunInv(b, i);
  }

  // ---------------------------------------------------------------- SetTimerPeriod

  /** Zero cancels the timer, a valid period starts it again, and any other period is ignored. */
  lemma {:induction false} PeriodRequest(s: State, period: nat)
    ensures var s' := Begin(s, SetTimerPeriod(period));
            if period >= 0xFFFF_FFFF then s' == s
            else s'.args.period == period && s'.main == if period == 0 then CancelEnter else StartEnter
  {
  }

  predicate Cancelling(pc: MainPc) {
    || pc == CancelLeave || pc == CancelKill || pc == CancelClearId || pc == ZeroEnter || pc == ZeroPeriod
    || pc == ZeroLeave
  }

  predicate Restarting(pc: MainPc) {
    || pc == StartLeave || pc == StartReadTick || pc == StartStoreTick || pc == StartKill || pc == StartClearId
    || pc == CreateEnter || pc == CreateReadPeriod || pc == CreateLeave || pc == CreateEvent || pc == CreateStoreId
  }

  /** SetTimerPeriod has set the cancel flag as far as it has come. */
  predicate CancelInvariant(s: State) {
    (Cancelling(s.main) ==> s.globals.cancel) && (Restarting(s.main) ==> !s.globals.cancel)
  }

  predicate PeriodSet(pc: MainPc) {
    pc == ZeroLeave || pc == StartUncancel || Restarting(pc)
  }

  /** It has stored the period. */
  predicate PeriodInvariant(s: State) {
    PeriodSet(s.main) ==> s.globals.period == s.args.period
  }

  lemma {:induction false} CancelFollows(s: State, id: nat)
    requires MainEnabled(s) && s.main != Outside && CancelInvariant(s)
    ensures CancelInvariant(MainNext(s, id))
  {
    hide AfterRestart;
  }

  lemma {:induction false} PeriodAfter(s: State, id: nat)
    requires MainEnabled(s) && s.main != Outside
    ensures var s' := MainNext(s, id);
            && s'.args.period == s.args.period
            && s'.globals.period
               == if s.main == ZeroPeriod || s.main == StartPeriod then s.args.period else s.globals.period
  {
    hide AfterRestart;
  }

  lemma {:induction false} PeriodSetBy(s: State, id: nat)
    requires MainEnabled(s) && s.main != Outside && PeriodSet(MainNext(s, id).main)
    ensures PeriodSet(s.main) || s.main == ZeroPeriod || s.main == StartPeriod
  {
    hide AfterRestart;
  }

  lemma {:induction false} PeriodFollows(s: State, id: nat)
    requires MainEnabled(s) && s.main != Outside && PeriodInvariant(s)
    ensures PeriodInvariant(MainNext(s, id))
  {
    hide MainNext, PeriodSet;
    PeriodAfter(s, id);
    if PeriodSet(MainNext(s, id).main) {
      PeriodSetBy(s, id);
    }
  }

  lemma {:induction false} MainKeepsPeriod(s: State, s': State)
    requires MainStep(s, s') && CancelInvariant(s) && PeriodInvariant(s)
    ensures CancelInvariant(s') && PeriodInvariant(s')
  {
    hide MainNext;
    if s.main != Outside && MainEnabled(s) {
      CancelFollows(s, s'.args.newId);
      PeriodFollows(s, s'.args.newId);
    }
  }

  lemma {:induction false} TimerKeepsPeriod(s: State, s': State)
    requires TimerStep(s, s') && CancelInvariant(s) && PeriodInvariant(s)
    ensures CancelInvariant(s') && PeriodInvariant(s')
  {
    hide TimerGoesTo, TimerLocks, TimerComputes, TimerRecords;
  }

  lemma {:induction false} RunPeriod(b: seq<State>, i: nat)
    requires Run(b) && i < |b|
    ensures CancelInvariant(b[i]) && PeriodInvariant(b[i])
  {
    if i > 0 {
      hide TimerStep, MainStep;
      RunPeriod(b, i - 1);
      RunStep(b, i - 1);
      if TimerStep(b[i - 1], b[i]) {
        TimerKeepsPeriod(b[i - 1], b[i]);
      } else if MainStep(b[i - 1], b[i]) {
        MainKeepsPeriod(b[i - 1], b[i]);
      }
    }
  }

  /** When SetTimerPeriod is about to return it has stored the period, and the timer is cancelled or not as asked. */
  lemma {:induction false} PeriodIsStored(b: seq<State>, i: nat)
    requires Run(b) && i < |b|
    ensures b[i].main == ZeroLeave || b[i].main == CreateStoreId ==> b[i].globals.period == b[i].args.period
    ensures b[i].main == ZeroLeave ==> b[i].globals.cancel
    ensures b[i].main == CreateStoreId ==> !b[i].globals.cancel
  {
    RunPeriod(b, i);
  }

  predicate IdCleared(pc: MainPc) {
    || pc == ZeroEnter || pc == ZeroPeriod || pc == ZeroLeave || pc == CreateEnter || pc == CreateReadPeriod
    || pc == CreateLeave || pc == CreateEvent || pc == CreateStoreId
  }

  /** SetTimerPeriod forgets the timer event before it goes on. */
  predicate IdInvariant(s: State) {
    IdCleared(s.main) ==> s.globals.timerId == 0
  }

  lemma {:induction false} IdFollows(s: State, id: nat)
    requires MainEnabled(s) && s.main != Outside && IdInvariant(s)
    ensures IdInvariant(MainNext(s, id))
  {
    hide AfterRestart;
  }

  lemma {:induction false} StepKeepsId(s: State, s': State)
    requires Next(s, s') && IdInvariant(s)
    ensures IdInvariant(s')
  {
    hide MainNext, TimerGoesTo, TimerLocks, TimerComputes, TimerRecords;
    if s.main != Outside && MainEnabled(s) {
      IdFollows(s, s'.args.newId);
    }
  }

  lemma {:induction false} KillClearsId(s: State, s': State)
    requires Next(s, s') && s.timer == Kill && s'.timer == Idle
    ensures s'.globals.timerId == 0
  {
    hide MainNext, TimerLocks, TimerComputes, TimerRecords;
    if s.main != Outside && MainEnabled(s) {
      MainKeepsTimer(s, s'.args.newId);
    }
  }

  lemma {:induction false} MainKeepsTimer(s: State, id: nat)
    requires MainEnabled(s) && s.main != Outside
    ensures MainNext(s, id).timer == s.timer
  {
    hide AfterRestart;
  }

  lemma {:induction false} CreateStoresId(s: State, s': State)
    requires Next(s, s') && s.main == CreateStoreId && s'.main == Outside
    ensures s'.globals.timerId == s.args.newId
  {
    hide TimerGoesTo, TimerLocks, TimerComputes, TimerRecords, AfterRestart;
  }

  /** After a cancellation no timer event is known, and after a start the one that the system has created, until a
      callback clears it. */
  lemma {:induction false} TimerIdIsStored(b: seq<State>, i: nat)
    requires Run(b) && i < |b|
    ensures b[i].main == ZeroLeave ==> b[i].globals.timerId == 0
    ensures i + 1 < |b| && b[i].timer == Kill && b[i + 1].timer == Idle ==> b[i + 1].globals.timerId == 0
    ensures i + 1 < |b| && b[i].main == CreateStoreId && b[i + 1].main == Outside
            ==> b[i + 1].globals.timerId == b[i].args.newId
  {
    hide Next, Run;
    RunId(b, i);
    if i + 1 < |b| {
      RunStep(b, i);
      if b[i].timer == Kill && b[i + 1].timer == Idle {
        KillClearsId(b[i], b[i + 1]);
      }
      if b[i].main == CreateStoreId && b[i + 1].main == Outside {
        CreateStoresId(b[i], b[i + 1]);
      }
    }
  }

  lemma {:induction false} RunId(b: seq<State>, i: nat)
    requires Run(b) && i < |b|
    ensures IdInvariant(b[i])
  {
    hide Next;
    if i > 0 {
      RunId(b, i - 1);
      RunStep(b, i - 1);
      StepKeepsId(b[i - 1], b[i]);
    }
  }

  // ---------------------------------------------------------------- Cancelled callbacks

  /** The main thread clears the cancel flag. */
  predicate Uncancels(s: State, s': State) {
    s.main == StartUncancel && s'.main == StartLeave
  }

  predicate NoUncancel(b: seq<State>, k: nat) {
    k + 1 < |b| ==> !Uncancels(b[k], b[k + 1])
  }

  /** The callback has not gone beyond its second look at the cancel flag, or it ends because of it. */
  predicate Silent(pc: TimerPc) {
    || pc == Idle || pc == CheckCancel || pc == Enter || pc == Suspend || pc == CheckCancelAgain
    || pc == ResumeCancelled || pc == LeaveCancelled || pc == Kill
  }

  lemma {:induction false} TimerStaysSilent(s: State, s': State)
    requires TimerStep(s, s') && s.globals.cancel && Silent(s.timer)
    ensures s'.globals.cancel && Silent(s'.timer) && s'.callback.calls == s.callback.calls
  {
    hide TimerLocks, TimerRecords, Called;
  }

  lemma {:induction false} MainStaysCancelled(s: State, s': State)
    requires MainStep(s, s') && s.globals.cancel && !Uncancels(s, s')
    ensures s'.globals.cancel && s'.timer == s.timer && s'.callback.calls == s.callback.calls
  {
    hide AfterRestart;
  }

  /** Callbacks that have not suspended the main thread when the cancel flag is set make no call while it is set. */
  lemma {:induction false} CancelledCallbacksAreSilent(b: seq<State>, i: nat, j: nat)
    requires Run(b) && i <= j < |b| && b[i].globals.cancel && Silent(b[i].timer)
    requires forall k: nat :: i <= k < j ==> NoUncancel(b, k)
    ensures b[j].globals.cancel && Silent(b[j].timer)
    ensures b[j].callback.calls == b[i].callback.calls
    decreases j
  {
    hide TimerStep, MainStep, Run, Uncancels;
    if i < j {
      RunStep(b, j - 1);
      CancelledCallbacksAreSilent(b, i, j - 1);
      assert NoUncancel(b, j - 1);
      if TimerStep(b[j - 1], b[j]) {
        TimerStaysSilent(b[j - 1], b[j]);
      } else if MainStep(b[j - 1], b[j]) {
        MainStaysCancelled(b[j - 1], b[j]);
      }
    }
  }

  /** The callback is not running, or is at its first look at the cancel flag, or ends because of it. */
  predicate Untouched(pc: TimerPc) {
    pc == Idle || pc == CheckCancel || pc == Kill
  }

  lemma {:induction false} TimerStaysUntouched(s: State, s': State)
    requires TimerStep(s, s') && s.globals.cancel && Untouched(s.timer)
    ensures s'.globals.cancel && Untouched(s'.timer) && s'.lock.suspends == s.lock.suspends
  {
    hide TimerRecords, TimerComputes;
  }

  lemma {:induction false} MainKeepsCount(s: State, s': State)
    requires MainStep(s, s')
    ensures s'.lock.suspends == s.lock.suspends
  {
    hide AfterRestart;
  }

  /** Callbacks that begin while the cancel flag is set never suspend the main thread as long as it is set. */
  lemma {:induction false} CancelledCallbacksSuspendNobody(b: seq<State>, i: nat, j: nat)
    requires Run(b) && i <= j < |b| && b[i].globals.cancel && b[i].timer == Idle
    requires forall k: nat :: i <= k < j ==> NoUncancel(b, k)
    ensures b[j].globals.cancel && Untouched(b[j].timer)
    ensures b[j].lock.suspends == b[i].lock.suspends
    decreases j
  {
    hide TimerStep, MainStep, Run, Uncancels;
    if i < j {
      RunStep(b, j - 1);
      CancelledCallbacksSuspendNobody(b, i, j - 1);
      assert NoUncancel(b, j - 1);
      if TimerStep(b[j - 1], b[j]) {
        TimerStaysUntouched(b[j - 1], b[j]);
      } else if MainStep(b[j - 1], b[j]) {
        MainStaysCancelled(b[j - 1], b[j]);
        MainKeepsCount(b[j - 1], b[j]);
      }
    }
  }

  /** After SetTimerPeriod(0) has set the flag, no handler is called until the timer is started again, unless a callback
      was waiting for interrupts then. */
  lemma {:induction false} CancelledTimerIsSilent(b: seq<State>, i: nat, j: nat)
    requires Run(b) && i <= j < |b| && b[i].main == CancelLeave && Silent(b[i].timer)
    requires forall k: nat :: i <= k < j ==> NoUncancel(b, k)
    ensures b[j].callback.calls == b[i].callback.calls
  {
    hide Next;
    RunPeriod(b, i);
    CancelledCallbacksAreSilent(b, i, j);
  }

  /** The only other callbacks at that point are those that wait for interrupts. */
  lemma {:induction false} OnlyWaitersAreLeft(b: seq<State>, i: nat)
    requires Run(b) && i < |b| && b[i].main == CancelLeave && !Silent(b[i].timer)
    ensures b[i].timer == Poll || b[i].timer == TestPoll || b[i].timer == EnterAgain
  {
    RunInv(b, i);
  }

  // ---------------------------------------------------------------- Waiting for interrupts

  predicate Polling(s: State) {
    (s.timer == Poll || s.timer == TestPoll) && (s.timer == TestPoll ==> !s.callback.sawInterrupts)
  }

  lemma {:induction false} TimerPolls(s: State, s': State)
    requires TimerStep(s, s') && Polling(s) && !s.interrupts
    ensures Polling(s')
  {
    hide TimerLocks, TimerRecords, Called;
  }

  lemma {:induction false} MainLeavesPolling(s: State, s': State)
    requires MainStep(s, s') && Polling(s)
    ensures Polling(s')
  {
    hide AfterRestart;
  }

  /** As long as interrupts stay disabled, a callback that waits for them stays in its wait loop, outside of the
      critical section. */
  lemma {:induction false} WaitsForInterrupts(b: seq<State>, i: nat, j: nat)
    requires Run(b) && i <= j < |b| && b[i].timer == Poll
    requires forall k :: i <= k < j ==> !b[k].interrupts
    ensures Polling(b[j]) && b[j].lock.owner != Timer
    decreases j
  {
    hide TimerStep, MainStep, Run, Inv;
    StaysPolling(b, i, j);
    PollingOwnsNothing(b, j);
  }

  lemma {:induction false} PollingOwnsNothing(b: seq<State>, j: nat)
    requires Run(b) && j < |b| && Polling(b[j])
    ensures b[j].lock.owner != Timer
  {
    RunInv(b, j);
  }

  lemma {:induction false} StaysPolling(b: seq<State>, i: nat, j: nat)
    requires Run(b) && i <= j < |b| && b[i].timer == Poll
    requires forall k :: i <= k < j ==> !b[k].interrupts
    ensures Polling(b[j])
    decreases j
  {
    hide TimerStep, MainStep, Run;
    if i < j {
      RunStep(b, j - 1);
      StaysPolling(b, i, j - 1);
      if TimerStep(b[j - 1], b[j]) {
        TimerPolls(b[j - 1], b[j]);
      } else if MainStep(b[j - 1], b[j]) {
        MainLeavesPolling(b[j - 1], b[j]);
      }
    }
  }
}
