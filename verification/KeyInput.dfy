/** The keyboard of the graphics window: the window thread adds keystrokes, and the Simple Text Input protocols read
    them. */
module KeyInput {
  import opened Wrappers
  import opened EfiStatus
  import opened Keys
  import opened KeyQueues
  import opened HotKeys
  import Queues = BoundedQueues

  /** ReadKeyStroke skips partial keystrokes if they are supported. */
  function SimpleReading(queue: seq<KeyData>, support: bool): Reading {
    var r := Deleted(if support then Whole(queue) else queue, support);
    if r.status == Success then r.(key := Converted(r.key)) else r
  }

  lemma {:induction false} WholeStep(queue: seq<KeyData>)
    ensures queue == [] ==> Whole(queue) == []
    ensures queue != [] && Partial(queue[0]) ==> Whole(queue) == Whole(queue[1..])
    ensures queue != [] && !Partial(queue[0]) ==> Whole(queue) == queue
  {
  }

  /** WaitForKey signals exactly if some keystroke is not partial. Whatever the window thread adds afterwards, the
      next ReadKeyStroke succeeds with the first such keystroke and removes just it. */
  lemma {:induction false} ReadAfterWait(queue: seq<KeyData>, ops: seq<Queues.Op<KeyData>>, support: bool)
    requires Queues.OnlyPuts(ops)
    ensures Whole(queue) != [] <==> exists i :: 0 <= i < |queue| && !Partial(queue[i])
    ensures Whole(queue) != []
            ==> var later := Queues.Run(CAPACITY, Whole(queue), ops).stored;
                && later != []
                && SimpleReading(later, support) == Reading(Success, Converted(Whole(queue)[0]), later[1..])
  {
    var whole := Whole(queue);
    if whole != [] {
      Queues.PutsKeepStored(CAPACITY, whole, ops);
      var later := Queues.Run(CAPACITY, whole, ops).stored;
      assert later[0] == whole[0] && !Partial(later[0]);
      WholeStep(later);
      assert !Partial(queue[FirstWhole(queue)]);
    }
  }

  /** ReadKeyStroke returns no partial keystroke, and returns the first other one unless it meets a partial one that
      is not supported. */
  lemma {:induction false} ReadingIff(queue: seq<KeyData>, support: bool)
    ensures var r := SimpleReading(queue, support);
            && (r.status == Success
                <==> queue != [] && (if support then FirstWhole(queue) < |queue| else !Partial(queue[0])))
            && (r.status == Success
                ==> && r.key == Converted(queue[FirstWhole(queue)])
                    && r.queue == queue[FirstWhole(queue) + 1..]
                    && !Partial(queue[FirstWhole(queue)]))
  {
  }

  /** A key that is typed into an empty queue, and then waited for and read: with a scan code or a character, WaitForKey
      keeps it and so signals, and the read returns it, whether partial keystrokes are supported or not. Its scan
      code is the one that was typed, and its character as well unless it is a letter with Ctrl. Without a scan code
      and a character WaitForKey drops it, and no read returns it. */
  lemma {:induction false} TypedKeyIsRead(
    flags: Flags, support: bool, scanCode: nat, c: nat, key: KeyData, supportLater: bool)
    requires Stamped(flags, support, scanCode, c, key)
    ensures var r := SimpleReading([key], supportLater);
            if scanCode != 0 || c != 0 then
              && Whole([key]) == [key]
              && r.status == Success && r.key.scanCode == scanCode && r.queue == []
              && (!((flags.leftCtrl || flags.rightCtrl) && (65 <= c <= 90 || 97 <= c <= 122))
                  ==> r.key.unicodeChar == c)
            else
              Whole([key]) == [] && r.status == NotReady && r.queue == []
  {
    hide ShiftBits, ToggleBits, Converted, SimpleReading, Whole;
    CharacterSurvivesIff(flags, support, scanCode, c, key);
    ReadingOfOne(key, supportLater);
  }

  lemma {:induction false} ReadingOfOne(key: KeyData, support: bool)
    ensures var empty := key.scanCode == 0 && key.unicodeChar == 0;
            && Whole([key]) == (if empty then [] else [key])
            && SimpleReading([key], support).queue == []
            && SimpleReading([key], support).status == (if empty then NotReady else Success)
            && (!empty ==> SimpleReading([key], support).key == Converted(key))
  {
    hide Converted;
    WholeStep([key]);
    WholeStep([]);
    assert [key][1..] == [];
  }

  class GopInput {
    var flags: Flags
    var support: bool
    var toggleState: bv8
    var notifyList: seq<Notify>
    const queueForRead: KeyQueue
    const queueForNotify: KeyQueue

    ghost predicate Valid()
      reads this, queueForRead, queueForNotify, queueForRead.q, queueForNotify.q
    {
      && queueForRead != queueForNotify
      && queueForRead.q != queueForNotify.q
      && queueForRead.Valid() && queueForNotify.Valid()
      && HandlesDiffer(notifyList) && NoneShadowed(notifyList)
      && toggleState & TOGGLE_STATE_VALID == TOGGLE_STATE_VALID
    }

    constructor ()
      ensures Valid()
      ensures fresh(queueForRead) && fresh(queueForRead.q) && fresh(queueForNotify) && fresh(queueForNotify.q)
      ensures queueForRead.Contents() == [] && queueForNotify.Contents() == [] && notifyList == []
      ensures flags == NO_FLAGS && !support && toggleState == TOGGLE_STATE_VALID
    {
      queueForRead := new KeyQueue();
      queueForNotify := new KeyQueue();
      flags := NO_FLAGS;
      support := false;
      toggleState := TOGGLE_STATE_VALID;
      notifyList := [];
    }

    /** Queues a keystroke for the readers and for the notifications; a full queue loses it. */
    method AddKey(scanCode: nat, unicodeChar: nat) returns (ghost key: KeyData)
      requires Valid()
      modifies queueForRead, queueForNotify, queueForRead.q, queueForNotify.q
      ensures Valid()
      ensures Stamped(flags, support, scanCode, unicodeChar, key)
      ensures queueForRead.Contents()
           == Queues.Step(CAPACITY, old(queueForRead.Contents()), Queues.Put([key])).stored
      ensures queueForNotify.Contents()
           == Queues.Step(CAPACITY, old(queueForNotify.Contents()), Queues.Put([key])).stored
    {
      hide ShiftBits, ToggleBits, Queues.Step, HandlesDiffer, NoneShadowed;
      var c := ToLetter(flags, unicodeChar);
      var shiftState := ShiftState(flags, IsLetter(c));
      var toggle := ToggleState(flags, support);
      var keyData := KeyData(scanCode, c, shiftState, toggle);
      var _ := queueForNotify.AddQ(keyData);
      var _ := queueForRead.AddQ(keyData);
      key := keyData;
      PutOne(old(queueForNotify.Contents()), key);
      PutOne(old(queueForRead.Contents()), key);
    }

    /** Calls the functions of all entries that cover the keystroke. The functions leave the driver alone. */
    method InvokeRegisteredFunction(key: KeyData) returns (calls: seq<Invocation>)
      ensures calls == Invocations(notifyList, key)
    {
      calls := [];
      var i := 0;
      while i < |notifyList|
        invariant 0 <= i <= |notifyList|
        invariant calls == Invocations(notifyList[..i], key)
      {
        if Covers(notifyList[i].key, key) {
          calls := calls + [Invocation(notifyList[i].fn, key)];
        }
        InvocationsAppend(notifyList[..i], [notifyList[i]], key);
        assert notifyList[..i + 1] == notifyList[..i] + [notifyList[i]];
        i := i + 1;
      }
      assert notifyList[..i] == notifyList;
    }

    /** Calls the functions for the keystrokes that can be taken from the notification queue. */
    method TimerHandler() returns (calls: seq<Invocation>)
      requires Valid()
      modifies queueForNotify`front, queueForNotify`removed
      ensures Valid()
      ensures calls == AllInvocations(notifyList, Delivered(old(queueForNotify.Contents()), support))
      ensures queueForNotify.Contents() == Left(old(queueForNotify.Contents()), support)
    {
      hide Delivered, Left, AllInvocations, Invocations, HandlesDiffer, NoneShadowed, Pending;
      ghost var before := queueForNotify.Contents();
      ghost var done: seq<KeyData> := [];
      calls := [];
      DrainStart(before, support);
      InvokeNothing(notifyList);
      var status, key := queueForNotify.DeleteQ(support);
      while status == Success
        invariant Valid()
        invariant calls == AllInvocations(notifyList, done)
        invariant Draining(before, support, done, Reading(status, key, queueForNotify.Contents()))
        decreases |queueForNotify.Contents()|, if status == Success then 1 else 0
      {
        var more := InvokeRegisteredFunction(key);
        AllInvocationsAppend(notifyList, done, key);
        calls := calls + more;
        done := done + [key];
        DrainNext(before, support, done, queueForNotify.Contents());
        status, key := queueForNotify.DeleteQ(support);
      }
    }

    /** Drains both queues and clears the state of the keyboard. */
    method ResetWorker() returns (status: Status)
      requires Valid()
      modifies this`flags, this`support, this`toggleState
      modifies queueForRead`front, queueForRead`removed, queueForNotify`front, queueForNotify`removed
      ensures Valid() && status == Success
      ensures queueForRead.Contents() == Left(old(queueForRead.Contents()), old(support))
      ensures queueForNotify.Contents() == Left(old(queueForNotify.Contents()), old(support))
      ensures flags == NO_FLAGS && !support && toggleState == TOGGLE_STATE_VALID
    {
      hide Left, HandlesDiffer, NoneShadowed, KeyQueue.Contents;
      queueForRead.Drain(support);
      queueForNotify.Drain(support);
      flags := NO_FLAGS;
      support := false;
      toggleState := TOGGLE_STATE_VALID;
      return Success;
    }

    /** Reads the next keystroke after the notification functions have been called. `hasBuffer` is false for NULL. */
    method ReadKeyStrokeWorker(hasBuffer: bool) returns (status: Status, key: KeyData, calls: seq<Invocation>)
      requires Valid()
      modifies queueForRead`front, queueForRead`removed, queueForNotify`front, queueForNotify`removed
      ensures Valid()
      ensures !hasBuffer
              ==> && status == InvalidParameter && calls == []
                  && queueForRead.Contents() == old(queueForRead.Contents())
                  && queueForNotify.Contents() == old(queueForNotify.Contents())
      ensures hasBuffer
              ==> && calls == AllInvocations(notifyList, Delivered(old(queueForNotify.Contents()), support))
                  && queueForNotify.Contents() == Left(old(queueForNotify.Contents()), support)
                  && status == Deleted(old(queueForRead.Contents()), support).status
                  && queueForRead.Contents() == Deleted(old(queueForRead.Contents()), support).queue
                  && (status == Success ==> key == old(queueForRead.Contents())[0])
    {
      hide Delivered, Left, AllInvocations, HandlesDiffer, NoneShadowed;
      key, calls := ZERO_KEY, [];
      if !hasBuffer {
        return InvalidParameter, key, calls;
      }
      calls := TimerHandler();
      status := queueForRead.CheckQ();
      if status == Success {
        status, key := queueForRead.DeleteQ(support);
        if status == Success && !support && Partial(key) {
          status := NotReady;
        }
      }
    }

    /** Reads the next keystroke that is not partial, with the control character for a letter with Ctrl. */
    method ReadKeyStroke() returns (status: Status, key: KeyData, calls: seq<Invocation>)
      requires Valid()
      modifies queueForRead`front, queueForRead`removed, queueForNotify`front, queueForNotify`removed
      ensures Valid()
      ensures calls == AllInvocations(notifyList, Delivered(old(queueForNotify.Contents()), support))
      ensures queueForNotify.Contents() == Left(old(queueForNotify.Contents()), support)
      ensures status == SimpleReading(old(queueForRead.Contents()), support).status
      ensures queueForRead.Contents() == SimpleReading(old(queueForRead.Contents()), support).queue
      ensures status == Success ==> key == SimpleReading(old(queueForRead.Contents()), support).key
    {
      hide Delivered, Left, AllInvocations, HandlesDiffer, NoneShadowed, Whole;
      ghost var forRead, forNotify := queueForRead.Contents(), queueForNotify.Contents();
      calls := [];
      var first := true;
      while true
        invariant Valid()
        invariant SimpleReading(queueForRead.Contents(), support) == SimpleReading(forRead, support)
        invariant first ==> calls == [] && queueForNotify.Contents() == forNotify
        invariant !first ==> support && queueForNotify.Contents() == [] == Left(forNotify, support)
        invariant !first ==> calls == AllInvocations(notifyList, Delivered(forNotify, support))
        decreases |queueForRead.Contents()|
      {
        ghost var reading := queueForRead.Contents();
        var more;
        status, key, more := ReadKeyStrokeWorker(true);
        DrainNothing(forNotify, support);
        InvokeNothing(notifyList);
        WholeStep(reading);
        calls := calls + more;
        if status != Success {
          return;
        }
        if Partial(key) {
          first := false;
          continue;
        }
        key := Converted(key);
        return;
      }
    }

    /** Removes leading partial keystrokes, and signals the event if there is another one. */
    method WaitForKey() returns (signal: bool, calls: seq<Invocation>)
      requires Valid()
      modifies queueForRead`front, queueForRead`removed, queueForNotify`front, queueForNotify`removed
      ensures Valid()
      ensures calls == AllInvocations(notifyList, Delivered(old(queueForNotify.Contents()), support))
      ensures queueForNotify.Contents() == Left(old(queueForNotify.Contents()), support)
      ensures queueForRead.Contents() == Whole(old(queueForRead.Contents()))
      ensures signal <==> queueForRead.Contents() != []
    {
      hide Delivered, Left, AllInvocations, HandlesDiffer, NoneShadowed, Whole;
      ghost var forRead := queueForRead.Contents();
      calls := TimerHandler();
      ghost var forNotify := queueForNotify.Contents();
      while true
        invariant Valid() && queueForNotify.Contents() == forNotify
        invariant Whole(queueForRead.Contents()) == Whole(forRead)
        decreases |queueForRead.Contents()|
      {
        WholeStep(queueForRead.Contents());
        var status := queueForRead.CheckQ();
        if status != Success {
          return false, calls;
        }
        assert queueForRead.q[queueForRead.front] == queueForRead.Contents()[0];
        if Partial(queueForRead.q[queueForRead.front]) {
          var _, _ := queueForRead.DeleteQ(support);
          continue;
        }
        return true, calls;
      }
    }

    /** Sets the locks and the support for partial keystrokes. `state` is None for NULL. */
    method SetState(state: Option<bv8>) returns (status: Status)
      requires Valid()
      modifies this`flags, this`support, this`toggleState
      ensures Valid()
      ensures status == if state.None? then InvalidParameter
                        else if state.value & TOGGLE_STATE_VALID != TOGGLE_STATE_VALID then Unsupported else Success
      ensures status != Success ==> flags == old(flags) && support == old(support) && toggleState == old(toggleState)
      ensures status == Success
              ==> && toggleState == state.value
                  && ToggleBits(flags, support, state.value & 0xC7)
                  && flags == old(flags).(capsLock := flags.capsLock, numLock := flags.numLock,
                                          scrollLock := flags.scrollLock)
    {
      hide HandlesDiffer, NoneShadowed, KeyQueue.Valid, KeyQueue.Contents, ToggleBits;
      if state == None {
        return InvalidParameter;
      }
      var s := state.value;
      if toggleState & TOGGLE_STATE_VALID != TOGGLE_STATE_VALID || s & TOGGLE_STATE_VALID != TOGGLE_STATE_VALID {
        return Unsupported;
      }
      var scroll, num, caps, exposed := false, false, false, false;
      if s & SCROLL_LOCK == SCROLL_LOCK { scroll := true; }
      if s & NUM_LOCK == NUM_LOCK { num := true; }
      if s & CAPS_LOCK == CAPS_LOCK { caps := true; }
      if s & KEY_STATE_EXPOSED == KEY_STATE_EXPOSED { exposed := true; }
      flags := flags.(scrollLock := scroll, numLock := num, capsLock := caps);
      support := exposed;
      ToggleBitsOf(flags, support, s);
      toggleState := s;
      return Success;
    }

    /** Registers a function for a keystroke. `key` and `fn` are None for NULL, `pool` for a failed allocation. */
    method RegisterKeyNotify(key: Option<KeyData>, fn: Option<Function>, pool: Option<Handle>)
      returns (status: Status, handle: Handle)
      requires Valid()
      requires Fresh(notifyList, DoRegister(key, fn, pool))
      modifies this`notifyList
      ensures Valid()
      ensures Registration(notifyList, status, handle) == Register(old(notifyList), key, fn, pool)
    {
      hide KeyQueue.Valid, KeyQueue.Contents, HandlesDiffer, NoneShadowed;
      StepKeepsList(notifyList, DoRegister(key, fn, pool));
      if key == None || fn == None {
        return InvalidParameter, NO_HANDLE;
      }
      var i := 0;
      while i < |notifyList|
        invariant 0 <= i <= FindCover(notifyList, key.value, fn.value)
      {
        if Covers(notifyList[i].key, key.value) && notifyList[i].fn == fn.value {
          return Success, notifyList[i].handle;
        }
        i := i + 1;
      }
      if pool == None {
        return OutOfResources, NO_HANDLE;
      }
      notifyList := notifyList + [Notify(pool.value, key.value, fn.value)];
      return Success, pool.value;
    }

    method UnregisterKeyNotify(handle: Handle) returns (status: Status)
      requires Valid()
      modifies this`notifyList
      ensures Valid()
      ensures Registration(notifyList, status, handle) == Unregister(old(notifyList), handle)
    {
      hide KeyQueue.Valid, KeyQueue.Contents, HandlesDiffer, NoneShadowed;
      StepKeepsList(notifyList, DoUnregister(handle));
      if handle == NO_HANDLE {
        return InvalidParameter;
      }
      var i := 0;
      while i < |notifyList|
        invariant 0 <= i <= FindHandle(notifyList, handle)
      {
        if notifyList[i].handle == handle {
          notifyList := notifyList[..i] + notifyList[i + 1..];
          return Success;
        }
        i := i + 1;
      }
      return InvalidParameter;
    }
  }

  lemma {:induction false} DrainNothing(before: seq<KeyData>, support: bool)
    ensures Left([], support) == [] && Delivered([], support) == []
    ensures support ==> Left(before, support) == []
  {
  }

  lemma {:induction false} InvokeNothing(list: seq<Notify>)
    ensures AllInvocations(list, []) == []
  {
  }
}
