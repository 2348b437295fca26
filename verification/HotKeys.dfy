/** Registered key notifications: which keystrokes an entry covers, and what registering and unregistering keep. */
module HotKeys {
  import opened Wrappers
  import opened EfiStatus
  import opened Keys

  type Handle = nat

  /** The handle for NULL. */
  const NO_HANDLE: Handle := 0

  type Function = nat

  datatype Notify = Notify(handle: Handle, key: KeyData, fn: Function)

  /** A call of a notification function. */
  datatype Invocation = Invocation(fn: Function, key: KeyData)

  /** A registered keystroke covers another one; zero as its shift or toggle state stands for any state. */
  predicate Covers(registered: KeyData, input: KeyData) {
    && registered.scanCode == input.scanCode
    && registered.unicodeChar == input.unicodeChar
    && (registered.shiftState == 0 || registered.shiftState == input.shiftState)
    && (registered.toggleState == 0 || registered.toggleState == input.toggleState)
  }

  lemma {:induction false} CoversTransitive(a: KeyData, b: KeyData, c: KeyData)
    requires Covers(a, b) && Covers(b, c)
    ensures Covers(a, c)
  {
  }

  /** A registered key covers other states only where it has zero: with both states given it covers itself, with the
      toggle state zero every toggle state, and so on. */
  lemma {:induction false} CoversExactly(a: KeyData, b: KeyData)
    ensures a.shiftState != 0 && a.toggleState != 0 ==> (Covers(a, b) <==> b == a)
    ensures a.shiftState != 0 && a.toggleState == 0 ==> (Covers(a, b) <==> b == a.(toggleState := b.toggleState))
    ensures a.shiftState == 0 && a.toggleState != 0 ==> (Covers(a, b) <==> b == a.(shiftState := b.shiftState))
    ensures a.shiftState == 0 && a.toggleState == 0
            ==> (Covers(a, b) <==> b.scanCode == a.scanCode && b.unicodeChar == a.unicodeChar)
  {
  }

  /** The status of a registration, and that only a success without a reusable entry adds one. */
  lemma {:induction false} RegistrationStatus(
    list: seq<Notify>, key: Option<KeyData>, fn: Option<Function>, pool: Option<Handle>)
    ensures var r := Register(list, key, fn, pool);
            && (r.status == InvalidParameter <==> key == None || fn == None)
            && (r.status == OutOfResources <==>
                  && key.Some? && fn.Some? && pool == None
                  && forall i :: 0 <= i < |list| && list[i].fn == fn.value ==> !Covers(list[i].key, key.value))
            && (r.status in {Success, InvalidParameter, OutOfResources})
            && (r.status != Success ==> r.list == list)
            && (r.status == Success ==>
                  exists i :: 0 <= i < |r.list| && r.list[i].handle == r.handle && r.list[i].fn == fn.value
                              && Covers(r.list[i].key, key.value) && r.list[..i] == list[..i]
                              && (r.list == list || (i == |list| && r.list[i].key == key.value)))
  {
    var r := Register(list, key, fn, pool);
    if key.Some? && fn.Some? {
      var i := FindCover(list, key.value, fn.value);
      hide FindCover;
      if r.status == Success {
        assert r.list[i].handle == r.handle && r.list[..i] == list[..i];
      }
    }
  }

  /** The index of the first entry with this function that covers the key, or the length if there is none. */
  function FindCover(list: seq<Notify>, key: KeyData, fn: Function): (i: nat)
    ensures i <= |list|
    ensures forall k :: 0 <= k < i ==> !(Covers(list[k].key, key) && list[k].fn == fn)
    ensures i < |list| ==> Covers(list[i].key, key) && list[i].fn == fn
  {
    if list == [] || (Covers(list[0].key, key) && list[0].fn == fn) then 0
    else 1 + FindCover(list[1..], key, fn)
  }

  function FindHandle(list: seq<Notify>, handle: Handle): (i: nat)
    ensures i <= |list|
    ensures forall k :: 0 <= k < i ==> list[k].handle != handle
    ensures i < |list| ==> list[i].handle == handle
  {
    if list == [] || list[0].handle == handle then 0 else 1 + FindHandle(list[1..], handle)
  }

  datatype Registration = Registration(list: seq<Notify>, status: Status, handle: Handle)

  /** `key` and `fn` are None for NULL, `pool` for a failed allocation. */
  function Register(list: seq<Notify>, key: Option<KeyData>, fn: Option<Function>, pool: Option<Handle>): Registration {
    if key.None? || fn.None? then Registration(list, InvalidParameter, NO_HANDLE)
    else
      var i := FindCover(list, key.value, fn.value);
      if i < |list| then Registration(list, Success, list[i].handle)
      else if pool.None? then Registration(list, OutOfResources, NO_HANDLE)
      else Registration(list + [Notify(pool.value, key.value, fn.value)], Success, pool.value)
  }

  function Unregister(list: seq<Notify>, handle: Handle): Registration {
    var i := FindHandle(list, handle);
    if handle == NO_HANDLE || i == |list| then Registration(list, InvalidParameter, handle)
    else Registration(list[..i] + list[i + 1..], Success, handle)
  }

  /** The calls for a keystroke, in the order of the list. */
  function Invocations(list: seq<Notify>, key: KeyData): seq<Invocation> {
    if list == [] then []
    else (if Covers(list[0].key, key) then [Invocation(list[0].fn, key)] else []) + Invocations(list[1..], key)
  }

  /** The calls for several keystrokes. */
  function AllInvocations(list: seq<Notify>, keys: seq<KeyData>): seq<Invocation> {
    if keys == [] then [] else Invocations(list, keys[0]) + AllInvocations(list, keys[1..])
  }

  lemma {:induction false} InvocationsAppend(list: seq<Notify>, more: seq<Notify>, key: KeyData)
    ensures Invocations(list + more, key) == Invocations(list, key) + Invocations(more, key)
  {
    if list == [] {
      assert list + more == more;
    } else {
      assert (list + more)[1..] == list[1..] + more;
      InvocationsAppend(list[1..], more, key);
    }
  }

  lemma {:induction false} AllInvocationsAppend(list: seq<Notify>, keys: seq<KeyData>, key: KeyData)
    ensures AllInvocations(list, keys + [key]) == AllInvocations(list, keys) + Invocations(list, key)
  {
    if keys == [] {
      assert AllInvocations(list, [key]) == Invocations(list, key) + AllInvocations(list, []);
    } else {
      assert (keys + [key])[1..] == keys[1..] + [key];
      AllInvocationsAppend(list, keys[1..], key);
    }
  }

  /** A function is called for a keystroke if and only if an entry with that function covers it. */
  lemma {:induction false} InvokedIff(list: seq<Notify>, key: KeyData, fn: Function)
    ensures Invocation(fn, key) in Invocations(list, key)
       <==> exists i :: 0 <= i < |list| && Covers(list[i].key, key) && list[i].fn == fn
    ensures forall call :: call in Invocations(list, key) ==> call.key == key
  {
    if list != [] {
      InvokedIff(list[1..], key, fn);
      if Invocation(fn, key) in Invocations(list[1..], key) {
        var j :| 0 <= j < |list[1..]| && Covers(list[1..][j].key, key) && list[1..][j].fn == fn;
        assert list[1 + j] == list[1..][j];
      }
      if i :| 0 <= i < |list| && Covers(list[i].key, key) && list[i].fn == fn {
        assert i > 0 ==> list[1..][i - 1] == list[i];
      }
    }
  }

  // ---------------------------------------------------------------- Runs

  datatype Op =
    | DoRegister(key: Option<KeyData>, fn: Option<Function>, pool: Option<Handle>)
    | DoUnregister(handle: Handle)

  function Apply(list: seq<Notify>, op: Op): seq<Notify> {
    match op
    case DoRegister(key, fn, pool) => Register(list, key, fn, pool).list
    case DoUnregister(handle) => Unregister(list, handle).list
  }

  function RunAll(list: seq<Notify>, ops: seq<Op>): seq<Notify>
    decreases |ops|
  {
    if ops == [] then list else RunAll(Apply(list, ops[0]), ops[1..])
  }

  predicate Contains(list: seq<Notify>, handle: Handle) {
    FindHandle(list, handle) < |list|
  }

  lemma {:induction false} ContainsIff(list: seq<Notify>, handle: Handle)
    ensures Contains(list, handle) <==> exists i :: 0 <= i < |list| && list[i].handle == handle
  {
    if Contains(list, handle) {
      assert list[FindHandle(list, handle)].handle == handle;
    }
  }

  /** The allocator returns nothing that is still in use. */
  predicate Fresh(list: seq<Notify>, op: Op) {
    op.DoRegister? && op.pool.Some? ==> op.pool.value != NO_HANDLE && !Contains(list, op.pool.value)
  }

  predicate AllFresh(list: seq<Notify>, ops: seq<Op>)
    decreases |ops|
  {
    ops == [] || (Fresh(list, ops[0]) && AllFresh(Apply(list, ops[0]), ops[1..]))
  }

  ghost predicate HandlesDiffer(list: seq<Notify>) {
    && (forall i :: 0 <= i < |list| ==> list[i].handle != NO_HANDLE)
    && (forall i, j :: 0 <= i < j < |list| ==> list[i].handle != list[j].handle)
  }

  /** No entry covers a later one with the same function. */
  ghost predicate NoneShadowed(list: seq<Notify>) {
    forall i, j :: 0 <= i < j < |list| && list[i].fn == list[j].fn ==> !Covers(list[i].key, list[j].key)
  }

  lemma {:induction false} StepKeepsList(list: seq<Notify>, op: Op)
    requires HandlesDiffer(list) && NoneShadowed(list) && Fresh(list, op)
    ensures HandlesDiffer(Apply(list, op)) && NoneShadowed(Apply(list, op))
  {
    match op
    case DoRegister(key, fn, pool) => {
      if pool.Some? {
        ContainsIff(list, pool.value);
      }
    }
    case DoUnregister(handle) => {
    }
  }

  /** In every list that registering and unregistering reach, handles differ and no entry covers a later one with
      the same function. */
  lemma {:induction false} RunKeepsList(list: seq<Notify>, ops: seq<Op>)
    requires HandlesDiffer(list) && NoneShadowed(list) && AllFresh(list, ops)
    ensures HandlesDiffer(RunAll(list, ops)) && NoneShadowed(RunAll(list, ops))
    decreases |ops|
  {
    if ops != [] {
      StepKeepsList(list, ops[0]);
      RunKeepsList(Apply(list, ops[0]), ops[1..]);
    }
  }

  predicate Unregisters(ops: seq<Op>, handle: Handle) {
    DoUnregister(handle) in ops
  }

  lemma {:induction false} StepKeepsEntry(list: seq<Notify>, op: Op, entry: Notify)
    requires entry in list && op != DoUnregister(entry.handle)
    ensures entry in Apply(list, op)
  {
    if op.DoUnregister? {
      var k := FindHandle(list, op.handle);
      var i :| 0 <= i < |list| && list[i] == entry;
      if k < |list| && op.handle != NO_HANDLE {
        var rest := Apply(list, op);
        assert if i < k then rest[i] == entry else rest[i - 1] == entry;
      }
    }
  }

  lemma {:induction false} RunKeepsEntry(list: seq<Notify>, ops: seq<Op>, entry: Notify)
    requires entry in list && !Unregisters(ops, entry.handle)
    ensures entry in RunAll(list, ops)
    decreases |ops|
  {
    if ops != [] {
      StepKeepsEntry(list, ops[0], entry);
      RunKeepsEntry(Apply(list, ops[0]), ops[1..], entry);
    }
  }

  /** After a successful registration, and until its handle is unregistered, every keystroke that the registered key
      covers calls the function, also when an entry for more keystrokes was there before. */
  lemma {:induction false} RegistrationCovers(
    list: seq<Notify>, key: KeyData, fn: Function, pool: Option<Handle>, ops: seq<Op>, input: KeyData)
    requires var r := Register(list, Some(key), Some(fn), pool);
             r.status == Success && !Unregisters(ops, r.handle)
    requires Covers(key, input)
    ensures Invocation(fn, input)
         in Invocations(RunAll(Register(list, Some(key), Some(fn), pool).list, ops), input)
  {
    var r := Register(list, Some(key), Some(fn), pool);
    var i := FindCover(list, key, fn);
    var entry := r.list[i];
    CoversTransitive(entry.key, key, input);
    RunKeepsEntry(r.list, ops, entry);
    InvokedIff(RunAll(r.list, ops), input, fn);
  }

  /** Unregistering takes out the one entry of the handle, so the handle is invalid afterwards. */
  lemma {:induction false} UnregisterIsExact(list: seq<Notify>, handle: Handle)
    requires HandlesDiffer(list)
    ensures var r := Unregister(list, handle);
            && (r.status == Success <==> Contains(list, handle))
            && (r.status != Success ==> r.list == list)
            && (forall n :: n in r.list <==> n in list && n.handle != handle)
            && Unregister(r.list, handle).status == InvalidParameter
  {
    var i := FindHandle(list, handle);
    var r := Unregister(list, handle);
    ContainsIff(list, handle);
    ContainsIff(r.list, handle);
    forall n | n in list && n.handle != handle ensures n in r.list {
      StepKeepsEntry(list, DoUnregister(handle), n);
    }
    if i < |list| {
      forall n | n in r.list ensures n in list && n.handle != handle {
        var k :| 0 <= k < |r.list| && r.list[k] == n;
        assert n == list[if k < i then k else k + 1];
      }
    }
  }

  // ---------------------------------------------------------------- Calls of one function

  /** Some keystroke is covered by both. */
  predicate Meets(a: KeyData, b: KeyData) {
    && a.scanCode == b.scanCode
    && a.unicodeChar == b.unicodeChar
    && (a.shiftState == 0 || b.shiftState == 0 || a.shiftState == b.shiftState)
    && (a.toggleState == 0 || b.toggleState == 0 || a.toggleState == b.toggleState)
  }

  lemma {:induction false} MeetsIff(a: KeyData, b: KeyData)
    ensures Meets(a, b) <==> exists k :: Covers(a, k) && Covers(b, k)
  {
    if Meets(a, b) {
      var k := a.(shiftState := if a.shiftState == 0 then b.shiftState else a.shiftState,
                  toggleState := if a.toggleState == 0 then b.toggleState else a.toggleState);
      assert Covers(a, k) && Covers(b, k);
    }
  }

  /** No two entries of one function meet. */
  ghost predicate NoneMeet(list: seq<Notify>) {
    forall i, j :: 0 <= i < j < |list| && list[i].fn == list[j].fn ==> !Meets(list[i].key, list[j].key)
  }

  /** How often a function is called for a keystroke. */
  function TimesCalled(list: seq<Notify>, key: KeyData, fn: Function): nat {
    multiset(Invocations(list, key))[Invocation(fn, key)]
  }

  lemma {:induction false} TimesCalledStep(list: seq<Notify>, key: KeyData, fn: Function)
    requires list != []
    ensures TimesCalled(list, key, fn)
         == TimesCalled(list[1..], key, fn) + if Covers(list[0].key, key) && list[0].fn == fn then 1 else 0
  {
    var first := if Covers(list[0].key, key) then [Invocation(list[0].fn, key)] else [];
    assert Invocations(list, key) == first + Invocations(list[1..], key);
  }

  lemma {:induction false} NotCalled(list: seq<Notify>, key: KeyData, fn: Function)
    ensures TimesCalled(list, key, fn) == 0
       <==> forall i :: 0 <= i < |list| && list[i].fn == fn ==> !Covers(list[i].key, key)
  {
    InvokedIff(list, key, fn);
  }

  lemma {:induction false} CalledAtMostOnce(list: seq<Notify>, key: KeyData, fn: Function)
    requires NoneMeet(list)
    ensures TimesCalled(list, key, fn) <= 1
  {
    hide TimesCalled;
    NotCalled(list, key, fn);
    if list != [] {
      TimesCalledStep(list, key, fn);
      CalledAtMostOnce(list[1..], key, fn);
      if Covers(list[0].key, key) && list[0].fn == fn {
        NotCalled(list[1..], key, fn);
        forall i | 0 <= i < |list[1..]| && list[1..][i].fn == fn ensures !Covers(list[1..][i].key, key) {
          assert !Meets(list[0].key, list[i + 1].key);
          MeetsIff(list[0].key, list[i + 1].key);
        }
      }
    }
  }

  lemma {:induction false} CalledTwiceBy(list: seq<Notify>, key: KeyData, fn: Function, i: nat, j: nat)
    requires i < j < |list| && list[i].fn == list[j].fn == fn
    requires Covers(list[i].key, key) && Covers(list[j].key, key)
    ensures TimesCalled(list, key, fn) >= 2
  {
    hide TimesCalled;
    TimesCalledStep(list, key, fn);
    if i > 0 {
      CalledTwiceBy(list[1..], key, fn, i - 1, j - 1);
    } else {
      assert list[1..][j - 1] == list[j];
      NotCalled(list[1..], key, fn);
    }
  }

  /** No keystroke calls a function twice if and only if no two entries of one function meet. */
  lemma {:induction false} CalledOnceIff(list: seq<Notify>)
    ensures NoneMeet(list) <==> forall key, fn :: TimesCalled(list, key, fn) <= 1
  {
    if NoneMeet(list) {
      forall key, fn ensures TimesCalled(list, key, fn) <= 1 {
        CalledAtMostOnce(list, key, fn);
      }
    } else {
      var i, j :| 0 <= i < j < |list| && list[i].fn == list[j].fn && Meets(list[i].key, list[j].key);
      MeetsIff(list[i].key, list[j].key);
      var k :| Covers(list[i].key, k) && Covers(list[j].key, k);
      CalledTwiceBy(list, k, list[i].fn, i, j);
    }
  }

  /** A registration keeps entries of one function apart: it reuses an entry, fails, or the new key meets none. */
  predicate StaysApart(list: seq<Notify>, op: Op) {
    op.DoRegister? && op.key.Some? && op.fn.Some? && op.pool.Some?
    ==> || FindCover(list, op.key.value, op.fn.value) < |list|
        || forall i :: 0 <= i < |list| && list[i].fn == op.fn.value ==> !Meets(list[i].key, op.key.value)
  }

  lemma {:induction false} StepStaysApartIff(list: seq<Notify>, op: Op)
    requires NoneMeet(list)
    ensures NoneMeet(Apply(list, op)) <==> StaysApart(list, op)
  {
    if op.DoRegister? && Apply(list, op) != list {
      var all := Apply(list, op);
      var n := |list|;
      assert all[..n] == list;
      assert all[n] == Notify(op.pool.value, op.key.value, op.fn.value);
      if NoneMeet(all) {
        forall i | 0 <= i < n && list[i].fn == op.fn.value ensures !Meets(list[i].key, op.key.value) {
          assert all[i] == list[i];
        }
      }
    }
  }

  ghost predicate AlwaysNoneMeet(list: seq<Notify>, ops: seq<Op>)
    decreases |ops|
  {
    NoneMeet(list) && (ops == [] || AlwaysNoneMeet(Apply(list, ops[0]), ops[1..]))
  }

  ghost predicate AllStayApart(list: seq<Notify>, ops: seq<Op>)
    decreases |ops|
  {
    ops == [] || (StaysApart(list, ops[0]) && AllStayApart(Apply(list, ops[0]), ops[1..]))
  }

  /** From a list in which no entries of one function meet, no keystroke ever calls a function twice during a run of
      registrations if and only if each of them reuses an entry, fails, or meets no entry of its function. */
  lemma {:induction false} RunCallsOnceIff(list: seq<Notify>, ops: seq<Op>)
    requires NoneMeet(list)
    ensures AlwaysNoneMeet(list, ops) <==> AllStayApart(list, ops)
    ensures AllStayApart(list, ops) ==> forall key, fn :: TimesCalled(RunAll(list, ops), key, fn) <= 1
    decreases |ops|
  {
    hide StaysApart, Apply, TimesCalled, NoneMeet;
    if ops == [] {
      CalledOnceIff(list);
    } else {
      StepStaysApartIff(list, ops[0]);
      if NoneMeet(Apply(list, ops[0])) {
        RunCallsOnceIff(Apply(list, ops[0]), ops[1..]);
      }
    }
  }

  /** An entry for fewer keystrokes does not stop a later registration for more, and then a keystroke of both calls
      the function twice. */
  lemma {:induction false} CalledTwice(key: KeyData, fn: Function, first: Handle, second: Handle)
    requires key.shiftState != 0
    ensures var narrow := Register([], Some(key), Some(fn), Some(first));
            var wide := Register(narrow.list, Some(key.(shiftState := 0)), Some(fn), Some(second));
            Invocations(wide.list, key) == [Invocation(fn, key), Invocation(fn, key)]
  {
    var wider := key.(shiftState := 0);
    var a := Notify(first, key, fn);
    var b := Notify(second, wider, fn);
    var narrow := Register([], Some(key), Some(fn), Some(first));
    assert narrow.list == [a];
    assert FindCover([a], wider, fn) == 1;
    var wide := Register(narrow.list, Some(wider), Some(fn), Some(second));
    assert wide.list == [a, b];
    assert [a, b][1..] == [b] && [b][1..] == [];
    assert Invocations([b], key) == [Invocation(fn, key)];
  }
}
