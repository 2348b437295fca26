/** A queue of bounded size between a producer and a consumer: what a history of operations keeps, and how the stored
    items lie in a ring of slots. */
module BoundedQueues {

  // ---------------------------------------------------------------- Histories

  /** Put stores as many of the items as there is room for; Take removes up to `count` of the oldest ones. */
  datatype Op<T> = Put(items: seq<T>) | Take(count: nat)

  datatype History<T> = History(stored: seq<T>, accepted: seq<T>, removed: seq<T>)

  /** How many of `size` items are stored. */
  function Room<T>(capacity: nat, stored: seq<T>, size: nat): (n: nat)
    ensures n <= size
  {
    var free := if |stored| < capacity then capacity - |stored| else 0;
    if size <= free then size else free
  }

  /** How many of `size` items are removed. */
  function Ready<T>(stored: seq<T>, size: nat): (n: nat)
    ensures n <= |stored| && n <= size
  {
    if size <= |stored| then size else |stored|
  }

  function Step<T>(capacity: nat, stored: seq<T>, op: Op<T>): History<T> {
    match op
    case Put(items) =>
      var n := Room(capacity, stored, |items|);
      History(stored + items[..n], items[..n], [])
    case Take(count) =>
      var n := Ready(stored, count);
      History(stored[n..], [], stored[..n])
  }

  function Run<T>(capacity: nat, stored: seq<T>, ops: seq<Op<T>>): History<T>
    decreases |ops|
  {
    if ops == [] then History(stored, [], [])
    else
      var first := Step(capacity, stored, ops[0]);
      var rest := Run(capacity, first.stored, ops[1..]);
      History(rest.stored, first.accepted + rest.accepted, first.removed + rest.removed)
  }

  lemma {:induction false} Chain<T>(stored: seq<T>, first: History<T>, rest: History<T>)
    requires first.removed + first.stored == stored + first.accepted
    requires rest.removed + rest.stored == first.stored + rest.accepted
    ensures (first.removed + rest.removed) + rest.stored == stored + (first.accepted + rest.accepted)
  {
    calc {
      (first.removed + rest.removed) + rest.stored;
      first.removed + (rest.removed + rest.stored);
      first.removed + (first.stored + rest.accepted);
      (first.removed + first.stored) + rest.accepted;
      stored + (first.accepted + rest.accepted);
    }
  }

  lemma {:induction false} StepHistory<T>(capacity: nat, stored: seq<T>, op: Op<T>)
    requires |stored| <= capacity
    ensures var r := Step(capacity, stored, op);
            r.removed + r.stored == stored + r.accepted && |r.stored| <= capacity
  {
  }

  /** Put stores everything or leaves a full queue, and Take delivers everything that is asked for or empties it. */
  lemma {:induction false} StepIsGreedy<T>(capacity: nat, stored: seq<T>, op: Op<T>)
    requires |stored| <= capacity
    ensures var r := Step(capacity, stored, op);
            match op
            case Put(items) =>
              && r.removed == [] && r.accepted <= items && r.stored == stored + r.accepted
              && (r.accepted == items || |r.stored| == capacity)
            case Take(count) =>
              && r.accepted == [] && |r.removed| <= count && stored == r.removed + r.stored
              && (|r.removed| == count || r.stored == [])
  {
  }

  /** Under any interleaving, the removed items and the stored ones are the ones that were accepted, in order. */
  lemma {:induction false} RunHistory<T>(capacity: nat, stored: seq<T>, ops: seq<Op<T>>)
    requires |stored| <= capacity
    ensures var r := Run(capacity, stored, ops);
            r.removed + r.stored == stored + r.accepted && |r.stored| <= capacity
    decreases |ops|
  {
    hide Step;
    if ops != [] {
      var first := Step(capacity, stored, ops[0]);
      StepHistory(capacity, stored, ops[0]);
      RunHistory(capacity, first.stored, ops[1..]);
      Chain(stored, first, Run(capacity, first.stored, ops[1..]));
    }
  }

  /** From an empty queue, all removed items are a prefix of all accepted ones, and the rest is stored. */
  lemma {:induction false} RemovedArePrefix<T>(capacity: nat, ops: seq<Op<T>>)
    ensures var r := Run(capacity, [], ops);
            r.removed <= r.accepted && r.stored == r.accepted[|r.removed|..]
  {
    RunHistory(capacity, [], ops);
    var r := Run(capacity, [], ops);
    assert r.removed + r.stored == r.accepted;
  }

  predicate OnlyPuts<T>(ops: seq<Op<T>>) {
    forall k :: 0 <= k < |ops| ==> ops[k].Put?
  }

  /** The producer leaves every stored item where it is. */
  lemma {:induction false} PutsKeepStored<T>(capacity: nat, stored: seq<T>, ops: seq<Op<T>>)
    requires OnlyPuts(ops)
    ensures stored <= Run(capacity, stored, ops).stored
    ensures Run(capacity, stored, ops).removed == []
    decreases |ops|
  {
    if ops != [] {
      assert ops[0].Put?;
      PutsKeepStored(capacity, Step(capacity, stored, ops[0]).stored, ops[1..]);
    }
  }

  // ---------------------------------------------------------------- The ring

  /** The slot that is `i` places after `first`. */
  function Slot(slots: nat, first: nat, i: nat): (slot: nat)
    requires first < slots && i <= slots
    ensures slot < slots
  {
    if first + i < slots then first + i else first + i - slots
  }

  /** The `count` items from `first` on. */
  function Stored<T>(data: seq<T>, first: nat, count: nat): (items: seq<T>)
    requires first < |data| && count <= |data|
    ensures |items| == count
    ensures forall i :: 0 <= i < count ==> items[i] == data[Slot(|data|, first, i)]
  {
    if first + count <= |data| then data[first..first + count] else data[first..] + data[..first + count - |data|]
  }

  /** Writing the slot behind the stored items appends. */
  lemma {:induction false} StoredAdd<T>(data: seq<T>, first: nat, count: nat, item: T)
    requires first < |data| && count < |data|
    ensures Stored(data[Slot(|data|, first, count) := item], first, count + 1) == Stored(data, first, count) + [item]
  {
    forall i | 0 <= i <= count
      ensures Stored(data[Slot(|data|, first, count) := item], first, count + 1)[i]
           == (Stored(data, first, count) + [item])[i]
    {
      assert Slot(|data|, first, i) == Slot(|data|, first, count) <==> i == count;
    }
  }

  /** Moving on the first slot removes the oldest item. */
  lemma {:induction false} StoredRemove<T>(data: seq<T>, first: nat, count: nat)
    requires first < |data| && 0 < count <= |data|
    ensures Stored(data, first, count)[0] == data[first]
    ensures Stored(data, Slot(|data|, first, 1), count - 1) == Stored(data, first, count)[1..]
  {
    forall i | 0 <= i < count - 1
      ensures Stored(data, Slot(|data|, first, 1), count - 1)[i] == Stored(data, first, count)[1..][i]
    {
      assert Slot(|data|, Slot(|data|, first, 1), i) == Slot(|data|, first, i + 1);
    }
  }
}
