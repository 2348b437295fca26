/** The queues of keystrokes between the window thread and the readers. */
module KeyQueues {
  import opened EfiStatus
  import opened Keys
  import Queues = BoundedQueues

  const MAX_Q: nat := 256

  /** One slot stays free, so that a full queue differs from an empty one. */
  const CAPACITY: nat := MAX_Q - 1

  // ---------------------------------------------------------------- Partial keystrokes

  /** The index of the first partial keystroke, or the length if there is none. */
  function FirstPartial(keys: seq<KeyData>): (i: nat)
    ensures i <= |keys|
    ensures forall k :: 0 <= k < i ==> !Partial(keys[k])
    ensures i < |keys| ==> Partial(keys[i])
  {
    if keys == [] || Partial(keys[0]) then 0 else 1 + FirstPartial(keys[1..])
  }

  /** The index of the first keystroke that is not partial, or the length if there is none. */
  function FirstWhole(keys: seq<KeyData>): (i: nat)
    ensures i <= |keys|
    ensures forall k :: 0 <= k < i ==> Partial(keys[k])
    ensures i < |keys| ==> !Partial(keys[i])
  {
    if keys == [] || !Partial(keys[0]) then 0 else 1 + FirstWhole(keys[1..])
  }

  /** What a loop that deletes while DeleteQ succeeds leaves. Without partial key support DeleteQ takes a partial
      keystroke out and fails, which ends the loop. */
  function Left(keys: seq<KeyData>, support: bool): seq<KeyData> {
    if support || FirstPartial(keys) == |keys| then [] else keys[FirstPartial(keys) + 1..]
  }

  /** The keystrokes for which DeleteQ succeeds in such a loop. */
  function Delivered(keys: seq<KeyData>, support: bool): seq<KeyData> {
    if support then keys else keys[..FirstPartial(keys)]
  }

  function Whole(keys: seq<KeyData>): seq<KeyData> {
    keys[FirstWhole(keys)..]
  }

  /** A drained queue is empty if and only if partial keystrokes are supported, or none comes before the last one. */
  lemma {:induction false} DrainEmptiesIff(keys: seq<KeyData>, support: bool)
    ensures Left(keys, support) == [] <==> support || forall k :: 0 <= k < |keys| - 1 ==> !Partial(keys[k])
  {
    var i := FirstPartial(keys);
    if !support && i < |keys| - 1 {
      assert Partial(keys[i]);
    }
  }

  /** A drain delivers a prefix. With support that is everything; without it the drain also removes the partial
      keystroke after the prefix, and leaves the rest. */
  lemma {:induction false} DrainOutcome(keys: seq<KeyData>, support: bool)
    ensures var n := |Delivered(keys, support)|;
            && Delivered(keys, support) == keys[..n]
            && (support ==> n == |keys|)
            && (n == |keys| ==> Left(keys, support) == [])
            && (n < |keys| ==> Partial(keys[n]) && keys == keys[..n] + [keys[n]] + Left(keys, support))
  {
  }

  /** The status of a read operation, the keystroke, and what stays in the queue. */
  datatype Reading = Reading(status: Status, key: KeyData, queue: seq<KeyData>)

  /** DeleteQ takes the first keystroke; without support, a partial one is lost. */
  function Deleted(keys: seq<KeyData>, support: bool): Reading {
    if keys == [] then Reading(NotReady, ZERO_KEY, [])
    else if Partial(keys[0]) && !support then Reading(NotReady, ZERO_KEY, keys[1..])
    else Reading(Success, keys[0], keys[1..])
  }

  /** A drain of `before` has delivered `done` so far and `rest` is still to do. */
  ghost predicate Pending(before: seq<KeyData>, support: bool, done: seq<KeyData>, rest: seq<KeyData>) {
    && Delivered(before, support) == done + Delivered(rest, support)
    && Left(before, support) == Left(rest, support)
  }

  /** The same after another DeleteQ. */
  ghost predicate Draining(before: seq<KeyData>, support: bool, done: seq<KeyData>, last: Reading) {
    if last.status == Success then Pending(before, support, done + [last.key], last.queue)
    else Delivered(before, support) == done && Left(before, support) == last.queue
  }

  lemma {:induction false} DrainStart(before: seq<KeyData>, support: bool)
    ensures Draining(before, support, [], Deleted(before, support))
  {
    assert Pending(before, support, [], before);
    DrainNext(before, support, [], before);
  }

  lemma {:induction false} DrainStep(keys: seq<KeyData>, support: bool)
    ensures keys == [] || (Partial(keys[0]) && !support)
            ==> Delivered(keys, support) == [] && Left(keys, support) == keys[if keys == [] then 0 else 1..]
    ensures keys != [] && (support || !Partial(keys[0]))
            ==> && Delivered(keys, support) == [keys[0]] + Delivered(keys[1..], support)
                && Left(keys, support) == Left(keys[1..], support)
  {
  }

  lemma {:induction false} DrainNext(before: seq<KeyData>, support: bool, done: seq<KeyData>, rest: seq<KeyData>)
    requires Pending(before, support, done, rest)
    ensures Draining(before, support, done, Deleted(rest, support))
  {
    DrainStep(rest, support);
    hide Delivered, Left, Partial;
  }

  // ---------------------------------------------------------------- The ring

  /** The number of stored keystrokes. */
  function Count(front: nat, rear: nat): (n: nat)
    requires front < MAX_Q && rear < MAX_Q
    ensures n <= CAPACITY
    ensures Queues.Slot(MAX_Q, front, n) == rear
    ensures n == 0 <==> front == rear
    ensures n == CAPACITY <==> (rear + 1) % MAX_Q == front
  {
    if front <= rear then rear - front else rear + MAX_Q - front
  }

  lemma {:induction false} NextSlot(front: nat, rear: nat)
    requires front < MAX_Q && rear < MAX_Q
    ensures (front + 1) % MAX_Q == Queues.Slot(MAX_Q, front, 1)
    ensures front != rear ==> Count((front + 1) % MAX_Q, rear) == Count(front, rear) - 1
    ensures (rear + 1) % MAX_Q != front ==> Count(front, (rear + 1) % MAX_Q) == Count(front, rear) + 1
  {
  }

  lemma {:induction false} PutOne(stored: seq<KeyData>, key: KeyData)
    ensures Queues.Step(CAPACITY, stored, Queues.Put([key])).stored
         == stored + (if |stored| < CAPACITY then [key] else [])
  {
    assert [key][..1] == [key];
  }

  /** DeleteQ takes one keystroke, whatever becomes of it. */
  lemma {:induction false} TakeOne(stored: seq<KeyData>, support: bool)
    ensures var r := Queues.Step(CAPACITY, stored, Queues.Take(1));
            && r.stored == Deleted(stored, support).queue
            && r.removed == stored[..if stored == [] then 0 else 1]
  {
  }

  class KeyQueue {
    var front: nat
    var rear: nat
    const q: array<KeyData>

    /** All keystrokes that the queue has taken, and all that it has given back, since it was created. */
    ghost var accepted: seq<KeyData>
    ghost var removed: seq<KeyData>

    ghost predicate Valid()
      reads this, q
    {
      && q.Length == MAX_Q && front < MAX_Q && rear < MAX_Q
      && accepted == removed + Contents()
    }

    ghost function Contents(): seq<KeyData>
      requires q.Length == MAX_Q && front < MAX_Q && rear < MAX_Q
      reads this, q
    {
      Queues.Stored(q[..], front, Count(front, rear))
    }

    constructor ()
      ensures Valid() && fresh(q)
      ensures Contents() == [] && accepted == []
    {
      front, rear := 0, 0;
      q := new KeyData[MAX_Q](_ => ZERO_KEY);
      accepted, removed := [], [];
    }

    /** Stores a keystroke, unless the queue is full. The only slot that is written is free, so a reader may look at
        the first keystroke without the critical section. */
    method AddQ(key: KeyData) returns (status: Status)
      requires Valid()
      modifies this`rear, this`accepted, q
      ensures Valid()
      ensures status == if |old(Contents())| < CAPACITY then Success else NotReady
      ensures Contents() == old(Contents()) + (if status == Success then [key] else [])
      ensures accepted == old(accepted) + (if status == Success then [key] else [])
      ensures old(Contents()) != [] ==> q[front] == old(q[front])
    {
      hide Queues.Stored, Queues.Slot, Count;
      if (rear + 1) % MAX_Q == front {
        return NotReady;
      }
      NextSlot(front, rear);
      Queues.StoredAdd(q[..], front, Count(front, rear), key);
      q[rear] := key;
      assert q[..] == old(q[..])[rear := key];
      rear := (rear + 1) % MAX_Q;
      accepted := accepted + [key];
      assert old(Count(front, rear)) != 0 ==> old(rear) != front;
      return Success;
    }

    /** Removes the first keystroke; a partial one is lost if partial keystrokes are not supported. */
    method DeleteQ(support: bool) returns (status: Status, key: KeyData)
      requires Valid()
      modifies this`front, this`removed
      ensures Valid()
      ensures status == Deleted(old(Contents()), support).status
      ensures Contents() == Deleted(old(Contents()), support).queue
      ensures old(Contents()) != [] ==> key == Deleted(old(Contents()), support).key
      ensures removed == old(removed) + (if old(Contents()) == [] then [] else [old(Contents())[0]])
      ensures accepted == old(accepted)
    {
      hide Queues.Stored, Queues.Slot, Count;
      if front == rear {
        return NotReady, ZERO_KEY;
      }
      ghost var before := Contents();
      NextSlot(front, rear);
      Queues.StoredRemove(q[..], front, Count(front, rear));
      key := q[front];
      front := (front + 1) % MAX_Q;
      removed := removed + [key];
      assert before == [key] + Contents();
      if Partial(key) && !support {
        return NotReady, ZERO_KEY;
      }
      return Success, key;
    }

    /** Deletes while DeleteQ succeeds. */
    method Drain(support: bool)
      requires Valid()
      modifies this`front, this`removed
      ensures Valid()
      ensures Contents() == Left(old(Contents()), support)
      ensures accepted == old(accepted)
    {
      hide Delivered, Left, Queues.Stored, Pending;
      ghost var before := Contents();
      ghost var done: seq<KeyData> := [];
      DrainStart(before, support);
      var status, key := DeleteQ(support);
      while status == Success
        invariant Valid() && accepted == old(accepted)
        invariant Draining(before, support, done, Reading(status, key, Contents()))
        decreases |Contents()|, if status == Success then 1 else 0
      {
        done := done + [key];
        DrainNext(before, support, done, Contents());
        status, key := DeleteQ(support);
      }
    }

    method CheckQ() returns (status: Status)
      requires Valid()
      ensures status == if Contents() == [] then NotReady else Success
    {
      if front == rear {
        return NotReady;
      }
      return Success;
    }
  }
}
