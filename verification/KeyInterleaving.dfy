/** The loops of the readers while the window thread adds keystrokes between any two of their queue operations. */
module KeyInterleaving {
  import opened EfiStatus
  import opened Keys
  import opened KeyQueues
  import Queues = BoundedQueues
  import KeyInput

  /** What the window thread makes of a queue by adding keystrokes; a full queue loses them. */
  datatype Added = Added(queue: seq<KeyData>, accepted: seq<KeyData>)

  function AddAll(queue: seq<KeyData>, keys: seq<KeyData>): (r: Added)
    ensures r.queue == queue + r.accepted
    ensures |queue| <= CAPACITY ==> |r.queue| <= CAPACITY
    ensures |r.accepted| <= |keys| && (keys == [] ==> r.queue == queue)
    decreases |keys|
  {
    if keys == [] then Added(queue, [])
    else
      var first := Queues.Step(CAPACITY, queue, Queues.Put([keys[0]]));
      var rest := AddAll(first.stored, keys[1..]);
      assert first.stored == queue + first.accepted;
      Added(rest.queue, first.accepted + rest.accepted)
  }

  // ---------------------------------------------------------------- Drains

  /** A drain so far: the keystrokes that were delivered, the partial one that ended it, what is in the queue, what the
      window thread has added, and whether the drain is over. */
  datatype Drain = Drain(
    delivered: seq<KeyData>, lost: seq<KeyData>, queue: seq<KeyData>, accepted: seq<KeyData>, over: bool)

  /** A drain with `adds[i]` added before its deletion number `i`, as far as `adds` goes. */
  function DrainWith(queue: seq<KeyData>, support: bool, adds: seq<seq<KeyData>>): Drain
    decreases |adds|
  {
    if adds == [] then Drain([], [], queue, [], false)
    else
      var added := AddAll(queue, adds[0]);
      var r := Deleted(added.queue, support);
      if r.status != Success then
        Drain([], if added.queue == [] then [] else [added.queue[0]], r.queue, added.accepted, true)
      else
        var rest := DrainWith(r.queue, support, adds[1..]);
        rest.(delivered := [r.key] + rest.delivered, accepted := added.accepted + rest.accepted)
  }

  lemma {:induction false} ChainDrain(
    queue: seq<KeyData>, key: KeyData, first: seq<KeyData>, tail: seq<KeyData>, rest: Drain)
    requires queue + first == [key] + tail
    requires rest.delivered + rest.lost + rest.queue == tail + rest.accepted
    ensures ([key] + rest.delivered) + rest.lost + rest.queue == queue + (first + rest.accepted)
  {
    calc {
      ([key] + rest.delivered) + rest.lost + rest.queue;
      [key] + (rest.delivered + rest.lost + rest.queue);
      [key] + (tail + rest.accepted);
      ([key] + tail) + rest.accepted;
      (queue + first) + rest.accepted;
      queue + (first + rest.accepted);
    }
  }

  /** A drain delivers a prefix of what was stored or added. It ends when the queue is empty, or when it takes out a
      partial keystroke that is not supported, which is not delivered; everything behind it stays. */
  lemma {:induction false} DrainDeliversPrefix(queue: seq<KeyData>, support: bool, adds: seq<seq<KeyData>>)
    ensures var r := DrainWith(queue, support, adds);
            && r.delivered + r.lost + r.queue == queue + r.accepted
            && (!support ==> forall k :: 0 <= k < |r.delivered| ==> !Partial(r.delivered[k]))
            && (r.lost != [] ==> !support && r.over && |r.lost| == 1 && Partial(r.lost[0]))
            && (r.over && r.lost == [] ==> r.queue == [])
    decreases |adds|
  {
    if adds != [] {
      var added := AddAll(queue, adds[0]);
      var r := Deleted(added.queue, support);
      if r.status == Success {
        DrainDeliversPrefix(r.queue, support, adds[1..]);
        hide AddAll, DrainWith;
        ChainDrain(queue, r.key, added.accepted, r.queue, DrainWith(r.queue, support, adds[1..]));
      }
    }
  }

  predicate Nothing(adds: seq<seq<KeyData>>) {
    forall i :: 0 <= i < |adds| ==> adds[i] == []
  }

  /** Without additions the drain is the one that the methods are proved against. */
  lemma {:induction false} DrainUndisturbed(queue: seq<KeyData>, support: bool, adds: seq<seq<KeyData>>)
    requires Nothing(adds) && |adds| > |queue|
    ensures var r := DrainWith(queue, support, adds);
            r.over && r.delivered == Delivered(queue, support) && r.queue == Left(queue, support)
    decreases |adds|
  {
    DrainStep(queue, support);
    var r := Deleted(queue, support);
    if r.status == Success {
      DrainUndisturbed(r.queue, support, adds[1..]);
    }
    hide Delivered, Left, AddAll;
  }

  // ---------------------------------------------------------------- ReadKeyStroke

  /** What the window thread adds in one round of ReadKeyStroke: before CheckQ, and between CheckQ and DeleteQ. */
  datatype Round = Round(before: seq<KeyData>, between: seq<KeyData>)

  /** ReadKeyStroke so far: its status or NotReady while it runs, its keystroke, the keystrokes that it has taken, what
      is in the queue, what the window thread has added, and whether it has returned. */
  datatype Read = Read(
    status: Status, key: KeyData, taken: seq<KeyData>, queue: seq<KeyData>, accepted: seq<KeyData>, over: bool)

  /** ReadKeyStroke as far as `rounds` goes. */
  function ReadWith(queue: seq<KeyData>, support: bool, rounds: seq<Round>): Read
    decreases |rounds|
  {
    if rounds == [] then Read(NotReady, ZERO_KEY, [], queue, [], false)
    else
      var before := AddAll(queue, rounds[0].before);
      if before.queue == [] then Read(NotReady, ZERO_KEY, [], [], before.accepted, true)
      else
        var between := AddAll(before.queue, rounds[0].between);
        var accepted, r := before.accepted + between.accepted, Deleted(between.queue, support);
        var taken := [between.queue[0]];
        if r.status != Success then Read(r.status, ZERO_KEY, taken, r.queue, accepted, true)
        else if !Partial(r.key) then Read(Success, Converted(r.key), taken, r.queue, accepted, true)
        else
          var rest := ReadWith(r.queue, support, rounds[1..]);
          rest.(taken := taken + rest.taken, accepted := accepted + rest.accepted)
  }

  lemma {:induction false} ChainRead(
    queue: seq<KeyData>, key: KeyData, first: seq<KeyData>, tail: seq<KeyData>, rest: Read)
    requires queue + first == [key] + tail
    requires rest.taken + rest.queue == tail + rest.accepted
    ensures ([key] + rest.taken) + rest.queue == queue + (first + rest.accepted)
  {
    calc {
      ([key] + rest.taken) + rest.queue;
      [key] + (rest.taken + rest.queue);
      [key] + (tail + rest.accepted);
      ([key] + tail) + rest.accepted;
      (queue + first) + rest.accepted;
      queue + (first + rest.accepted);
    }
  }

  /** All keystrokes but the last one are partial, and the last one is if and only if `partial`. */
  predicate PartialUpTo(keys: seq<KeyData>, partial: bool) {
    forall k :: 0 <= k < |keys| ==> (Partial(keys[k]) <==> k < |keys| - 1 || partial)
  }

  /** Whatever the window thread adds in between: ReadKeyStroke takes the first keystrokes of those that were stored or
      added, in order. With success it returns the first of them that is not partial, and has taken just the ones up to
      it. Otherwise it has taken partial ones only; with support it returns NOT_READY only when the queue is empty. */
  lemma {:induction false} ReadTakesFirstWhole(queue: seq<KeyData>, support: bool, rounds: seq<Round>)
    ensures var r := ReadWith(queue, support, rounds);
            && r.taken + r.queue == queue + r.accepted
            && PartialUpTo(r.taken, r.status != Success)
            && (r.status == Success ==> r.over && r.taken != [] && r.key == Converted(r.taken[|r.taken| - 1]))
            && (r.over && r.status != Success ==> r.status == NotReady && (support ==> r.queue == []))
    decreases |rounds|
  {
    hide AddAll;
    if rounds != [] {
      var before := AddAll(queue, rounds[0].before);
      if before.queue != [] {
        var between := AddAll(before.queue, rounds[0].between);
        var accepted, r := before.accepted + between.accepted, Deleted(between.queue, support);
        assert queue + accepted == between.queue == [between.queue[0]] + r.queue;
        if r.status == Success && Partial(r.key) {
          ReadTakesFirstWhole(r.queue, support, rounds[1..]);
          hide ReadWith;
          ChainRead(queue, r.key, accepted, r.queue, ReadWith(r.queue, support, rounds[1..]));
        }
      }
    }
  }

  /** The first whole keystroke of all that were stored or added is the one that a successful read returns. */
  lemma {:induction false} ReadReturnsFirstWhole(queue: seq<KeyData>, support: bool, rounds: seq<Round>)
    ensures var r := ReadWith(queue, support, rounds);
            var all := queue + r.accepted;
            r.status == Success
            ==> && FirstWhole(all) < |all|
                && r.key == Converted(all[FirstWhole(all)]) && r.queue == all[FirstWhole(all) + 1..]
  {
    ReadTakesFirstWhole(queue, support, rounds);
    hide ReadWith;
    var r := ReadWith(queue, support, rounds);
    var all := queue + r.accepted;
    if r.status == Success {
      var n := |r.taken| - 1;
      assert all == r.taken + r.queue && all[n] == r.taken[n];
      assert forall k :: 0 <= k < n ==> all[k] == r.taken[k];
      assert FirstWhole(all) == n;
    }
  }

  predicate Quiet(rounds: seq<Round>) {
    forall i :: 0 <= i < |rounds| ==> rounds[i] == Round([], [])
  }

  /** Without additions it is the read that the method is proved against. */
  lemma {:induction false} ReadUndisturbed(queue: seq<KeyData>, support: bool, rounds: seq<Round>)
    requires Quiet(rounds) && |rounds| > |queue|
    ensures var r, reading := ReadWith(queue, support, rounds), KeyInput.SimpleReading(queue, support);
            && r.over && r.status == reading.status && r.queue == reading.queue
            && (r.status == Success ==> r.key == reading.key)
    decreases |rounds|
  {
    KeyInput.WholeStep(queue);
    var r := Deleted(queue, support);
    if r.status == Success && Partial(r.key) {
      ReadUndisturbed(r.queue, support, rounds[1..]);
    }
    hide AddAll;
  }
}
