/** The loopback FIFO of the serial driver. */
module SerialFifo {
  import opened Bytes
  import opened EfiStatus
  import opened BoundedQueues

  /** SERIAL_MAX_BUFFER_SIZE. */
  const CAPACITY: nat := 256

  class Fifo {
    var first: nat
    var last: nat
    var surplus: nat
    const data: array<byte>

    ghost predicate Valid()
      reads this, data
    {
      && data.Length == CAPACITY && first < CAPACITY && surplus <= CAPACITY
      && last == (first + (CAPACITY - surplus)) % CAPACITY
    }

    ghost function Contents(): (bytes: seq<byte>)
      requires Valid()
      reads this, data
      ensures |bytes| + surplus == CAPACITY
    {
      Stored(data[..], first, CAPACITY - surplus)
    }

    constructor ()
      ensures Valid() && fresh(data) && Contents() == []
    {
      first, last, surplus := 0, 0, CAPACITY;
      data := new byte[CAPACITY](_ => 0);
    }

    predicate Full()
      reads this
    {
      surplus == 0
    }

    predicate Empty()
      reads this
    {
      surplus == CAPACITY
    }

    method Add(b: byte) returns (status: Status)
      requires Valid()
      modifies this`last, this`surplus, data
      ensures Valid()
      ensures status == if |old(Contents())| < CAPACITY then Success else OutOfResources
      ensures Contents() == old(Contents()) + (if status == Success then [b] else [])
    {
      hide Stored;
      if Full() {
        return OutOfResources;
      }
      StoredAdd(data[..], first, CAPACITY - surplus, b);
      assert last == Slot(CAPACITY, first, CAPACITY - surplus);
      data[last] := b;
      assert data[..] == old(data[..])[last := b];
      surplus := surplus - 1;
      last := last + 1;
      if last >= CAPACITY {
        last := 0;
      }
      return Success;
    }

    method Remove() returns (status: Status, b: byte)
      requires Valid()
      modifies this`first, this`surplus
      ensures Valid()
      ensures status == if old(Contents()) == [] then OutOfResources else Success
      ensures if status == Success then old(Contents()) == [b] + Contents() else Contents() == old(Contents())
    {
      hide Stored;
      if Empty() {
        return OutOfResources, 0;
      }
      StoredRemove(data[..], first, CAPACITY - surplus);
      b := data[first];
      surplus := surplus + 1;
      first := first + 1;
      if first >= CAPACITY {
        first := 0;
      }
      return Success, b;
    }
  }
}
