/** The serial driver: attribute changes, and reads and writes in loopback mode. */
module SerialIo {
  import opened Bytes
  import opened Wrappers
  import opened EfiStatus
  import opened SerialFifo
  import Queues = BoundedQueues
  import opened SerialAttributes

  /** `buffer` is `was` with its first `i` bytes replaced by those of `source`. */
  ghost predicate Copied(buffer: seq<byte>, was: seq<byte>, source: seq<byte>, i: nat) {
    i <= |source| && i <= |was| && buffer == source[..i] + was[i..]
  }

  lemma {:induction false} CopyNext(buffer: seq<byte>, was: seq<byte>, source: seq<byte>, i: nat)
    requires Copied(buffer, was, source, i) && i < |source| && i < |was|
    ensures |buffer| == |was| && Copied(buffer[i := source[i]], was, source, i + 1)
    ensures source[i..] == [source[i]] + source[i + 1..]
  {
  }

  class SerialPort {
    var mode: Attributes
    var uart: Uart
    var installed: bool
    var softwareLoopback: bool
    var hardwareLoopback: bool
    const fifo: Fifo

    ghost predicate Valid()
      reads this, fifo, fifo.data
    {
      fifo.Valid() && Agree(State())
    }

    function State(): Serial
      reads this
    {
      Serial(mode, uart, installed)
    }

    predicate Loopback()
      reads this
    {
      softwareLoopback || hardwareLoopback
    }

    /** The state before the first reset. The node is zero, or comes from the remaining device path. */
    constructor (node: Uart)
      ensures Valid() && fresh(fifo) && fresh(fifo.data) && fifo.Contents() == []
      ensures uart == node && !installed && !Loopback()
      ensures mode.fifoDepth == DEFAULT_FIFO_DEPTH && mode.timeout == DEFAULT_TIMEOUT
    {
      uart := node;
      mode := Attributes(
        node.baudRate, DEFAULT_FIFO_DEPTH, DEFAULT_TIMEOUT, node.parity, node.dataBits, node.stopBits);
      installed, softwareLoopback, hardwareLoopback := false, false, false;
      fifo := new Fifo();
    }

    /** The greatest supported rate that is not above the request. */
    method RoundBaudRate(rate: nat) returns (r: nat)
      requires ValidRate(rate)
      ensures r == Rounded(rate)
    {
      r := rate;
      var index := 1;
      while index < |RATES|
        invariant 0 < index < |RATES| && r == rate && RATES[index - 1] <= rate
        invariant RoundedFrom(rate, index) == Rounded(rate)
      {
        if r < RATES[index] {
          r := RATES[index - 1];
          break;
        }
        index := index + 1;
      }
    }

    method SetAttributes(request: Attributes, p: Platform) returns (status: Status)
      requires Valid()
      modifies this`mode, this`uart
      ensures Valid()
      ensures Outcome(State(), status) == SerialAttributes.SetAttributes(old(State()), request, p)
    {
      var a := request;
      if a.baudRate == 0 { a := a.(baudRate := DEFAULT_BAUD_RATE); }
      if a.fifoDepth == 0 { a := a.(fifoDepth := DEFAULT_FIFO_DEPTH); }
      if a.timeout == 0 { a := a.(timeout := DEFAULT_TIMEOUT); }
      if a.parity == DEFAULT_PARITY { a := a.(parity := NO_PARITY); }
      if a.dataBits == 0 { a := a.(dataBits := DEFAULT_DATA_BITS); }
      if a.stopBits == DEFAULT_STOP_BITS { a := a.(stopBits := ONE_STOP_BIT); }
      assert a == WithDefaults(request);
      hide WithDefaults, Rounded;
      if a.baudRate > MAX_BAUD_RATE || a.baudRate < MIN_BAUD_RATE {
        return InvalidParameter;
      }
      var rate := RoundBaudRate(a.baudRate);
      a := a.(baudRate := rate);
      if a.fifoDepth < 1 || a.fifoDepth > MAX_FIFO_DEPTH {
        return InvalidParameter;
      }
      if a.timeout < MIN_TIMEOUT || a.timeout > MAX_TIMEOUT {
        return InvalidParameter;
      }
      if a.parity < NO_PARITY || a.parity > SPACE_PARITY {
        return InvalidParameter;
      }
      if a.stopBits < ONE_STOP_BIT || a.stopBits > TWO_STOP_BITS {
        return InvalidParameter;
      }
      if a.dataBits < 7 || a.dataBits > 8 {
        return InvalidParameter;
      }
      if a.stopBits == ONE_FIVE_STOP_BITS {
        return InvalidParameter;
      }
      status := Update(a, p);
    }

    /** Sets valid attributes that may be the present ones. */
    method Update(a: Attributes, p: Platform) returns (status: Status)
      requires Valid()
      modifies this`mode, this`uart
      ensures Valid()
      ensures Outcome(State(), status) == Updated(old(State()), a, p)
    {
      if uart.baudRate == a.baudRate && uart.dataBits == a.dataBits && uart.parity == a.parity
         && uart.stopBits == a.stopBits && mode.fifoDepth == a.fifoDepth && mode.timeout == a.timeout {
        return Success;
      }
      if !p.getState {
        return DeviceError;
      }
      if !p.setState {
        return DeviceError;
      }
      if !p.setTimeouts {
        return DeviceError;
      }
      mode := a;
      if uart.baudRate == a.baudRate && uart.dataBits == a.dataBits && uart.parity == a.parity
         && uart.stopBits == a.stopBits {
        return Success;
      }
      uart := UartOf(a);
      status := Success;
      if installed {
        status := p.reinstall;
      }
    }

    /** Sets the present mode again, after the port has been purged. */
    method Reset(p: Platform) returns (status: Status)
      requires Valid()
      modifies this`mode, this`uart
      ensures Valid()
      ensures Outcome(State(), status) == SerialAttributes.SetAttributes(old(State()), old(mode), p)
    {
      status := SetAttributes(mode, p);
    }

    /** Stores bytes in the FIFO until it is full. */
    method WriteLoopback(buffer: array<byte>, size: nat) returns (status: Status, written: nat)
      requires Valid() && Loopback() && size <= buffer.Length
      modifies fifo`last, fifo`surplus, fifo.data
      requires buffer != fifo.data
      ensures Valid() && status == Success
      ensures written == Queues.Room(CAPACITY, old(fifo.Contents()), size)
      ensures fifo.Contents() == Queues.Step(CAPACITY, old(fifo.Contents()), Queues.Put(buffer[..size])).stored
    {
      written := 0;
      var index := 0;
      ghost var before := fifo.Contents();
      while index < size
        invariant 0 <= index <= size && written == index && fifo.Valid()
        invariant fifo.Contents() == before + buffer[..index]
        invariant buffer[..size] == old(buffer[..size])
        invariant index <= Queues.Room(CAPACITY, before, size)
      {
        status := fifo.Add(buffer[index]);
        if status == Success {
          written := written + 1;
          assert buffer[..index + 1] == buffer[..index] + [buffer[index]];
        } else {
          break;
        }
        index := index + 1;
      }
      assert buffer[..size][..written] == buffer[..written];
      status := Success;
    }

    /** Delivers the oldest bytes of the FIFO into the buffer; fewer than the wanted ones are a timeout. */
    method ReadLoopback(buffer: array<byte>, size: nat) returns (status: Status, read: nat)
      requires Valid() && Loopback() && size <= buffer.Length
      requires buffer != fifo.data
      modifies fifo`first, fifo`surplus, buffer
      ensures Valid()
      ensures read == Queues.Ready(old(fifo.Contents()), size)
      ensures status == if read == size then Success else Timeout
      ensures buffer[..]
           == Queues.Step(CAPACITY, old(fifo.Contents()), Queues.Take(size)).removed + old(buffer[..])[read..]
      ensures fifo.Contents() == Queues.Step(CAPACITY, old(fifo.Contents()), Queues.Take(size)).stored
    {
      read := TakeBytes(buffer, size);
      status := if read != size then Timeout else Success;
    }

    /** Moves up to `size` bytes from the FIFO to the buffer. */
    method TakeBytes(buffer: array<byte>, size: nat) returns (read: nat)
      requires fifo.Valid() && size <= buffer.Length && buffer != fifo.data
      modifies fifo`first, fifo`surplus, buffer
      ensures fifo.Valid()
      ensures read == Queues.Ready(old(fifo.Contents()), size)
      ensures Copied(buffer[..], old(buffer[..]), old(fifo.Contents()), read)
      ensures fifo.Contents() == old(fifo.Contents())[read..]
    {
      ghost var before, was := fifo.Contents(), buffer[..];
      assert Copied(buffer[..], was, before, 0);
      hide Copied, Fifo.Valid, Fifo.Contents;
      read := 0;
      var index := 0;
      while index < size
        invariant 0 <= index <= size && read == index && fifo.Valid()
        invariant index <= |before| && fifo.Contents() == before[index..]
        invariant Copied(buffer[..], was, before, index)
      {
        var removed, b := fifo.Remove();
        if removed == Success {
          CopyNext(buffer[..], was, before, index);
          ghost var prior := buffer[..];
          buffer[index] := b;
          assert buffer[..] == prior[index := b];
          read := read + 1;
        } else {
          break;
        }
        index := index + 1;
      }
    }
  }
}
