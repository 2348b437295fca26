/** The attributes of the serial port: defaults, rounding, and what calls of SetAttributes and Reset keep. */
module SerialAttributes {
  import opened Wrappers
  import opened EfiStatus

  const DEFAULT_BAUD_RATE: nat := 115200
  const DEFAULT_FIFO_DEPTH: nat := 14
  const DEFAULT_TIMEOUT: nat := 1000000
  const DEFAULT_DATA_BITS: nat := 8

  const MIN_BAUD_RATE: nat := 50
  const MAX_BAUD_RATE: nat := 115400
  const MAX_FIFO_DEPTH: nat := 16
  const MIN_TIMEOUT: nat := 1
  const MAX_TIMEOUT: nat := 100000000

  /** EFI_PARITY_TYPE. */
  const DEFAULT_PARITY: nat := 0
  const NO_PARITY: nat := 1
  const SPACE_PARITY: nat := 5

  /** EFI_STOP_BITS_TYPE. */
  const DEFAULT_STOP_BITS: nat := 0
  const ONE_STOP_BIT: nat := 1
  const ONE_FIVE_STOP_BITS: nat := 2
  const TWO_STOP_BITS: nat := 3

  /** The supported rates, and one that is above all valid requests. */
  const RATES: seq<nat> :=
    [50, 75, 110, 134, 150, 300, 600, 1200, 1800, 2000, 2400, 3600, 4800, 7200, 9600, 19200, 38400, 57600, 115200,
     MAX_BAUD_RATE + 1]

  /** In a request zero stands for the default. */
  datatype Attributes = Attributes(
    baudRate: nat, fifoDepth: nat, timeout: nat, parity: nat, dataBits: nat, stopBits: nat)

  /** The attributes that the UART node of the device path holds. */
  datatype Uart = Uart(baudRate: nat, dataBits: nat, parity: nat, stopBits: nat)

  function UartOf(a: Attributes): Uart {
    Uart(a.baudRate, a.dataBits, a.parity, a.stopBits)
  }

  function WithDefaults(a: Attributes): Attributes {
    Attributes(
      if a.baudRate == 0 then DEFAULT_BAUD_RATE else a.baudRate,
      if a.fifoDepth == 0 then DEFAULT_FIFO_DEPTH else a.fifoDepth,
      if a.timeout == 0 then DEFAULT_TIMEOUT else a.timeout,
      if a.parity == DEFAULT_PARITY then NO_PARITY else a.parity,
      if a.dataBits == 0 then DEFAULT_DATA_BITS else a.dataBits,
      if a.stopBits == DEFAULT_STOP_BITS then ONE_STOP_BIT else a.stopBits)
  }

  predicate ValidRate(rate: nat) {
    MIN_BAUD_RATE <= rate <= MAX_BAUD_RATE
  }

  predicate Acceptable(a: Attributes) {
    && ValidRate(a.baudRate)
    && 1 <= a.fifoDepth <= MAX_FIFO_DEPTH
    && MIN_TIMEOUT <= a.timeout <= MAX_TIMEOUT
    && NO_PARITY <= a.parity <= SPACE_PARITY
    && 7 <= a.dataBits <= 8
    && (a.stopBits == ONE_STOP_BIT || a.stopBits == TWO_STOP_BITS)
  }

  // ---------------------------------------------------------------- Rounding

  lemma {:induction false} RatesIncrease(i: nat, j: nat)
    requires i < j < |RATES|
    ensures RATES[i] < RATES[j]
    decreases j - i
  {
    if i + 1 < j {
      RatesIncrease(i + 1, j);
    }
  }

  /** `r` is the greatest supported rate that is not above `rate`. */
  ghost predicate GreatestUpTo(rate: nat, r: nat) {
    && r in RATES && r <= rate
    && forall k :: 0 <= k < |RATES| && RATES[k] <= rate ==> RATES[k] <= r
  }

  lemma {:induction false} BetweenRates(rate: nat, i: nat)
    requires 0 < i < |RATES| && RATES[i - 1] <= rate < RATES[i]
    ensures GreatestUpTo(rate, RATES[i - 1])
  {
    forall k | 0 <= k < |RATES| && RATES[k] <= rate
      ensures RATES[k] <= RATES[i - 1]
    {
      if k > i {
        RatesIncrease(i, k);
      } else if k < i - 1 {
        RatesIncrease(k, i - 1);
      }
    }
  }

  function RoundedFrom(rate: nat, i: nat): (r: nat)
    requires ValidRate(rate) && 0 < i < |RATES| && RATES[i - 1] <= rate
    ensures GreatestUpTo(rate, r)
    decreases |RATES| - i
  {
    if rate < RATES[i] then BetweenRates(rate, i); RATES[i - 1] else RoundedFrom(rate, i + 1)
  }

  function Rounded(rate: nat): (r: nat)
    requires ValidRate(rate)
    ensures GreatestUpTo(rate, r)
  {
    RoundedFrom(rate, 1)
  }

  lemma {:induction false} GreatestIsUnique(rate: nat, a: nat, b: nat)
    requires GreatestUpTo(rate, a) && GreatestUpTo(rate, b)
    ensures a == b
  {
    var i :| 0 <= i < |RATES| && RATES[i] == a;
    var j :| 0 <= j < |RATES| && RATES[j] == b;
  }

  lemma {:induction false} RoundedIsValid(rate: nat)
    requires ValidRate(rate)
    ensures ValidRate(Rounded(rate)) && Rounded(rate) > 0
  {
    assert RATES[0] == MIN_BAUD_RATE;
  }

  lemma {:induction false} RoundedTwice(rate: nat)
    requires ValidRate(rate)
    ensures ValidRate(Rounded(rate)) && Rounded(Rounded(rate)) == Rounded(rate)
  {
    RoundedIsValid(rate);
    var r := Rounded(rate);
    assert GreatestUpTo(r, r);
    GreatestIsUnique(r, r, Rounded(r));
  }

  /** The attributes that a request selects, or None for an invalid request. */
  function Selected(a: Attributes): Option<Attributes> {
    var d := WithDefaults(a);
    if Acceptable(d) then Some(d.(baudRate := Rounded(d.baudRate))) else None
  }

  /** Selected attributes select themselves. */
  lemma {:induction false} SelectedTwice(a: Attributes)
    requires Selected(a).Some?
    ensures Selected(Selected(a).value) == Selected(a)
  {
    var d := WithDefaults(a);
    var s := Selected(a).value;
    RoundedIsValid(d.baudRate);
    RoundedTwice(d.baudRate);
    hide Rounded;
    assert WithDefaults(s) == s;
    assert Acceptable(s);
  }

  /** What a request selects: its own values, and for zeros 115200 baud, 14 bytes, one second, no parity, eight data
      bits and one stop bit; only the rate is rounded. */
  lemma {:induction false} SelectedValues(a: Attributes)
    requires Selected(a).Some?
    ensures var s := Selected(a).value;
            && s.fifoDepth == (if a.fifoDepth != 0 then a.fifoDepth else 14)
            && s.timeout == (if a.timeout != 0 then a.timeout else 1000000)
            && s.parity == (if a.parity != 0 then a.parity else 1)
            && s.dataBits == (if a.dataBits != 0 then a.dataBits else 8)
            && s.stopBits == (if a.stopBits != 0 then a.stopBits else 1)
            && GreatestUpTo(if a.baudRate != 0 then a.baudRate else 115200, s.baudRate)
  {
    hide GreatestUpTo;
  }

  /** Which requests are valid. Zero is, in every field; one and a half stop bits are not. */
  lemma {:induction false} SelectedIff(a: Attributes)
    ensures Selected(a).Some?
       <==> && (a.baudRate == 0 || 50 <= a.baudRate <= 115400)
            && a.fifoDepth <= 16 && a.timeout <= 100000000 && a.parity <= 5
            && a.dataBits in {0, 7, 8} && a.stopBits in {0, 1, 3}
  {
    hide Rounded;
  }

  // ---------------------------------------------------------------- The state

  datatype Serial = Serial(mode: Attributes, uart: Uart, installed: bool)

  /** What the calls of the operating system and of the boot services return. */
  datatype Platform = Platform(getState: bool, setState: bool, setTimeouts: bool, reinstall: Status)

  datatype Outcome = Outcome(state: Serial, status: Status)

  /** The two copies of the attributes agree. */
  predicate Agree(s: Serial) {
    s.uart == UartOf(s.mode)
  }

  predicate Matches(s: Serial, a: Attributes) {
    s.uart == UartOf(a) && s.mode.fifoDepth == a.fifoDepth && s.mode.timeout == a.timeout
  }

  function Updated(s: Serial, a: Attributes, p: Platform): Outcome {
    if Matches(s, a) then Outcome(s, Success)
    else if !p.getState || !p.setState || !p.setTimeouts then Outcome(s, DeviceError)
    else if s.uart == UartOf(a) then Outcome(s.(mode := a), Success)
    else Outcome(s.(mode := a, uart := UartOf(a)), if s.installed then p.reinstall else Success)
  }

  function SetAttributes(s: Serial, request: Attributes, p: Platform): Outcome {
    match Selected(request)
    case None => Outcome(s, InvalidParameter)
    case Some(a) => Updated(s, a, p)
  }

  datatype Op = Set(request: Attributes, platform: Platform) | Reset(platform: Platform) | Install

  function Step(s: Serial, op: Op): Serial {
    match op
    case Set(request, p) => SetAttributes(s, request, p).state
    case Reset(p) => SetAttributes(s, s.mode, p).state
    case Install => s.(installed := true)
  }

  function Run(s: Serial, ops: seq<Op>): Serial
    decreases |ops|
  {
    if ops == [] then s else Run(Step(s, ops[0]), ops[1..])
  }

  /** In every reachable state the copies agree, and the mode is the first one or one that some request selects. */
  lemma {:induction false} RunKeepsAgree(s: Serial, ops: seq<Op>)
    requires Agree(s)
    ensures Agree(Run(s, ops))
    ensures Run(s, ops).mode == s.mode || Selected(Run(s, ops).mode) == Some(Run(s, ops).mode)
    ensures var r := Run(s, ops);
            && r.uart.baudRate == r.mode.baudRate && r.uart.dataBits == r.mode.dataBits
            && r.uart.parity == r.mode.parity && r.uart.stopBits == r.mode.stopBits
    decreases |ops|
  {
    hide Selected;
    if ops != [] {
      var next := Step(s, ops[0]);
      RunKeepsAgree(next, ops[1..]);
      if next.mode != s.mode {
        SelectedTwice(if ops[0].Set? then ops[0].request else s.mode);
      }
    }
  }

  /** A call takes over all selected attributes or none of them. It takes them over if and only if the request is
      valid and the platform sets it, or they are the present ones. */
  lemma {:induction false} AllOrNothing(s: Serial, request: Attributes, p: Platform)
    requires Agree(s)
    ensures var r := SetAttributes(s, request, p);
            && (r.state == s || (Selected(request) == Some(r.state.mode) && Agree(r.state)))
            && (Selected(request) == Some(r.state.mode)
                <==> && Selected(request).Some?
                     && (Selected(request) == Some(s.mode) || (p.getState && p.setState && p.setTimeouts)))
            && (r.status == Success ==> Selected(request) == Some(r.state.mode))
  {
    hide Selected;
  }

  /** The status of a call: an invalid request, attributes that the platform does not set, or what it says about the
      new device path of an installed port. */
  lemma {:induction false} SetStatus(s: Serial, request: Attributes, p: Platform)
    requires Agree(s)
    ensures SetAttributes(s, request, p).status
         == if Selected(request).None? then InvalidParameter
            else if Selected(request).value == s.mode then Success
            else if !(p.getState && p.setState && p.setTimeouts) then DeviceError
            else if s.installed && UartOf(Selected(request).value) != s.uart then p.reinstall
            else Success
  {
    hide Selected;
  }

  /** After a call that has taken the selected attributes over, repeating it and calling Reset succeed and change
      nothing, whatever the platform does. */
  lemma {:induction false} FixedPoint(s: Serial, request: Attributes, p: Platform, later: Platform)
    requires Agree(s)
    requires var r := SetAttributes(s, request, p); Selected(request) == Some(r.state.mode)
    ensures var r := SetAttributes(s, request, p).state;
            && SetAttributes(r, request, later) == Outcome(r, Success)
            && SetAttributes(r, r.mode, later) == Outcome(r, Success)
  {
    AllOrNothing(s, request, p);
    SelectedTwice(request);
    hide Selected;
  }

  /** Reset leaves the attributes as they are, whatever the platform does, if and only if they select themselves or
      are invalid. */
  lemma {:induction false} ResetKeepsIff(s: Serial)
    requires Agree(s)
    ensures (forall p :: SetAttributes(s, s.mode, p).state == s)
       <==> Selected(s.mode) == None || Selected(s.mode) == Some(s.mode)
  {
    hide Selected;
    var working := Platform(true, true, true, Success);
    if Selected(s.mode).Some? && Selected(s.mode) != Some(s.mode) {
      assert SetAttributes(s, s.mode, working).state.mode == Selected(s.mode).value;
    }
  }
}
