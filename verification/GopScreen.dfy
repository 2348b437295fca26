/** The Graphics Output driver: a frame buffer and a fill line that Blt changes in place and SetMode replaces. */
module GopScreen {
  import opened Wrappers
  import opened Bytes
  import opened EfiStatus
  import opened GopPixels

  const VIDEO_FILL := 0
  const VIDEO_TO_BUFFER := 1
  const BUFFER_TO_VIDEO := 2
  const VIDEO_TO_VIDEO := 3
  const OPERATION_MAX := 4

  /** sizeof (EFI_GRAPHICS_OUTPUT_BLT_PIXEL) */
  const PIXEL_SIZE: nat := 4

  datatype ModeData = ModeData(horizontalResolution: nat, verticalResolution: nat)

  const MODES: seq<ModeData> :=
    [ModeData(800, 600), ModeData(640, 480), ModeData(720, 400), ModeData(1024, 768), ModeData(1280, 1024)]

  datatype Rect = Rect(x: nat, y: nat, width: nat, height: nat) {
    predicate Inside(h: nat, v: nat) {
      y + height <= v && x + width <= h
    }
  }

  function FillRow(pixel: Pixel, count: nat): (row: seq<Pixel>)
    ensures |row| == count && forall k :: 0 <= k < count ==> row[k] == pixel
  {
    seq(count, _ => pixel)
  }

  /** The arguments of a Blt call. */
  datatype Call = Call(operation: int, sourceX: nat, sourceY: nat, destinationX: nat, destinationY: nat,
                       width: nat, height: nat, delta: nat) {
    function Source(): Rect {
      Rect(sourceX, sourceY, width, height)
    }

    function Destination(): Rect {
      Rect(destinationX, destinationY, width, height)
    }

    /** The stride of the buffer in bytes; zero stands for rows without gaps. */
    function Stride(): nat {
      if delta == 0 then width * PIXEL_SIZE else delta
    }

    /** The call is valid, and the rectangle that Blt checks lies on the screen. */
    predicate Accepted(h: nat, v: nat) {
      && 0 <= operation < OPERATION_MAX && width != 0 && height != 0
      && (if operation == VIDEO_TO_BUFFER then Source() else Destination()).Inside(h, v)
    }

    /** Where the rectangle begins in the buffer. */
    function BufferStart(): nat {
      if operation == VIDEO_TO_BUFFER then BufferOffset(Stride(), destinationY, destinationX)
      else BufferOffset(Stride(), sourceY, sourceX)
    }

    /** What Blt relies on without a check: the buffer is large enough, and for a copy inside the screen the source
        rectangle is on the screen. */
    predicate Usable(h: nat, v: nat, bufferSize: nat) {
      if operation == VIDEO_FILL then PIXEL_SIZE <= bufferSize
      else if operation == VIDEO_TO_VIDEO then Source().Inside(h, v)
      else BufferHolds(bufferSize, BufferStart(), Stride(), height, width)
    }

    /** The image that the call puts on the screen. */
    function Image(screen: seq<Pixel>, h: nat, v: nat, buffer: seq<byte>): (img: seq<seq<Pixel>>)
      requires |screen| == Area(h, v) && Accepted(h, v) && Usable(h, v, |buffer|) && operation != VIDEO_TO_BUFFER
      ensures IsImage(img, height, width)
    {
      if operation == VIDEO_FILL then seq(height, _ => FillRow(PixelAt(buffer, 0), width))
      else if operation == BUFFER_TO_VIDEO then BufferImage(buffer, BufferStart(), Stride(), height, width)
      else Crop(screen, h, v, sourceY, sourceX, height, width)
    }

    /** The buffer after the call has read the screen. */
    function ReadInto(screen: seq<Pixel>, h: nat, v: nat, buffer: seq<byte>): (after: seq<byte>)
      requires |screen| == Area(h, v) && Accepted(h, v) && Usable(h, v, |buffer|) && operation == VIDEO_TO_BUFFER
      ensures |after| == |buffer|
    {
      StoreRows(buffer, BufferStart(), Stride(), Crop(screen, h, v, sourceY, sourceX, height, width), width)
    }

    /** Row `srcY` of the source can be read. */
    predicate RowUsable(h: nat, v: nat, bufferSize: nat, stride: nat, srcY: nat) {
      if operation == VIDEO_FILL then PIXEL_SIZE <= bufferSize
      else if operation == VIDEO_TO_VIDEO then srcY < v && sourceX + width <= h
      else BufferOffset(stride, srcY, sourceX) + width * PIXEL_SIZE <= bufferSize
    }

    /** Row `srcY` of the source. */
    function Row(screen: seq<Pixel>, h: nat, v: nat, buffer: seq<byte>, stride: nat, srcY: nat): (row: seq<Pixel>)
      requires |screen| == Area(h, v) && RowUsable(h, v, |buffer|, stride, srcY)
      ensures |row| == width
    {
      if operation == VIDEO_FILL then FillRow(PixelAt(buffer, 0), width)
      else if operation == VIDEO_TO_VIDEO then RowOf(screen, h, v, srcY, sourceX, width)
      else PixelRow(buffer, BufferOffset(stride, srcY, sourceX), width)
    }

    /** While the rows painted so far are on the side that the order of the loop leaves behind, the next source row
        is still a row of the image that was there when the call was made. */
    lemma {:induction false} ImageRow(
      before: seq<Pixel>, now: seq<Pixel>, h: nat, v: nat, buffer: seq<byte>, lo: nat, hi: nat, r: nat)
      requires |before| == Area(h, v) && Accepted(h, v) && Usable(h, v, |buffer|) && operation != VIDEO_TO_BUFFER
      requires lo <= hi <= height && r < height
      requires PaintedRows(before, now, h, v, destinationY, destinationX, Image(before, h, v, buffer), lo, hi)
      requires if destinationY <= sourceY then r == hi else r + 1 == lo && hi == height
      ensures RowUsable(h, v, |buffer|, Stride(), sourceY + r)
      ensures Row(now, h, v, buffer, Stride(), sourceY + r) == Image(before, h, v, buffer)[r]
    {
      if operation == BUFFER_TO_VIDEO {
        BufferRow(sourceY, r, Stride(), sourceX);
      } else if operation == VIDEO_TO_VIDEO {
        SourceRowIntact(before, now, h, v, destinationY, destinationX, sourceY, sourceX, height, width, lo, hi, r);
      }
    }

    /** Storing that row next to the painted ones paints one row more. */
    lemma {:induction false} PaintsRow(
      before: seq<Pixel>, now: seq<Pixel>, h: nat, v: nat, buffer: seq<byte>, lo: nat, hi: nat, r: nat)
      requires |before| == Area(h, v) && Accepted(h, v) && Usable(h, v, |buffer|) && operation != VIDEO_TO_BUFFER
      requires lo <= hi <= height && r < height
      requires PaintedRows(before, now, h, v, destinationY, destinationX, Image(before, h, v, buffer), lo, hi)
      requires if destinationY <= sourceY then r == hi else r + 1 == lo && hi == height
      ensures |now| == Area(h, v) && RowUsable(h, v, |buffer|, Stride(), sourceY + r)
      ensures Index(h, v, destinationY + r, destinationX) + width <= |now|
      ensures var now' := Store(now, Index(h, v, destinationY + r, destinationX),
                                Row(now, h, v, buffer, Stride(), sourceY + r));
              if destinationY <= sourceY
              then PaintedRows(before, now', h, v, destinationY, destinationX, Image(before, h, v, buffer), lo, hi + 1)
              else PaintedRows(before, now', h, v, destinationY, destinationX, Image(before, h, v, buffer), lo - 1, hi)
    {
      ImageRow(before, now, h, v, buffer, lo, hi, r);
      hide Index, Area, Image, Row, Usable, RowUsable;
      PaintRow(before, now, h, v, destinationY, destinationX, Image(before, h, v, buffer), width, lo, hi, r);
    }
  }

  /** A piece of a row lies inside the frame buffer. */
  predicate RowFits(h: nat, v: nat, y: nat, x: nat, width: nat) {
    y < v && Index(h, v, y, x) + width <= Area(h, v)
  }

  /** Row `first + r` of a strided buffer. */
  lemma {:induction false} BufferRow(first: nat, r: nat, stride: nat, x: nat)
    ensures BufferOffset(stride, first + r, x) == RowStart(BufferOffset(stride, first, x), stride, r)
  {
    RowsAdd(first, r, stride);
  }

  /** CopyMem of whole pixels; source and target may be the same buffer and overlap. */
  method CopyPixels(target: array<Pixel>, at: nat, source: array<Pixel>, from: nat, count: nat)
    requires at + count <= target.Length && from + count <= source.Length
    modifies target
    ensures target[..] == Store(old(target[..]), at, old(source[from..from + count]))
  {
    forall k | 0 <= k < count {
      target[at + k] := source[from + k];
    }
  }

  /** CopyMem from the bytes of a buffer to pixels. */
  method CopyFromBuffer(target: array<Pixel>, at: nat, buffer: array<byte>, from: nat, count: nat)
    requires at + count <= target.Length && from + count * PIXEL_SIZE <= buffer.Length
    modifies target
    ensures target[..] == Store(old(target[..]), at, PixelRow(buffer[..], from, count))
  {
    forall k | 0 <= k < count {
      target[at + k] := PixelAt(buffer[..], from + 4 * k);
    }
  }

  /** CopyMem from pixels to the bytes of a buffer. */
  method CopyToBuffer(buffer: array<byte>, at: nat, source: array<Pixel>, from: nat, count: nat)
    requires at + count * PIXEL_SIZE <= buffer.Length && from + count <= source.Length
    modifies buffer
    ensures buffer[..] == Store(old(buffer[..]), at, RowBytes(source[from..from + count]))
  {
    forall j | 0 <= j < 4 * count {
      buffer[at + j] := source[from + j / 4].Byte(j % 4);
    }
  }

  // ---------------------------------------------------------------- Round trip

  /** The call that reads a rectangle of the screen back to where a BUFFER_TO_VIDEO call took it from. */
  function ReadBackCall(put: Call): Call {
    put.(operation := VIDEO_TO_BUFFER, sourceX := put.destinationX, sourceY := put.destinationY,
         destinationX := put.sourceX, destinationY := put.sourceY)
  }

  /** The call that reads back is accepted, and has the layout of the other one in the buffer. */
  lemma {:induction false} SameLayout(put: Call, h: nat, v: nat)
    requires put.operation == BUFFER_TO_VIDEO
    ensures var get := ReadBackCall(put);
            && (put.Accepted(h, v) <==> get.Accepted(h, v))
            && get.BufferStart() == put.BufferStart() && get.Stride() == put.Stride()
            && get.Source() == put.Destination()
  {
  }

  /** Painting a rectangle from a buffer and reading it into any buffer with the same layout delivers the original
      pixels, for every stride; reading it into the same buffer leaves every byte as it was. */
  lemma {:induction false} RoundTrip(
    before: seq<Pixel>, after: seq<Pixel>, h: nat, v: nat, y: nat, x: nat,
    source: seq<byte>, target: seq<byte>, at: nat, delta: nat, height: nat, width: nat)
    requires y + height <= v && x + width <= h && |before| == Area(h, v)
    requires BufferHolds(|source|, at, delta, height, width) && BufferHolds(|target|, at, delta, height, width)
    requires Painted(before, after, h, v, y, x, BufferImage(source, at, delta, height, width))
    ensures var read := StoreRows(target, at, delta, Crop(after, h, v, y, x, height, width), width);
            && BufferImage(read, at, delta, height, width) == BufferImage(source, at, delta, height, width)
            && (source == target ==> read == source)
  {
    PaintedCrop(before, after, h, v, y, x, BufferImage(source, at, delta, height, width), width);
    CopiedImage(source, target, at, delta, height, width);
    if source == target {
      CopyToItself(source, at, delta, height, width);
    }
  }

  /** Filling the whole screen reaches every slot of the frame buffer. */
  lemma {:induction false} FilledScreen(before: seq<Pixel>, after: seq<Pixel>, h: nat, v: nat, pixel: Pixel)
    requires |before| == Area(h, v)
    requires Painted(before, after, h, v, 0, 0, seq(v, _ => FillRow(pixel, h)))
    ensures forall i :: 0 <= i < |after| ==> after[i] == pixel
  {
    forall i | 0 <= i < |after|
      ensures after[i] == pixel
    {
      var y, x := IndexOfSlot(h, v, i);
      assert PixelOf(after, h, v, y, x) == pixel;
    }
  }

  // ---------------------------------------------------------------- Modes

  /** The sizes that SetMode keeps in step: the resolution, the frame buffer, and the fill line if there is one. */
  datatype Sizes = Sizes(h: nat, v: nat, screen: nat, fillLine: Option<nat>, needsStarting: bool) {
    predicate Ready() {
      screen == Area(h, v) && fillLine.Some? && fillLine.value >= h
    }
  }

  /** A SetMode call, and whether its resources are granted: the exit event of a new window, and the fill line. A new
      window gets its frame buffer in either case, because its thread runs although the event is missing. */
  datatype ModeCall = ModeCall(mode: nat, eventCreated: bool, allocates: bool)

  function ModeStatus(s: Sizes, call: ModeCall): Status {
    if call.mode >= |MODES| then Unsupported
    else if (s.needsStarting && !call.eventCreated) || !call.allocates then DeviceError
    else Success
  }

  function ModeStep(s: Sizes, call: ModeCall): Sizes {
    if call.mode >= |MODES| then s
    else
      var m := MODES[call.mode];
      Sizes(m.horizontalResolution, m.verticalResolution, Area(m.horizontalResolution, m.verticalResolution),
            if ModeStatus(s, call) == Success then Some(m.horizontalResolution) else s.fillLine,
            s.needsStarting && !call.eventCreated)
  }

  function ModeRun(s: Sizes, calls: seq<ModeCall>): Sizes
    decreases |calls|
  {
    if calls == [] then s else ModeRun(ModeStep(s, calls[0]), calls[1..])
  }

  predicate NoDeviceError(s: Sizes, calls: seq<ModeCall>)
    decreases |calls|
  {
    calls == [] || (ModeStatus(s, calls[0]) != DeviceError && NoDeviceError(ModeStep(s, calls[0]), calls[1..]))
  }

  /** A run of SetMode calls without device errors keeps the buffers ready, and a single success makes them ready. */
  lemma {:induction false} RunKeepsReady(s: Sizes, calls: seq<ModeCall>)
    requires NoDeviceError(s, calls)
    requires s.Ready() || exists k :: 0 <= k < |calls| && calls[k].mode < |MODES|
    ensures ModeRun(s, calls).Ready()
    decreases |calls|
  {
    if calls != [] {
      if !ModeStep(s, calls[0]).Ready() {
        var k :| 0 <= k < |calls| && calls[k].mode < |MODES|;
        assert calls[1..][k - 1] == calls[k];
      }
      RunKeepsReady(ModeStep(s, calls[0]), calls[1..]);
    }
  }

  /** The state before the first call. */
  const UNUSED: Sizes := Sizes(0, 0, 0, None, true)

  /** The width of the last mode that was set without an error. */
  function LastSuccess(s: Sizes, calls: seq<ModeCall>): Option<nat>
    decreases |calls|
  {
    if calls == [] then None
    else
      var later := LastSuccess(ModeStep(s, calls[0]), calls[1..]);
      if later == None && ModeStatus(s, calls[0]) == Success then Some(MODES[calls[0].mode].horizontalResolution)
      else later
  }

  /** The width of the last supported mode that was asked for. */
  function LastSupported(calls: seq<ModeCall>): Option<nat>
    decreases |calls|
  {
    if calls == [] then None
    else
      var later := LastSupported(calls[1..]);
      if later == None && calls[0].mode < |MODES| then Some(MODES[calls[0].mode].horizontalResolution) else later
  }

  lemma {:induction false} RunSizes(s: Sizes, calls: seq<ModeCall>)
    requires s.screen == Area(s.h, s.v)
    ensures var r, last, width := ModeRun(s, calls), LastSuccess(s, calls), LastSupported(calls);
            && r.screen == Area(r.h, r.v)
            && r.fillLine == (if last.Some? then last else s.fillLine)
            && r.h == (if width.Some? then width.value else s.h)
            && (last.Some? ==> width.Some?)
    decreases |calls|
  {
    hide Area;
    if calls != [] {
      RunSizes(ModeStep(s, calls[0]), calls[1..]);
    }
  }

  /** After any run of SetMode calls, with any errors, the buffers are ready if and only if some call has succeeded and
      the last success was at least as wide as the last supported mode. */
  lemma {:induction false} ReadyIff(calls: seq<ModeCall>)
    ensures ModeRun(UNUSED, calls).Ready()
       <==> var last, width := LastSuccess(UNUSED, calls), LastSupported(calls);
            last.Some? && width.Some? && last.value >= width.value
  {
    RunSizes(UNUSED, calls);
  }

  /** After any run, with any errors, the resolution and the frame buffer are those of the last call that asked for
      one of the five modes. */
  lemma {:induction false} RunResolution(calls: seq<ModeCall>, k: nat)
    requires k < |calls| && calls[k].mode < 5
    requires forall j :: k < j < |calls| ==> calls[j].mode >= 5
    ensures var r, m := ModeRun(UNUSED, calls), calls[k].mode;
            && r.h == [800, 640, 720, 1024, 1280][m] && r.v == [600, 480, 400, 768, 1024][m]
            && r.screen == Area(r.h, r.v)
  {
    RunSizes(UNUSED, calls);
    ModeOfRun(UNUSED, calls, k);
  }

  /** After any run, a window is still to be started if and only if no call for one of the five modes could create its
      event. */
  lemma {:induction false} StartedIff(s: Sizes, calls: seq<ModeCall>)
    ensures ModeRun(s, calls).needsStarting
       <==> s.needsStarting && forall k :: 0 <= k < |calls| ==> calls[k].mode >= 5 || !calls[k].eventCreated
    decreases |calls|
  {
    hide Area;
    if calls != [] {
      StartedIff(ModeStep(s, calls[0]), calls[1..]);
      assert forall k :: 0 <= k < |calls| - 1 ==> calls[1..][k] == calls[k + 1];
    }
  }

  /** The status of SetMode: only five modes are supported; an event for a window that is still to be started and the
      fill line must be granted. */
  lemma {:induction false} ModeStatusIff(s: Sizes, call: ModeCall)
    ensures ModeStatus(s, call) == Unsupported <==> call.mode >= 5
    ensures ModeStatus(s, call) == Success
       <==> call.mode < 5 && call.allocates && (call.eventCreated || !s.needsStarting)
    ensures ModeStatus(s, call) in {Success, Unsupported, DeviceError}
  {
  }

  lemma {:induction false} ModeOfRun(s: Sizes, calls: seq<ModeCall>, k: nat)
    requires k < |calls| && calls[k].mode < |MODES|
    requires forall j :: k < j < |calls| ==> calls[j].mode >= |MODES|
    ensures var r, m := ModeRun(s, calls), MODES[calls[k].mode];
            r.h == m.horizontalResolution && r.v == m.verticalResolution
    decreases |calls|
  {
    hide Area;
    var next := ModeStep(s, calls[0]);
    if k > 0 {
      assert calls[1..][k - 1] == calls[k];
      assert forall j :: k - 1 < j < |calls| - 1 ==> calls[1..][j] == calls[j + 1];
      ModeOfRun(next, calls[1..], k - 1);
    } else {
      assert forall j :: 0 <= j < |calls| - 1 ==> calls[1..][j] == calls[j + 1];
      UnsupportedRun(next, calls[1..]);
    }
  }

  lemma {:induction false} UnsupportedRun(s: Sizes, calls: seq<ModeCall>)
    requires forall j :: 0 <= j < |calls| ==> calls[j].mode >= |MODES|
    ensures ModeRun(s, calls) == s
    decreases |calls|
  {
    if calls != [] {
      UnsupportedRun(ModeStep(s, calls[0]), calls[1..]);
    }
  }

  /** From 640x480, a failed switch to 1280x1024 leaves a fill line that is too short. */
  lemma {:induction false} FillLineTooShort()
    ensures var start := UNUSED;
            var calls := [ModeCall(1, true, true), ModeCall(4, true, false)];
            ModeRun(start, calls[..1]).Ready() && !ModeRun(start, calls).Ready()
  {
    var start := UNUSED;
    var calls := [ModeCall(1, true, true), ModeCall(4, true, false)];
    assert calls[..1] == [ModeCall(1, true, true)] && calls[1..] == [ModeCall(4, true, false)];
    assert ModeRun(start, calls[..1]) == ModeStep(start, calls[0]);
    assert ModeRun(start, calls)
        == ModeRun(ModeStep(start, calls[0]), calls[1..])
        == ModeStep(ModeStep(start, calls[0]), calls[1]);
  }

  class Gop {
    var virtualScreen: array<Pixel>
    var fillLine: array?<Pixel>
    var mode: nat
    var horizontalResolution: nat
    var verticalResolution: nat
    var hardwareNeedsStarting: bool

    /** Every index that Blt can use is inside the frame buffer and the fill line. */
    ghost predicate Ready()
      reads this
    {
      && virtualScreen.Length == Area(horizontalResolution, verticalResolution)
      && fillLine != null && fillLine != virtualScreen && fillLine.Length >= horizontalResolution
    }

    ghost function CurrentSizes(): Sizes
      reads this
    {
      Sizes(horizontalResolution, verticalResolution, virtualScreen.Length,
            if fillLine == null then None else Some(fillLine.Length), hardwareNeedsStarting)
    }

    constructor ()
      ensures hardwareNeedsStarting && fillLine == null && horizontalResolution == 0 && verticalResolution == 0
    {
      virtualScreen := new Pixel[0];
      fillLine := null;
      mode := 0xffff;
      horizontalResolution, verticalResolution := 0, 0;
      hardwareNeedsStarting := true;
    }

    /** `eventCreated` and `allocates` are the outcomes of the event creation for a new window and of the pool
        allocation, and `reserved` is the byte of the fill pixel that is never set. */
    method SetMode(modeNumber: nat, eventCreated: bool, allocates: bool, reserved: byte) returns (status: Status)
      modifies this
      ensures var call := ModeCall(modeNumber, eventCreated, allocates);
              status == ModeStatus(old(CurrentSizes()), call) && CurrentSizes() == ModeStep(old(CurrentSizes()), call)
      ensures if status == Unsupported then unchanged(this)
              else mode == modeNumber && fresh(virtualScreen) && (status == Success ==> fresh(fillLine))
      ensures status == DeviceError ==> fillLine == old(fillLine)
      ensures status == Success ==>
                && Ready()
                && forall i :: 0 <= i < virtualScreen.Length ==> virtualScreen[i] == Pixel(0, 0, 0, reserved)
    {
      if modeNumber >= |MODES| {
        return Unsupported;
      }
      var modeData := MODES[modeNumber];
      mode := modeNumber;
      horizontalResolution := modeData.horizontalResolution;
      verticalResolution := modeData.verticalResolution;
      virtualScreen := new Pixel[Area(horizontalResolution, verticalResolution)](_ => Pixel(0, 0, 0, 0));
      if hardwareNeedsStarting {
        if !eventCreated {
          return DeviceError;
        }
        hardwareNeedsStarting := false;
      }
      if !allocates {
        return DeviceError;
      }
      var newFillLine := new Pixel[horizontalResolution];
      fillLine := newFillLine;
      ClearScreen(reserved);
      return Success;
    }

    /** The fill of the whole screen at the end of SetMode. */
    method ClearScreen(reserved: byte)
      requires Ready() && horizontalResolution > 0 && verticalResolution > 0
      modifies virtualScreen, fillLine
      ensures forall i :: 0 <= i < virtualScreen.Length ==> virtualScreen[i] == Pixel(0, 0, 0, reserved)
    {
      var fill := new byte[4] [0, 0, 0, reserved];
      var screen := Call(
        VIDEO_FILL, 0, 0, 0, 0, horizontalResolution, verticalResolution, horizontalResolution * PIXEL_SIZE);
      ghost var before := virtualScreen[..];
      var _ := Blt(fill, screen);
      FilledScreen(before, virtualScreen[..], horizontalResolution, verticalResolution, Pixel(0, 0, 0, reserved));
    }

    method Blt(bltBuffer: array<byte>, call: Call) returns (status: Status)
      requires Ready()
      requires call.Accepted(horizontalResolution, verticalResolution) ==>
                 call.Usable(horizontalResolution, verticalResolution, bltBuffer.Length)
      modifies virtualScreen, fillLine, bltBuffer
      ensures status == if call.Accepted(horizontalResolution, verticalResolution) then Success else InvalidParameter
      ensures status == Success && call.operation != VIDEO_TO_BUFFER ==>
                Painted(old(virtualScreen[..]), virtualScreen[..], horizontalResolution, verticalResolution,
                        call.destinationY, call.destinationX,
                        call.Image(
                          old(virtualScreen[..]), horizontalResolution, verticalResolution, old(bltBuffer[..])))
      ensures status == Success && call.operation == VIDEO_TO_BUFFER ==>
                bltBuffer[..] == call.ReadInto(
                  old(virtualScreen[..]), horizontalResolution, verticalResolution, old(bltBuffer[..]))
      ensures status != Success || call.operation == VIDEO_TO_BUFFER ==> virtualScreen[..] == old(virtualScreen[..])
      ensures status != Success || call.operation != VIDEO_TO_BUFFER ==> bltBuffer[..] == old(bltBuffer[..])
      ensures status != Success || call.operation != VIDEO_FILL ==> fillLine[..] == old(fillLine[..])
      ensures status == Success && call.operation == VIDEO_FILL ==>
                fillLine[..] == Store(old(fillLine[..]), 0, FillRow(PixelAt(bltBuffer[..], 0), call.width))
    {
      var width, height := call.width, call.height;
      if call.operation < 0 || call.operation >= OPERATION_MAX {
        return InvalidParameter;
      }
      if width == 0 || height == 0 {
        return InvalidParameter;
      }
      var delta := call.delta;
      if delta == 0 {
        delta := width * PIXEL_SIZE;
      }
      if call.operation == VIDEO_TO_BUFFER {
        if call.sourceY + height > verticalResolution {
          return InvalidParameter;
        }
        if call.sourceX + width > horizontalResolution {
          return InvalidParameter;
        }
        ScreenToBuffer(bltBuffer, call, delta);
      } else {
        if call.destinationY + height > verticalResolution {
          return InvalidParameter;
        }
        if call.destinationX + width > horizontalResolution {
          return InvalidParameter;
        }
        if call.operation == VIDEO_FILL {
          for index := 0 to width
            invariant fillLine[..] == Store(old(fillLine[..]), 0, FillRow(PixelAt(bltBuffer[..], 0), index))
            invariant virtualScreen[..] == old(virtualScreen[..]) && bltBuffer[..] == old(bltBuffer[..])
          {
            fillLine[index] := PixelAt(bltBuffer[..], 0);
          }
        }
        PaintScreen(bltBuffer, call, delta);
      }
      return Success;
    }

    /** One round of the row loop that reads the screen. */
    method ReadOneRow(bltBuffer: array<byte>, call: Call, delta: nat, srcY: nat, dstY: nat)
      requires Ready() && srcY < verticalResolution && call.sourceX + call.width <= horizontalResolution
      requires BufferOffset(delta, dstY, call.destinationX) + 4 * call.width <= bltBuffer.Length
      modifies bltBuffer
      ensures bltBuffer[..] == Store(old(bltBuffer[..]), BufferOffset(delta, dstY, call.destinationX),
                                     RowBytes(RowOf(virtualScreen[..], horizontalResolution, verticalResolution,
                                                    srcY, call.sourceX, call.width)))
    {
      hide Index, Area, BufferOffset, RowBytes;
      StoredRow(virtualScreen[..], horizontalResolution, verticalResolution, srcY, call.sourceX, call.width);
      var vScreen := Index(horizontalResolution, verticalResolution, srcY, call.sourceX);
      CopyToBuffer(bltBuffer, BufferOffset(delta, dstY, call.destinationX), virtualScreen, vScreen, call.width);
    }

    /** The row loop that reads the screen. */
    method ScreenToBuffer(bltBuffer: array<byte>, call: Call, delta: nat)
      requires Ready() && call.operation == VIDEO_TO_BUFFER && delta == call.Stride()
      requires call.Accepted(horizontalResolution, verticalResolution)
      requires call.Usable(horizontalResolution, verticalResolution, bltBuffer.Length)
      modifies bltBuffer
      ensures bltBuffer[..]
           == call.ReadInto(virtualScreen[..], horizontalResolution, verticalResolution, old(bltBuffer[..]))
    {
      hide StoreRows, StoredRows, RowStart, RowBytes, Index, Area, BufferOffset, RowOf, Crop;
      hide IsImage, PixelOf, BufferHolds;
      ghost var screen, at := virtualScreen[..], call.BufferStart();
      ghost var img := Crop(screen, horizontalResolution, verticalResolution,
                            call.sourceY, call.sourceX, call.height, call.width);
      StoredNone(bltBuffer[..], at, delta, img, call.width);
      var srcY, dstY := call.sourceY, call.destinationY;
      while dstY < call.height + call.destinationY
        invariant call.destinationY <= dstY <= call.height + call.destinationY
        invariant srcY - call.sourceY == dstY - call.destinationY
        invariant virtualScreen[..] == screen
        invariant StoredRows(old(bltBuffer[..]), bltBuffer[..], at, delta, img, call.width, dstY - call.destinationY)
      {
        ghost var r := dstY - call.destinationY;
        BufferRow(call.destinationY, r, delta, call.destinationX);
        StoredNext(old(bltBuffer[..]), bltBuffer[..], at, delta, img, call.width, r);
        ReadOneRow(bltBuffer, call, delta, srcY, dstY);
        srcY, dstY := srcY + 1, dstY + 1;
      }
      StoredAll(old(bltBuffer[..]), bltBuffer[..], at, delta, img, call.width);
    }

    /** One round of the row loop that writes the screen. */
    method PaintOneRow(bltBuffer: array<byte>, call: Call, delta: nat, srcY: nat, dstY: nat)
      requires Ready() && call.operation in {VIDEO_FILL, BUFFER_TO_VIDEO, VIDEO_TO_VIDEO}
      requires call.destinationX + call.width <= horizontalResolution
      requires dstY < verticalResolution
      requires call.RowUsable(horizontalResolution, verticalResolution, bltBuffer.Length, delta, srcY)
      requires call.operation == VIDEO_FILL
               ==> forall k :: 0 <= k < call.width ==> fillLine[k] == PixelAt(bltBuffer[..], 0)
      modifies virtualScreen
      ensures RowFits(horizontalResolution, verticalResolution, dstY, call.destinationX, call.width)
      ensures virtualScreen[..] ==
              Store(old(virtualScreen[..]), Index(horizontalResolution, verticalResolution, dstY, call.destinationX),
                    call.Row(
                      old(virtualScreen[..]), horizontalResolution, verticalResolution, bltBuffer[..], delta, srcY))
    {
      var h, v := horizontalResolution, verticalResolution;
      hide Index, Area, BufferOffset;
      RowInside(h, v, dstY, call.destinationX, call.width);
      var vScreen := Index(h, v, dstY, call.destinationX);
      if call.operation == BUFFER_TO_VIDEO {
        CopyFromBuffer(virtualScreen, vScreen, bltBuffer, BufferOffset(delta, srcY, call.sourceX), call.width);
      } else if call.operation == VIDEO_TO_VIDEO {
        StoredRow(virtualScreen[..], h, v, srcY, call.sourceX, call.width);
        CopyPixels(virtualScreen, vScreen, virtualScreen, Index(h, v, srcY, call.sourceX), call.width);
      } else {
        assert fillLine[0..call.width] == FillRow(PixelAt(bltBuffer[..], 0), call.width);
        CopyPixels(virtualScreen, vScreen, fillLine, 0, call.width);
      }
    }

    /** The row loop that writes the screen. Its order keeps the rows of an overlapping source until they are read. */
    method PaintScreen(bltBuffer: array<byte>, call: Call, delta: nat)
      requires Ready() && call.operation != VIDEO_TO_BUFFER && delta == call.Stride()
      requires call.Accepted(horizontalResolution, verticalResolution)
      requires call.Usable(horizontalResolution, verticalResolution, bltBuffer.Length)
      requires call.operation == VIDEO_FILL
               ==> forall k :: 0 <= k < call.width ==> fillLine[k] == PixelAt(bltBuffer[..], 0)
      modifies virtualScreen
      ensures Painted(old(virtualScreen[..]), virtualScreen[..], horizontalResolution, verticalResolution,
                      call.destinationY, call.destinationX,
                      call.Image(old(virtualScreen[..]), horizontalResolution, verticalResolution, bltBuffer[..]))
    {
      ghost var h, v := horizontalResolution, verticalResolution;
      ghost var before, img := virtualScreen[..], call.Image(virtualScreen[..], h, v, bltBuffer[..]);
      ghost var down := call.destinationY <= call.sourceY;
      ghost var lo, hi := if down then 0 else call.height, if down then 0 else call.height;
      PaintNothing(before, h, v, call.destinationY, call.destinationX, img, lo);
      hide PaintedRows, Index, Area, Call.Image, Call.Row, Call.Usable, Call.RowUsable;
      var index := 0;
      while index < call.height
        invariant 0 <= index <= call.height
        invariant if down then lo == 0 && hi == index else lo == call.height - index && hi == call.height
        invariant PaintedRows(before, virtualScreen[..], h, v, call.destinationY, call.destinationX, img, lo, hi)
      {
        var srcY, dstY;
        if call.destinationY <= call.sourceY {
          srcY, dstY := call.sourceY + index, call.destinationY + index;
        } else {
          srcY, dstY := call.sourceY + call.height - index - 1, call.destinationY + call.height - index - 1;
        }
        ghost var r := dstY - call.destinationY;
        call.PaintsRow(before, virtualScreen[..], h, v, bltBuffer[..], lo, hi, r);
        PaintOneRow(bltBuffer, call, delta, srcY, dstY);
        lo, hi := if down then lo else lo - 1, if down then hi + 1 else hi;
        index := index + 1;
      }
    }
  }
}
