/** What Blt shows and reads, in the slots of the frame buffer and the pixels of an image in the caller's buffer. */
module GopMeaning {
  import opened Bytes
  import opened GopPixels
  import opened GopScreen

  /** A call is accepted if and only if it has an operation and an area, and the last pixel of the rectangle that Blt
      checks is on the screen. */
  lemma {:induction false} AcceptedIff(call: Call, h: nat, v: nat)
    ensures call.Accepted(h, v)
       <==> && 0 <= call.operation <= 3 && call.width > 0 && call.height > 0
            && (if call.operation == 1
                then call.sourceX + call.width - 1 < h && call.sourceY + call.height - 1 < v
                else call.destinationX + call.width - 1 < h && call.destinationY + call.height - 1 < v)
  {
  }

  // ---------------------------------------------------------------- The screen

  lemma {:induction false} SlotOfPixel(h: nat, v: nat, y: nat, x: nat)
    requires OnScreen(h, v, y, x)
    ensures Index(h, v, y, x) == (v - 1 - y) * h + x < Area(h, v)
  {
    RowsIsProduct(v - 1 - y, h);
    RowInside(h, v, y, x, 1);
  }

  /** Painting puts every pixel of the image into its slot, the top row last, and leaves the slots of all other
      pixels. */
  lemma {:induction false} PaintedSlots(
    before: seq<Pixel>, after: seq<Pixel>, h: nat, v: nat, y0: nat, x0: nat, img: seq<seq<Pixel>>, width: nat,
    y: nat, x: nat)
    requires |before| == Area(h, v) && Painted(before, after, h, v, y0, x0, img)
    requires IsImage(img, |img|, width) && y0 + |img| <= v && x0 + width <= h
    requires OnScreen(h, v, y, x)
    ensures 0 <= (v - 1 - y) * h + x < |after| == |before|
    ensures after[(v - 1 - y) * h + x]
         == if y0 <= y < y0 + |img| && x0 <= x < x0 + width then img[y - y0][x - x0] else before[(v - 1 - y) * h + x]
  {
    SlotOfPixel(h, v, y, x);
    assert PixelOf(after, h, v, y, x) == after[Index(h, v, y, x)];
    assert PixelOf(before, h, v, y, x) == before[Index(h, v, y, x)];
  }

  /** A fill shows the first pixel of the buffer everywhere. */
  lemma {:induction false} FillShows(
    call: Call, screen: seq<Pixel>, h: nat, v: nat, buffer: seq<byte>, r: nat, k: nat)
    requires call.operation == VIDEO_FILL && |screen| == Area(h, v)
    requires call.Accepted(h, v) && 4 <= |buffer| && r < call.height && k < call.width
    ensures call.Image(screen, h, v, buffer)[r][k] == Pixel(buffer[0], buffer[1], buffer[2], buffer[3])
  {
  }

  /** A copy inside the screen shows the pixels of the source rectangle. */
  lemma {:induction false} CopyShows(
    call: Call, screen: seq<Pixel>, h: nat, v: nat, buffer: seq<byte>, r: nat, k: nat)
    requires call.operation == VIDEO_TO_VIDEO && |screen| == Area(h, v)
    requires call.Accepted(h, v) && call.Source().Inside(h, v) && r < call.height && k < call.width
    ensures 0 <= (v - 1 - (call.sourceY + r)) * h + call.sourceX + k < |screen|
    ensures call.Image(screen, h, v, buffer)[r][k] == screen[(v - 1 - (call.sourceY + r)) * h + call.sourceX + k]
  {
    SlotOfPixel(h, v, call.sourceY + r, call.sourceX + k);
  }

  // ---------------------------------------------------------------- Images in a buffer

  /** The buffer holds an image of rows of `n` pixels without gaps, from its first byte on. */
  ghost predicate HoldsImage(buffer: seq<byte>, img: seq<seq<Pixel>>, n: nat) {
    && BufferHolds(|buffer|, 0, 4 * n, |img|, n)
    && BufferImage(buffer, 0, 4 * n, |img|, n) == img
  }

  /** The call takes the rows of the buffer to be `n` pixels long: by its Delta, or by its width if Delta is zero. */
  predicate HasRowsOf(call: Call, n: nat) {
    (call.delta == 4 * n && n > 0) || (call.delta == 0 && call.width == n)
  }

  lemma {:induction false} StrideOfRows(call: Call, n: nat)
    requires HasRowsOf(call, n)
    ensures call.Stride() == 4 * n
  {
  }

  /** Pixel `x` of row `y` of the image lies at four times `y * n + x`, blue first. */
  lemma {:induction false} ImageBytes(buffer: seq<byte>, img: seq<seq<Pixel>>, n: nat, y: nat, x: nat)
    requires HoldsImage(buffer, img, n) && y < |img| && x < n
    ensures var at := (y * n + x) * 4;
            at + 3 < |buffer| && img[y][x] == Pixel(buffer[at], buffer[at + 1], buffer[at + 2], buffer[at + 3])
  {
    RowsIsProduct(y, 4 * n);
    assert RowStart(0, 4 * n, y) + 4 * n <= |buffer|;
    assert y * (4 * n) == 4 * (y * n);
    var at := RowStart(0, 4 * n, y) + 4 * x;
    assert at == (y * n + x) * 4;
    assert img[y] == PixelRow(buffer, RowStart(0, 4 * n, y), n);
    hide RowStart;
    PixelOfRow(buffer, RowStart(0, 4 * n, y), n, x);
  }

  /** Pixel `k` of row `r` of a rectangle in such a buffer. */
  lemma {:induction false} PixelInBuffer(n: nat, y0: nat, x0: nat, r: nat, k: nat)
    ensures RowStart(BufferOffset(4 * n, y0, x0), 4 * n, r) + 4 * k == RowStart(0, 4 * n, y0 + r) + 4 * (x0 + k)
  {
    RowsAdd(y0, r, 4 * n);
  }

  lemma {:induction false} RectangleHeld(
    size: nat, n: nat, rows: nat, y0: nat, x0: nat, height: nat, width: nat)
    requires BufferHolds(size, 0, 4 * n, rows, n) && y0 + height <= rows && x0 + width <= n
    ensures BufferHolds(size, BufferOffset(4 * n, y0, x0), 4 * n, height, width)
  {
    forall r: nat | r < height
      ensures RowStart(BufferOffset(4 * n, y0, x0), 4 * n, r) + 4 * width <= size
    {
      PixelInBuffer(n, y0, x0, r, width);
      assert RowStart(0, 4 * n, y0 + r) + 4 * n <= size;
    }
  }

  /** BUFFER_TO_VIDEO shows the pixels of the source rectangle of an image in the buffer. */
  lemma {:induction false} BufferShows(
    call: Call, screen: seq<Pixel>, h: nat, v: nat, buffer: seq<byte>, img: seq<seq<Pixel>>, n: nat, r: nat, k: nat)
    requires call.operation == BUFFER_TO_VIDEO && |screen| == Area(h, v) && call.Accepted(h, v)
    requires HoldsImage(buffer, img, n) && HasRowsOf(call, n)
    requires call.sourceY + call.height <= |img| && call.sourceX + call.width <= n
    requires r < call.height && k < call.width
    ensures call.Usable(h, v, |buffer|)
    ensures call.Image(screen, h, v, buffer)[r][k] == img[call.sourceY + r][call.sourceX + k]
  {
    StrideOfRows(call, n);
    RectangleHeld(|buffer|, n, |img|, call.sourceY, call.sourceX, call.height, call.width);
    PixelInBuffer(n, call.sourceY, call.sourceX, r, k);
    hide RowStart, BufferOffset, PixelAt;
    assert img[call.sourceY + r] == PixelRow(buffer, RowStart(0, 4 * n, call.sourceY + r), n);
  }

  /** Byte `j` of a pixel outside a rectangle of the buffer is in no row of it. */
  lemma {:induction false} OutsideRows(
    n: nat, y0: nat, x0: nat, height: nat, width: nat, y: nat, x: nat, j: nat, r: nat)
    requires x0 + width <= n && x < n && j < 4 && r < height
    requires !(y0 <= y < y0 + height && x0 <= x < x0 + width)
    ensures var i, from := RowStart(0, 4 * n, y) + 4 * x + j, RowStart(BufferOffset(4 * n, y0, x0), 4 * n, r);
            !(from <= i < from + 4 * width)
  {
    PixelInBuffer(n, y0, x0, r, 0);
    if y < y0 + r {
      RowsGrow(y, y0 + r, 4 * n);
    } else if y0 + r < y {
      RowsGrow(y0 + r, y, 4 * n);
    }
  }

  /** The buffer with an image stored at row `y0` and column `x0` of the one that it holds. */
  function Pasted(
    buffer: seq<byte>, n: nat, rows: nat, y0: nat, x0: nat, img: seq<seq<Pixel>>, width: nat): (after: seq<byte>)
    requires BufferHolds(|buffer|, 0, 4 * n, rows, n) && IsImage(img, |img|, width)
    requires y0 + |img| <= rows && x0 + width <= n
    ensures |after| == |buffer|
  {
    RectangleHeld(|buffer|, n, rows, y0, x0, |img|, width);
    StoreRows(buffer, BufferOffset(4 * n, y0, x0), 4 * n, img, width)
  }

  lemma {:induction false} OutsideByte(
    buffer: seq<byte>, n: nat, rows: nat, y0: nat, x0: nat, img: seq<seq<Pixel>>, width: nat, y: nat, x: nat, j: nat)
    requires BufferHolds(|buffer|, 0, 4 * n, rows, n) && IsImage(img, |img|, width)
    requires y0 + |img| <= rows && x0 + width <= n && y < rows && x < n && j < 4
    requires !(y0 <= y < y0 + |img| && x0 <= x < x0 + width)
    ensures RowStart(0, 4 * n, y) + 4 * x + j < |buffer|
    ensures Pasted(buffer, n, rows, y0, x0, img, width)[RowStart(0, 4 * n, y) + 4 * x + j]
         == buffer[RowStart(0, 4 * n, y) + 4 * x + j]
  {
    RectangleHeld(|buffer|, n, rows, y0, x0, |img|, width);
    assert RowStart(0, 4 * n, y) + 4 * n <= |buffer|;
    hide RowStart, StoreRows, BufferOffset;
    var at := BufferOffset(4 * n, y0, x0);
    forall r: nat | r < |img|
      ensures !(RowStart(at, 4 * n, r) <= RowStart(0, 4 * n, y) + 4 * x + j < RowStart(at, 4 * n, r) + 4 * width)
    {
      OutsideRows(n, y0, x0, |img|, width, y, x, j, r);
    }
    StoreRowsFrame(buffer, at, 4 * n, img, width, RowStart(0, 4 * n, y) + 4 * x + j);
  }

  lemma {:induction false} OutsidePixel(
    buffer: seq<byte>, n: nat, rows: nat, y0: nat, x0: nat, img: seq<seq<Pixel>>, width: nat, y: nat, x: nat)
    requires BufferHolds(|buffer|, 0, 4 * n, rows, n) && IsImage(img, |img|, width)
    requires y0 + |img| <= rows && x0 + width <= n && y < rows && x < n
    requires !(y0 <= y < y0 + |img| && x0 <= x < x0 + width)
    ensures RowStart(0, 4 * n, y) + 4 * x + 4 <= |buffer|
    ensures PixelAt(Pasted(buffer, n, rows, y0, x0, img, width), RowStart(0, 4 * n, y) + 4 * x)
         == PixelAt(buffer, RowStart(0, 4 * n, y) + 4 * x)
  {
    hide RowStart, Pasted, BufferHolds;
    OutsideByte(buffer, n, rows, y0, x0, img, width, y, x, 0);
    OutsideByte(buffer, n, rows, y0, x0, img, width, y, x, 1);
    OutsideByte(buffer, n, rows, y0, x0, img, width, y, x, 2);
    OutsideByte(buffer, n, rows, y0, x0, img, width, y, x, 3);
  }

  lemma {:induction false} InsidePixel(
    buffer: seq<byte>, n: nat, rows: nat, y0: nat, x0: nat, img: seq<seq<Pixel>>, width: nat, r: nat, k: nat)
    requires BufferHolds(|buffer|, 0, 4 * n, rows, n) && IsImage(img, |img|, width)
    requires y0 + |img| <= rows && x0 + width <= n && r < |img| && k < width
    ensures RowStart(0, 4 * n, y0 + r) + 4 * (x0 + k) + 4 <= |buffer|
    ensures PixelAt(Pasted(buffer, n, rows, y0, x0, img, width), RowStart(0, 4 * n, y0 + r) + 4 * (x0 + k))
         == img[r][k]
  {
    hide RowStart, StoreRows, BufferOffset, PixelAt, PixelRow;
    RectangleHeld(|buffer|, n, rows, y0, x0, |img|, width);
    PixelInBuffer(n, y0, x0, r, k);
    var after, at := Pasted(buffer, n, rows, y0, x0, img, width), BufferOffset(4 * n, y0, x0);
    assert RowStart(at, 4 * n, r) + 4 * width <= |buffer|;
    hide BufferHolds;
    StoredRowReadsBack(buffer, at, 4 * n, img, width, r);
    PixelOfRow(after, RowStart(at, 4 * n, r), width, k);
  }

  lemma {:induction false} PixelOfRow(buffer: seq<byte>, at: nat, n: nat, k: nat)
    requires at + 4 * n <= |buffer| && k < n
    ensures PixelRow(buffer, at, n)[k] == PixelAt(buffer, at + 4 * k)
  {
  }

  /** Pasting replaces exactly the pixels of a rectangle. */
  lemma {:induction false} PastedImage(
    buffer: seq<byte>, n: nat, rows: nat, y0: nat, x0: nat, img: seq<seq<Pixel>>, width: nat, y: nat, x: nat)
    requires BufferHolds(|buffer|, 0, 4 * n, rows, n) && IsImage(img, |img|, width)
    requires y0 + |img| <= rows && x0 + width <= n && y < rows && x < n
    ensures BufferImage(Pasted(buffer, n, rows, y0, x0, img, width), 0, 4 * n, rows, n)[y][x]
         == if y0 <= y < y0 + |img| && x0 <= x < x0 + width then img[y - y0][x - x0]
            else BufferImage(buffer, 0, 4 * n, rows, n)[y][x]
  {
    var after, at := Pasted(buffer, n, rows, y0, x0, img, width), RowStart(0, 4 * n, y);
    assert at + 4 * n <= |buffer|;
    assert BufferImage(after, 0, 4 * n, rows, n)[y] == PixelRow(after, at, n);
    assert BufferImage(buffer, 0, 4 * n, rows, n)[y] == PixelRow(buffer, at, n);
    PixelOfRow(after, at, n, x);
    PixelOfRow(buffer, at, n, x);
    hide RowStart, Pasted, PixelAt, PixelRow, BufferImage;
    if y0 <= y < y0 + |img| && x0 <= x < x0 + width {
      InsidePixel(buffer, n, rows, y0, x0, img, width, y - y0, x - x0);
    } else {
      OutsidePixel(buffer, n, rows, y0, x0, img, width, y, x);
    }
  }

  /** VIDEO_TO_BUFFER replaces exactly the pixels of the destination rectangle of an image in the buffer, by those of
      the source rectangle of the screen. */
  lemma {:induction false} ScreenReads(
    call: Call, screen: seq<Pixel>, h: nat, v: nat, buffer: seq<byte>, img: seq<seq<Pixel>>, n: nat, y: nat, x: nat)
    requires call.operation == VIDEO_TO_BUFFER && |screen| == Area(h, v) && call.Accepted(h, v)
    requires HoldsImage(buffer, img, n) && HasRowsOf(call, n)
    requires call.destinationY + call.height <= |img| && call.destinationX + call.width <= n
    requires y < |img| && x < n
    ensures call.Usable(h, v, |buffer|)
    ensures var r, k := y - call.destinationY, x - call.destinationX;
            BufferImage(call.ReadInto(screen, h, v, buffer), 0, 4 * n, |img|, n)[y][x]
            == if 0 <= r < call.height && 0 <= k < call.width
               then PixelOf(screen, h, v, call.sourceY + r, call.sourceX + k) else img[y][x]
  {
    StrideOfRows(call, n);
    RectangleHeld(|buffer|, n, |img|, call.destinationY, call.destinationX, call.height, call.width);
    var crop := Crop(screen, h, v, call.sourceY, call.sourceX, call.height, call.width);
    assert Pasted(buffer, n, |img|, call.destinationY, call.destinationX, crop, call.width)
        == call.ReadInto(screen, h, v, buffer);
    hide Call.ReadInto, Pasted, BufferOffset;
    PastedImage(buffer, n, |img|, call.destinationY, call.destinationX, crop, call.width, y, x);
  }
}
