/** Pixels on an upside-down linear screen and in a byte buffer, and what copying rectangles of them means
    (section 12.9 of the UEFI Specification). */
module GopPixels {
  import opened Bytes

  datatype Pixel = Pixel(blue: byte, green: byte, red: byte, reserved: byte) {
    function Byte(j: nat): byte
      requires j < 4
    {
      if j == 0 then blue else if j == 1 then green else if j == 2 then red else reserved
    }
  }

  // ---------------------------------------------------------------- The screen

  /** The length of `n` rows that begin `size` apart: `n * size`, added up row by row. */
  function Rows(n: nat, size: nat): nat {
    if n == 0 then 0 else Rows(n - 1, size) + size
  }

  lemma {:induction false} RowsIsProduct(n: nat, size: nat)
    ensures Rows(n, size) == n * size
  {
    if n > 0 {
      RowsIsProduct(n - 1, size);
    }
  }

  lemma {:induction false} RowsAdd(a: nat, b: nat, size: nat)
    ensures Rows(a + b, size) == Rows(a, size) + Rows(b, size)
  {
    if b > 0 {
      RowsAdd(a, b - 1, size);
    }
  }

  lemma {:induction false} RowsGrow(a: nat, b: nat, size: nat)
    requires a < b
    ensures Rows(a, size) + size <= Rows(b, size)
  {
    RowsAdd(a + 1, b - a - 1, size);
  }

  /** The number of pixels of a screen. */
  function Area(h: nat, v: nat): nat {
    Rows(v, h)
  }

  /** Where the pixel in row `y` and column `x` is stored: the first row of the buffer is the bottom of the image. */
  function Index(h: nat, v: nat, y: nat, x: nat): (i: nat)
    requires y < v
  {
    Rows(v - y - 1, h) + x
  }

  lemma {:induction false} RowInside(h: nat, v: nat, y: nat, x: nat, n: nat)
    requires y < v && x + n <= h
    ensures Index(h, v, y, x) + n <= Area(h, v)
  {
    RowsGrow(v - y - 1, v, h);
  }

  /** Different rows are stored apart. */
  lemma {:induction false} RowsApart(h: nat, v: nat, y: nat, x: nat, y': nat, x': nat)
    requires y < v && y' < v && x < h && x' < h && y < y'
    ensures Index(h, v, y', x') < Index(h, v, y, 0) && Index(h, v, y', 0) + h <= Index(h, v, y, x)
  {
    RowsGrow(v - 1 - y', v - 1 - y, h);
  }

  predicate OnScreen(h: nat, v: nat, y: int, x: int) {
    0 <= y < v && 0 <= x < h
  }

  function PixelOf(screen: seq<Pixel>, h: nat, v: nat, y: nat, x: nat): Pixel
    requires |screen| == Area(h, v) && OnScreen(h, v, y, x)
  {
    RowInside(h, v, y, x, 1);
    screen[Index(h, v, y, x)]
  }

  lemma {:induction false} IndexOfSlot(h: nat, v: nat, i: nat) returns (y: nat, x: nat)
    requires i < Area(h, v)
    ensures OnScreen(h, v, y, x) && Index(h, v, y, x) == i
  {
    if Rows(v - 1, h) <= i {
      y, x := 0, i - Rows(v - 1, h);
    } else {
      y, x := IndexOfSlot(h, v - 1, i);
      y := y + 1;
    }
  }

  /** Storing a row of pixels in the buffer changes just those pixels of the image. */
  lemma {:induction false} RowStored(screen: seq<Pixel>, h: nat, v: nat, y: nat, x: nat, row: seq<Pixel>)
    requires |screen| == Area(h, v) && y < v && x + |row| <= h
    ensures Index(h, v, y, x) + |row| <= |screen|
    ensures forall y': nat, x': nat :: OnScreen(h, v, y', x') ==>
              PixelOf(Store(screen, Index(h, v, y, x), row), h, v, y', x')
              == if y' == y && x <= x' < x + |row| then row[x' - x] else PixelOf(screen, h, v, y', x')
  {
    RowInside(h, v, y, x, |row|);
    hide Index, Area;
    forall y': nat, x': nat | OnScreen(h, v, y', x')
      ensures PixelOf(Store(screen, Index(h, v, y, x), row), h, v, y', x')
           == if y' == y && x <= x' < x + |row| then row[x' - x] else PixelOf(screen, h, v, y', x')
    {
      RowInside(h, v, y', x', 1);
      if y' < y {
        RowsApart(h, v, y', x', y, 0);
      } else if y < y' {
        RowsApart(h, v, y, 0, y', x');
      }
    }
  }

  // ---------------------------------------------------------------- Rectangles

  /** `img` is a list of `height` rows of `width` pixels. */
  predicate IsImage(img: seq<seq<Pixel>>, height: nat, width: nat) {
    |img| == height && forall r :: 0 <= r < height ==> |img[r]| == width
  }

  /** `width` pixels of row `y` of the screen, from column `x0`. */
  function RowOf(screen: seq<Pixel>, h: nat, v: nat, y: nat, x0: nat, width: nat): (row: seq<Pixel>)
    requires |screen| == Area(h, v) && y < v && x0 + width <= h
    ensures |row| == width && forall k: nat :: k < width ==> row[k] == PixelOf(screen, h, v, y, x0 + k)
  {
    seq(width, k requires 0 <= k < width => PixelOf(screen, h, v, y, x0 + k))
  }

  /** The part of the screen with its corner in row `y0` and column `x0`. */
  function Crop(screen: seq<Pixel>, h: nat, v: nat, y0: nat, x0: nat, height: nat, width: nat): (img: seq<seq<Pixel>>)
    requires |screen| == Area(h, v) && y0 + height <= v && x0 + width <= h
    ensures |img| == height && forall r: nat :: r < height ==> img[r] == RowOf(screen, h, v, y0 + r, x0, width)
    ensures IsImage(img, height, width)
  {
    seq(height, r requires 0 <= r < height => RowOf(screen, h, v, y0 + r, x0, width))
  }

  /** `after` shows the rows `lo` to `hi` of `img`, whose corner is in row `y0` and column `x0`,
      and what `before` showed everywhere else. */
  ghost predicate PaintedRows(before: seq<Pixel>, after: seq<Pixel>, h: nat, v: nat, y0: nat, x0: nat,
                              img: seq<seq<Pixel>>, lo: nat, hi: nat)
    requires |before| == Area(h, v) && hi <= |img|
  {
    && |after| == Area(h, v)
    && (forall y: nat, x: nat :: OnScreen(h, v, y, x) ==>
          PixelOf(after, h, v, y, x)
          == if y0 + lo <= y < y0 + hi && x0 <= x < x0 + |img[y - y0]| then img[y - y0][x - x0]
             else PixelOf(before, h, v, y, x))
  }

  ghost predicate Painted(before: seq<Pixel>, after: seq<Pixel>, h: nat, v: nat, y0: nat, x0: nat, img: seq<seq<Pixel>>)
    requires |before| == Area(h, v)
  {
    PaintedRows(before, after, h, v, y0, x0, img, 0, |img|)
  }

  lemma {:induction false} PaintNothing(
    before: seq<Pixel>, h: nat, v: nat, y0: nat, x0: nat, img: seq<seq<Pixel>>, n: nat)
    requires |before| == Area(h, v) && n <= |img|
    ensures PaintedRows(before, before, h, v, y0, x0, img, n, n)
  {
  }

  /** Storing row `r` of the image next to the rows painted so far paints one row more, at either end. */
  lemma {:induction false} PaintRow(before: seq<Pixel>, now: seq<Pixel>, h: nat, v: nat, y0: nat, x0: nat,
                                    img: seq<seq<Pixel>>, width: nat, lo: nat, hi: nat, r: nat)
    requires |before| == Area(h, v) && lo <= hi <= |img| && PaintedRows(before, now, h, v, y0, x0, img, lo, hi)
    requires IsImage(img, |img|, width) && y0 + |img| <= v && x0 + width <= h
    requires r < |img| && (r == hi || r + 1 == lo)
    ensures Index(h, v, y0 + r, x0) + width <= |now|
    ensures var now' := Store(now, Index(h, v, y0 + r, x0), img[r]);
            && (r == hi ==> PaintedRows(before, now', h, v, y0, x0, img, lo, hi + 1))
            && (r + 1 == lo ==> PaintedRows(before, now', h, v, y0, x0, img, lo - 1, hi))
  {
    RowStored(now, h, v, y0 + r, x0, img[r]);
  }

  /** A row of the screen is stored in one piece. */
  lemma {:induction false} StoredRow(screen: seq<Pixel>, h: nat, v: nat, y: nat, x0: nat, width: nat)
    requires |screen| == Area(h, v) && y < v && x0 + width <= h
    ensures var i := Index(h, v, y, x0);
            i + width <= |screen| && screen[i..i + width] == RowOf(screen, h, v, y, x0, width)
  {
    RowInside(h, v, y, x0, width);
    var i, row := Index(h, v, y, x0), RowOf(screen, h, v, y, x0, width);
    forall k | 0 <= k < width
      ensures screen[i..i + width][k] == row[k]
    {
    }
  }

  /** A source row outside the rows painted so far is still what it was before. */
  lemma {:induction false} SourceRowIntact(before: seq<Pixel>, now: seq<Pixel>, h: nat, v: nat, y0: nat, x0: nat,
                                           sy: nat, sx: nat, height: nat, width: nat, lo: nat, hi: nat, r: nat)
    requires |before| == Area(h, v) && sy + height <= v && sx + width <= h && lo <= hi <= height && r < height
    requires PaintedRows(before, now, h, v, y0, x0, Crop(before, h, v, sy, sx, height, width), lo, hi)
    requires sy + r < y0 + lo || y0 + hi <= sy + r
    ensures RowOf(now, h, v, sy + r, sx, width) == Crop(before, h, v, sy, sx, height, width)[r]
  {
    var a, b := RowOf(now, h, v, sy + r, sx, width), RowOf(before, h, v, sy + r, sx, width);
    forall k | 0 <= k < width
      ensures a[k] == b[k]
    {
      assert OnScreen(h, v, sy + r, sx + k);
    }
  }

  /** What is painted can be cropped again. */
  lemma {:induction false} PaintedCrop(
    before: seq<Pixel>, after: seq<Pixel>, h: nat, v: nat, y0: nat, x0: nat, img: seq<seq<Pixel>>, width: nat)
    requires |before| == Area(h, v) && Painted(before, after, h, v, y0, x0, img)
    requires IsImage(img, |img|, width) && y0 + |img| <= v && x0 + width <= h
    ensures Crop(after, h, v, y0, x0, |img|, width) == img
  {
    var crop := Crop(after, h, v, y0, x0, |img|, width);
    forall r | 0 <= r < |img|
      ensures crop[r] == img[r]
    {
      var row := RowOf(after, h, v, y0 + r, x0, width);
      forall k | 0 <= k < width
        ensures row[k] == img[r][k]
      {
        assert OnScreen(h, v, y0 + r, x0 + k);
      }
    }
  }

  /** The painted screen is determined, slot for slot, by the screen before and the image. */
  lemma {:induction false} PaintedUnique(
    before: seq<Pixel>, a: seq<Pixel>, b: seq<Pixel>, h: nat, v: nat, y0: nat, x0: nat, img: seq<seq<Pixel>>)
    requires |before| == Area(h, v)
    requires Painted(before, a, h, v, y0, x0, img) && Painted(before, b, h, v, y0, x0, img)
    ensures a == b
  {
    forall i | 0 <= i < Area(h, v)
      ensures a[i] == b[i]
    {
      var y, x := IndexOfSlot(h, v, i);
      assert PixelOf(a, h, v, y, x) == PixelOf(b, h, v, y, x);
    }
  }

  // ---------------------------------------------------------------- The byte buffer

  function PixelAt(buffer: seq<byte>, at: nat): Pixel
    requires at + 4 <= |buffer|
  {
    Pixel(buffer[at], buffer[at + 1], buffer[at + 2], buffer[at + 3])
  }

  /** `n` pixels from the bytes at `at`. */
  function PixelRow(buffer: seq<byte>, at: nat, n: nat): (row: seq<Pixel>)
    requires at + 4 * n <= |buffer|
    ensures |row| == n
  {
    seq(n, k requires 0 <= k < n => PixelAt(buffer, at + 4 * k))
  }

  function RowBytes(row: seq<Pixel>): (data: seq<byte>)
    ensures |data| == 4 * |row|
  {
    seq(4 * |row|, j requires 0 <= j < 4 * |row| => row[j / 4].Byte(j % 4))
  }

  lemma {:induction false} BytesOfRow(buffer: seq<byte>, at: nat, n: nat)
    requires at + 4 * n <= |buffer|
    ensures RowBytes(PixelRow(buffer, at, n)) == buffer[at..at + 4 * n]
  {
    var row := PixelRow(buffer, at, n);
    forall j | 0 <= j < 4 * n
      ensures RowBytes(row)[j] == buffer[at + j]
    {
      assert j == 4 * (j / 4) + j % 4;
      assert row[j / 4] == PixelAt(buffer, at + 4 * (j / 4));
    }
  }

  lemma {:induction false} PixelOfBytes(row: seq<Pixel>, buffer: seq<byte>, at: nat, k: nat)
    requires at + 4 * |row| <= |buffer| && buffer[at..at + 4 * |row|] == RowBytes(row)
    requires k < |row|
    ensures PixelAt(buffer, at + 4 * k) == row[k]
  {
    var slice, j := buffer[at..at + 4 * |row|], 4 * k;
    assert slice[j] == buffer[at + j] && slice[j + 1] == buffer[at + j + 1];
    assert slice[j + 2] == buffer[at + j + 2] && slice[j + 3] == buffer[at + j + 3];
    assert j / 4 == (j + 1) / 4 == (j + 2) / 4 == (j + 3) / 4 == k;
    assert j % 4 == 0 && (j + 1) % 4 == 1 && (j + 2) % 4 == 2 && (j + 3) % 4 == 3;
  }

  lemma {:induction false} RowOfBytes(row: seq<Pixel>, buffer: seq<byte>, at: nat)
    requires at + 4 * |row| <= |buffer| && buffer[at..at + 4 * |row|] == RowBytes(row)
    ensures PixelRow(buffer, at, |row|) == row
  {
    forall k | 0 <= k < |row|
      ensures PixelAt(buffer, at + 4 * k) == row[k]
    {
      PixelOfBytes(row, buffer, at, k);
    }
  }

  /** The byte in front of column `x` of row `y` of a buffer. */
  function BufferOffset(delta: nat, y: nat, x: nat): nat {
    Rows(y, delta) + x * 4
  }

  /** Where row `r` of a rectangle in the buffer begins. */
  function RowStart(at: nat, delta: nat, r: nat): nat {
    at + Rows(r, delta)
  }

  /** The buffer holds `height` rows of `width` pixels, `delta` bytes from row to row. */
  predicate BufferHolds(size: nat, at: nat, delta: nat, height: nat, width: nat) {
    forall r: nat :: r < height ==> RowStart(at, delta, r) + 4 * width <= size
  }

  function BufferImage(buffer: seq<byte>, at: nat, delta: nat, height: nat, width: nat): (img: seq<seq<Pixel>>)
    requires BufferHolds(|buffer|, at, delta, height, width)
    ensures IsImage(img, height, width)
  {
    seq(height, r requires 0 <= r < height => PixelRow(buffer, RowStart(at, delta, r), width))
  }

  /** The buffer after the rows of `img` have been stored from first to last. With a stride of less than a row,
      a later row covers the end of an earlier one. */
  function StoreRows(buffer: seq<byte>, at: nat, delta: nat, img: seq<seq<Pixel>>, width: nat): (after: seq<byte>)
    requires IsImage(img, |img|, width) && BufferHolds(|buffer|, at, delta, |img|, width)
    ensures |after| == |buffer|
    decreases |img|
  {
    if img == [] then buffer
    else
      var n := |img| - 1;
      Store(StoreRows(buffer, at, delta, img[..n], width), RowStart(at, delta, n), RowBytes(img[n]))
  }

  /** `now` is `buffer` with the first `k` rows of `img` stored. */
  ghost predicate StoredRows(
    buffer: seq<byte>, now: seq<byte>, at: nat, delta: nat, img: seq<seq<Pixel>>, width: nat, k: nat)
    requires IsImage(img, |img|, width) && BufferHolds(|buffer|, at, delta, |img|, width)
  {
    k <= |img| && now == StoreRows(buffer, at, delta, img[..k], width)
  }

  lemma {:induction false} StoredNone(buffer: seq<byte>, at: nat, delta: nat, img: seq<seq<Pixel>>, width: nat)
    requires IsImage(img, |img|, width) && BufferHolds(|buffer|, at, delta, |img|, width)
    ensures StoredRows(buffer, buffer, at, delta, img, width, 0)
  {
  }

  lemma {:induction false} StoredNext(
    buffer: seq<byte>, now: seq<byte>, at: nat, delta: nat, img: seq<seq<Pixel>>, width: nat, k: nat)
    requires IsImage(img, |img|, width) && BufferHolds(|buffer|, at, delta, |img|, width)
    requires StoredRows(buffer, now, at, delta, img, width, k) && k < |img|
    ensures RowStart(at, delta, k) + 4 * width <= |now|
    ensures StoredRows(buffer, Store(now, RowStart(at, delta, k), RowBytes(img[k])), at, delta, img, width, k + 1)
  {
    assert img[..k + 1][..k] == img[..k];
  }

  lemma {:induction false} StoredAll(
    buffer: seq<byte>, now: seq<byte>, at: nat, delta: nat, img: seq<seq<Pixel>>, width: nat)
    requires IsImage(img, |img|, width) && BufferHolds(|buffer|, at, delta, |img|, width)
    requires StoredRows(buffer, now, at, delta, img, width, |img|)
    ensures now == StoreRows(buffer, at, delta, img, width)
  {
    assert img[..|img|] == img;
  }

  lemma {:induction false} StartsGrow(at: nat, delta: nat, r: nat, n: nat)
    requires r < n
    ensures RowStart(at, delta, r) + delta <= RowStart(at, delta, n)
  {
    RowsGrow(r, n, delta);
  }

  lemma {:induction false} NextStart(at: nat, delta: nat, n: nat)
    requires n > 0
    ensures RowStart(at, delta, n) == RowStart(at, delta, n - 1) + delta
  {
  }

  /** A row that is stored behind another one leaves it as it was. */
  lemma {:induction false} KeptRow(before: seq<byte>, after: seq<byte>, from: nat, at: nat, width: nat, row: seq<Pixel>)
    requires |row| == width && from + 4 * width <= at && at + 4 * width <= |before|
    requires after == Store(before, at, RowBytes(row))
    ensures PixelRow(after, from, width) == PixelRow(before, from, width)
  {
  }

  /** With a stride of at least one row every stored row is read back as it was. */
  lemma {:induction false} StoredRowReadsBack(
    buffer: seq<byte>, at: nat, delta: nat, img: seq<seq<Pixel>>, width: nat, r: nat)
    requires IsImage(img, |img|, width) && BufferHolds(|buffer|, at, delta, |img|, width)
    requires r < |img| && (delta >= 4 * width || r == |img| - 1)
    ensures PixelRow(StoreRows(buffer, at, delta, img, width), RowStart(at, delta, r), width) == img[r]
    decreases |img|
  {
    hide RowStart, PixelRow, RowBytes;
    var n := |img| - 1;
    var after := StoreRows(buffer, at, delta, img, width);
    if r == n {
      assert after[RowStart(at, delta, n)..RowStart(at, delta, n) + 4 * width] == RowBytes(img[n]);
      RowOfBytes(img[n], after, RowStart(at, delta, n));
    } else {
      var before := StoreRows(buffer, at, delta, img[..n], width);
      StoredRowReadsBack(buffer, at, delta, img[..n], width, r);
      StartsGrow(at, delta, r, n);
      KeptRow(before, after, RowStart(at, delta, r), RowStart(at, delta, n), width, img[n]);
    }
  }

  /** Bytes between the rows, before them and after them stay as they were. */
  lemma {:induction false} StoreRowsFrame(
    buffer: seq<byte>, at: nat, delta: nat, img: seq<seq<Pixel>>, width: nat, i: nat)
    requires IsImage(img, |img|, width) && BufferHolds(|buffer|, at, delta, |img|, width)
    requires i < |buffer|
    requires forall r: nat :: r < |img| ==> !(RowStart(at, delta, r) <= i < RowStart(at, delta, r) + 4 * width)
    ensures StoreRows(buffer, at, delta, img, width)[i] == buffer[i]
    decreases |img|
  {
    if img != [] {
      StoreRowsFrame(buffer, at, delta, img[..|img| - 1], width, i);
    }
  }

  /** The last row of an image that comes from a buffer with the same layout. */
  lemma {:induction false} CopiedLast(
    source: seq<byte>, target: seq<byte>, at: nat, delta: nat, height: nat, width: nat, i: nat)
    requires BufferHolds(|source|, at, delta, height, width) && BufferHolds(|target|, at, delta, height, width)
    requires height > 0 && i < |target|
    ensures var from := RowStart(at, delta, height - 1);
            StoreRows(target, at, delta, BufferImage(source, at, delta, height, width), width)[i]
            == if from <= i < from + 4 * width then source[i]
               else StoreRows(target, at, delta, BufferImage(source, at, delta, height - 1, width), width)[i]
  {
    hide RowStart, RowBytes, PixelRow;
    var n := height - 1;
    var from := RowStart(at, delta, n);
    assert BufferImage(source, at, delta, height, width)[..n] == BufferImage(source, at, delta, n, width);
    BytesOfRow(source, from, width);
    if from <= i < from + 4 * width {
      assert source[from..from + 4 * width][i - from] == source[i];
    }
  }

  /** Rows that come from a buffer with the same layout agree where they overlap, so every byte of them gets through,
      whatever the stride is. */
  lemma {:induction false} CopiedRowBytes(
    source: seq<byte>, target: seq<byte>, at: nat, delta: nat, height: nat, width: nat, r: nat, j: nat)
    requires BufferHolds(|source|, at, delta, height, width) && BufferHolds(|target|, at, delta, height, width)
    requires r < height && j < 4 * width
    ensures StoreRows(target, at, delta, BufferImage(source, at, delta, height, width), width)
              [RowStart(at, delta, r) + j]
         == source[RowStart(at, delta, r) + j]
    decreases height
  {
    hide RowStart, StoreRows, BufferImage;
    var i, from := RowStart(at, delta, r) + j, RowStart(at, delta, height - 1);
    CopiedLast(source, target, at, delta, height, width, i);
    if !(from <= i < from + 4 * width) {
      CopiedRowBytes(source, target, at, delta, height - 1, width, r, j);
    }
  }

  lemma {:induction false} CopiedRow(
    source: seq<byte>, target: seq<byte>, at: nat, delta: nat, height: nat, width: nat, r: nat)
    requires BufferHolds(|source|, at, delta, height, width) && BufferHolds(|target|, at, delta, height, width)
    requires r < height
    ensures var img := BufferImage(source, at, delta, height, width);
            PixelRow(StoreRows(target, at, delta, img, width), RowStart(at, delta, r), width) == img[r]
  {
    hide StoreRows, RowStart;
    var img := BufferImage(source, at, delta, height, width);
    var after, from := StoreRows(target, at, delta, img, width), RowStart(at, delta, r);
    var a, b := after[from..from + 4 * width], source[from..from + 4 * width];
    forall j | 0 <= j < |a|
      ensures a[j] == b[j]
    {
      CopiedRowBytes(source, target, at, delta, height, width, r, j);
    }
    BytesOfRow(source, from, width);
    RowOfBytes(img[r], after, from);
  }

  /** Storing what was read with the same layout brings it back, for every stride. */
  lemma {:induction false} CopiedImage(
    source: seq<byte>, target: seq<byte>, at: nat, delta: nat, height: nat, width: nat)
    requires BufferHolds(|source|, at, delta, height, width) && BufferHolds(|target|, at, delta, height, width)
    ensures var img := BufferImage(source, at, delta, height, width);
            BufferImage(StoreRows(target, at, delta, img, width), at, delta, height, width) == img
  {
    hide StoreRows, RowStart, PixelRow;
    forall r | 0 <= r < height
      ensures var img := BufferImage(source, at, delta, height, width);
              PixelRow(StoreRows(target, at, delta, img, width), RowStart(at, delta, r), width) == img[r]
    {
      CopiedRow(source, target, at, delta, height, width, r);
    }
  }

  lemma {:induction false} CopyToItself(source: seq<byte>, at: nat, delta: nat, height: nat, width: nat)
    requires BufferHolds(|source|, at, delta, height, width)
    ensures StoreRows(source, at, delta, BufferImage(source, at, delta, height, width), width) == source
    decreases height
  {
    if height > 0 {
      CopyToItself(source, at, delta, height - 1, width);
      var after := StoreRows(source, at, delta, BufferImage(source, at, delta, height, width), width);
      forall i | 0 <= i < |source|
        ensures after[i] == source[i]
      {
        CopiedLast(source, source, at, delta, height, width, i);
      }
    }
  }

  /** Exactly which strides deliver every image: those of at least one row, or any stride for a single row. */
  lemma {:induction false} StrideIff(buffer: seq<byte>, at: nat, delta: nat, height: nat, width: nat)
    requires BufferHolds(|buffer|, at, delta, height, width) && height > 0 && width > 0
    ensures (forall img :: IsImage(img, height, width) ==>
               BufferImage(StoreRows(buffer, at, delta, img, width), at, delta, height, width) == img)
            <==> delta >= 4 * width || height == 1
  {
    if delta >= 4 * width || height == 1 {
      forall img | IsImage(img, height, width)
        ensures BufferImage(StoreRows(buffer, at, delta, img, width), at, delta, height, width) == img
      {
        forall r | 0 <= r < height
          ensures BufferImage(StoreRows(buffer, at, delta, img, width), at, delta, height, width)[r] == img[r]
        {
          StoredRowReadsBack(buffer, at, delta, img, width, r);
        }
      }
    } else {
      ShortStrideLoses(buffer, at, delta, height, width);
    }
  }

  /** With a shorter stride the second row covers the last pixel of the first: an image whose last row differs from
      the others is not delivered. */
  lemma {:induction false} ShortStrideLoses(buffer: seq<byte>, at: nat, delta: nat, height: nat, width: nat)
    requires BufferHolds(|buffer|, at, delta, height, width) && height > 1 && delta < 4 * width
    ensures exists img :: IsImage(img, height, width)
                       && BufferImage(StoreRows(buffer, at, delta, img, width), at, delta, height, width) != img
  {
    var n: nat := height - 1;
    var img := TwoToned(height, width);
    hide TwoToned;
    var after := StoreRows(buffer, at, delta, img, width);
    StoredRowReadsBack(buffer, at, delta, img, width, n);
    NextStart(at, delta, n);
    var from, to := RowStart(at, delta, n - 1), RowStart(at, delta, n);
    hide RowStart, StoreRows, PixelRow, RowBytes, PlainRow;
    RowByte(after, from, width, 4 * width - 1);
    RowByte(after, to, width, 4 * width - 1 - delta);
    PlainByte(width, 1, 4 * width - 1 - delta);
    PlainByte(width, 0, 4 * width - 1);
    assert BufferImage(after, at, delta, height, width)[n - 1] != img[n - 1];
  }

  /** A row of equal bytes. */
  function PlainRow(width: nat, b: byte): (row: seq<Pixel>)
    ensures |row| == width
  {
    seq(width, _ => Pixel(b, b, b, b))
  }

  /** An image whose last row is light and whose other rows are dark. */
  function TwoToned(height: nat, width: nat): (img: seq<seq<Pixel>>)
    requires height > 1
    ensures |img| == height
    ensures forall r: nat :: r < height ==> img[r] == PlainRow(width, if r == height - 1 then 1 else 0)
    ensures IsImage(img, height, width)
    ensures img[height - 1] == PlainRow(width, 1) && img[height - 2] == PlainRow(width, 0)
  {
    seq(height, r requires 0 <= r < height => PlainRow(width, if r == height - 1 then 1 else 0))
  }

  lemma {:induction false} PlainByte(width: nat, b: byte, j: nat)
    requires j < 4 * width
    ensures RowBytes(PlainRow(width, b))[j] == b
  {
  }

  lemma {:induction false} RowByte(buffer: seq<byte>, at: nat, n: nat, j: nat)
    requires at + 4 * n <= |buffer| && j < 4 * n
    ensures RowBytes(PixelRow(buffer, at, n))[j] == buffer[at + j]
  {
    BytesOfRow(buffer, at, n);
    assert buffer[at..at + 4 * n][j] == buffer[at + j];
  }
}
