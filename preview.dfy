/** The density-threshold raster engine of client/src/preview.js: the per-image threshold map,
    its bounds-checked cell write, the circular brush, the thresholding pass over a canvas's
    RGBA bytes and the mapping from mouse position to buffer coordinates. */
module Preview {
  import opened Common

  // ---------------------------------------------------------------------------------------------
  // Row-major cell indexing

  /** Whether (x, y) lies inside a width x height buffer: the negation of setPixelDensity's guard. */
  predicate InBounds(width: nat, height: nat, x: int, y: int) {
    0 <= x < width && 0 <= y < height
  }

  /** Cell (x, y) of an in-bounds coordinate has index y * width + x, inside the map. */
  lemma {:induction false} CellIndexInRange(width: nat, height: nat, x: nat, y: nat)
    requires x < width && y < height
    ensures y * width + x < width * height
  {
    assert (height - y) * width == height * width - y * width;
    MulSign(height - y, width);
  }

  /** Index k of a width-wide map is the cell (k % width, k / width), and that cell's index is k again. */
  lemma {:induction false} CellOfIndex(width: nat, height: nat, k: nat)
    requires k < width * height
    ensures width > 0 && k % width < width && k / width < height
    ensures (k / width) * width + k % width == k
  {
    var q := k / width;
    assert q * width <= k;
    assert (height - q) * width == height * width - q * width;
    MulSign(height - q, width);
  }

  /** The cell index y * width + x determines the in-bounds cell (x, y). */
  lemma {:induction false} IndexOfCell(width: nat, x: nat, y: nat, k: nat)
    requires x < width && k == y * width + x
    ensures k % width == x && k / width == y
  {
    var q, r := k / width, k % width;
    assert k == q * width + r;
    assert (y - q) * width == r - x;
    MulSign(y - q, width);
  }

  // ---------------------------------------------------------------------------------------------
  // createDensityMap and setPixelDensity

  /** The `{map, width, height}` object of createDensityMap, its `map` named `cells` here. The
      `Uint8Array` is written in place but never replaced or resized, so the reference and the
      dimensions are constants. */
  class DensityMap {
    const width: nat
    const height: nat
    const cells: array<byte>

    ghost predicate Valid() {
      cells.Length == width * height
    }

    /** createDensityMap: a width * height map whose every cell holds the default density. */
    constructor (width: nat, height: nat, defaultD: byte)
      ensures Valid() && fresh(cells)
      ensures this.width == width && this.height == height
      ensures forall k :: 0 <= k < cells.Length ==> cells[k] == defaultD
    {
      this.width := width;
      this.height := height;
      var m := new byte[width * height];
      var i := 0;
      while i < m.Length
        invariant 0 <= i <= m.Length
        invariant forall k :: 0 <= k < i ==> m[k] == defaultD
      {
        m[i] := defaultD;
        i := i + 1;
      }
      cells := m;
    }

    /** setPixelDensity: write d at (x, y) when it is inside the map; do nothing otherwise. */
    method SetPixelDensity(x: int, y: int, d: byte)
      requires Valid()
      modifies cells
      ensures cells[..] == SetPixel(old(cells[..]), width, height, x, y, d)
    {
      if x < 0 || y < 0 || x >= width || y >= height {
        return;
      }
      CellIndexInRange(width, height, x, y);
      cells[y * width + x] := d;
    }

    /** The brush stamp of the mousemove handler: every offset (dx, dy) of the filled circle of
        radius brushSize around (mx, my) goes through SetPixelDensity, which clips. */
    method Paint(mx: int, my: int, brushSize: int, brushD: byte)
      requires Valid()
      modifies cells
      ensures cells[..] == Stamped(old(cells[..]), width, height, mx, my, brushSize, brushD)
    {
      ghost var m0 := cells[..];
      var dy := -brushSize;
      while dy <= brushSize
        invariant dy == -brushSize || -brushSize <= dy <= brushSize + 1
        invariant cells[..] == StampedUpTo(m0, width, height, mx, my, brushSize, brushD, dy, -brushSize)
      {
        var dx := -brushSize;
        while dx <= brushSize
          invariant -brushSize <= dx <= brushSize + 1
          invariant cells[..] == StampedUpTo(m0, width, height, mx, my, brushSize, brushD, dy, dx)
        {
          if dx * dx + dy * dy <= brushSize * brushSize {
            SetPixelDensity(mx + dx, my + dy, brushD);
          }
          StampStep(m0, width, height, mx, my, brushSize, brushD, dy, dx);
          dx := dx + 1;
        }
        StampNextRow(m0, width, height, mx, my, brushSize, brushD, dy);
        dy := dy + 1;
      }
      StampDone(m0, width, height, mx, my, brushSize, brushD, dy);
    }
  }

  /** The map after setPixelDensity(dm, x, y, d). */
  function SetPixel(m: seq<byte>, width: nat, height: nat, x: int, y: int, d: byte): (r: seq<byte>)
    requires |m| == width * height
    ensures |r| == |m|
  {
    if InBounds(width, height, x, y) then
      CellIndexInRange(width, height, x, y);
      m[y * width + x := d]
    else
      m
  }

  /** setPixelDensity's frame: an out-of-bounds write changes nothing, an in-bounds one changes
      cell (x, y) to d and every other cell of the map keeps its value. */
  lemma {:induction false} SetPixelCells(m: seq<byte>, width: nat, height: nat, x: int, y: int, d: byte, cx: nat, cy: nat)
    requires |m| == width * height && InBounds(width, height, cx, cy)
    ensures cy * width + cx < |m|
    ensures SetPixel(m, width, height, x, y, d)[cy * width + cx]
            == if cx == x && cy == y then d else m[cy * width + cx]
  {
    CellIndexInRange(width, height, cx, cy);
    if InBounds(width, height, x, y) && (cx != x || cy != y) {
      IndexOfCell(width, cx, cy, cy * width + cx);
      IndexOfCell(width, x, y, y * width + x);
    }
  }

  // ---------------------------------------------------------------------------------------------
  // The brush

  /** Offset (dx, dy) is visited by the brush loops and passes the circle test dx^2 + dy^2 <= r^2. */
  predicate InBrush(dx: int, dy: int, r: int) {
    -r <= dx <= r && -r <= dy <= r && dx * dx + dy * dy <= r * r
  }

  /** The map after one brush stamp: every in-bounds cell whose offset from (mx, my) is in the
      circle holds d; every other cell keeps its value. */
  function Stamped(m: seq<byte>, width: nat, height: nat, mx: int, my: int, r: int, d: byte): (s: seq<byte>)
    requires |m| == width * height
    ensures |s| == |m|
  {
    seq(|m|, k requires 0 <= k < |m| =>
      CellOfIndex(width, height, k);
      if InBrush(k % width - mx, k / width - my, r) then d else m[k])
  }

  /** What the brush does to cell (x, y), stated on the cell's coordinates. */
  lemma {:induction false} StampedCell(m: seq<byte>, width: nat, height: nat, mx: int, my: int, r: int, d: byte, x: nat, y: nat)
    requires |m| == width * height && InBounds(width, height, x, y)
    ensures y * width + x < |m|
    ensures Stamped(m, width, height, mx, my, r, d)[y * width + x]
            == if InBrush(x - mx, y - my, r) then d else m[y * width + x]
  {
    CellIndexInRange(width, height, x, y);
    IndexOfCell(width, x, y, y * width + x);
  }

  /** A stamp of radius 0 is exactly one setPixelDensity at the centre. */
  lemma {:induction false} StampRadiusZero(m: seq<byte>, width: nat, height: nat, mx: int, my: int, d: byte)
    requires |m| == width * height
    ensures Stamped(m, width, height, mx, my, 0, d) == SetPixel(m, width, height, mx, my, d)
  {
    var s := Stamped(m, width, height, mx, my, 0, d);
    var t := SetPixel(m, width, height, mx, my, d);
    forall k | 0 <= k < |m|
      ensures s[k] == t[k]
    {
      CellOfIndex(width, height, k);
      var x, y := k % width, k / width;
      SetPixelCells(m, width, height, mx, my, d, x, y);
      StampedCell(m, width, height, mx, my, 0, d, x, y);
    }
  }

  /** Stamping the same circle twice is the same as stamping it once. */
  lemma {:induction false} StampIdempotent(m: seq<byte>, width: nat, height: nat, mx: int, my: int, r: int, d: byte)
    requires |m| == width * height
    ensures Stamped(Stamped(m, width, height, mx, my, r, d), width, height, mx, my, r, d)
            == Stamped(m, width, height, mx, my, r, d)
  {
  }

  /** Offset (ox, oy) comes before (dy, dx) in the loops' row-by-row visiting order. */
  predicate Visited(ox: int, oy: int, dy: int, dx: int) {
    oy < dy || (oy == dy && ox < dx)
  }

  /** The map once the brush loops have visited every offset before (dx, dy). */
  ghost function StampedUpTo(m: seq<byte>, width: nat, height: nat, mx: int, my: int, r: int, d: byte,
                             dy: int, dx: int): (s: seq<byte>)
    requires |m| == width * height
    ensures |s| == |m|
  {
    seq(|m|, k requires 0 <= k < |m| =>
      CellOfIndex(width, height, k);
      var ox, oy := k % width - mx, k / width - my;
      if InBrush(ox, oy, r) && Visited(ox, oy, dy, dx) then d else m[k])
  }

  /** One iteration of the inner brush loop extends the visited region by offset (dx, dy). */
  lemma {:induction false} StampStep(m: seq<byte>, width: nat, height: nat, mx: int, my: int, r: int, d: byte, dy: int, dx: int)
    requires |m| == width * height
    ensures StampedUpTo(m, width, height, mx, my, r, d, dy, dx + 1)
            == if dx * dx + dy * dy <= r * r && -r <= dx <= r && -r <= dy <= r then
                 SetPixel(StampedUpTo(m, width, height, mx, my, r, d, dy, dx), width, height, mx + dx, my + dy, d)
               else StampedUpTo(m, width, height, mx, my, r, d, dy, dx)
  {
    if InBrush(dx, dy, r) {
      StampStepInside(m, width, height, mx, my, r, d, dy, dx);
    } else {
      StampStepOutside(m, width, height, mx, my, r, d, dy, dx);
    }
  }

  lemma {:induction false} StampStepInside(m: seq<byte>, width: nat, height: nat, mx: int, my: int, r: int, d: byte, dy: int, dx: int)
    requires |m| == width * height && InBrush(dx, dy, r)
    ensures StampedUpTo(m, width, height, mx, my, r, d, dy, dx + 1)
            == SetPixel(StampedUpTo(m, width, height, mx, my, r, d, dy, dx), width, height, mx + dx, my + dy, d)
  {
    var before := StampedUpTo(m, width, height, mx, my, r, d, dy, dx);
    var after := StampedUpTo(m, width, height, mx, my, r, d, dy, dx + 1);
    var expected := SetPixel(before, width, height, mx + dx, my + dy, d);
    forall k | 0 <= k < |m|
      ensures after[k] == expected[k]
    {
      CellOfIndex(width, height, k);
      SetPixelCells(before, width, height, mx + dx, my + dy, d, k % width, k / width);
    }
  }

  lemma {:induction false} StampStepOutside(m: seq<byte>, width: nat, height: nat, mx: int, my: int, r: int, d: byte, dy: int, dx: int)
    requires |m| == width * height && !InBrush(dx, dy, r)
    ensures StampedUpTo(m, width, height, mx, my, r, d, dy, dx + 1)
            == StampedUpTo(m, width, height, mx, my, r, d, dy, dx)
  {
  }

  /** Leaving row dy after its last offset is the same as entering row dy + 1. */
  lemma {:induction false} StampNextRow(m: seq<byte>, width: nat, height: nat, mx: int, my: int, r: int, d: byte, dy: int)
    requires |m| == width * height
    ensures StampedUpTo(m, width, height, mx, my, r, d, dy, r + 1)
            == StampedUpTo(m, width, height, mx, my, r, d, dy + 1, -r)
  {
  }

  /** Once every row up to r is visited, the partial stamp is the whole stamp. */
  lemma {:induction false} StampDone(m: seq<byte>, width: nat, height: nat, mx: int, my: int, r: int, d: byte, dy: int)
    requires |m| == width * height && dy > r
    ensures StampedUpTo(m, width, height, mx, my, r, d, dy, -r) == Stamped(m, width, height, mx, my, r, d)
  {
  }

  // ---------------------------------------------------------------------------------------------
  // applyDensityMap

  /** One output channel: black below the threshold, white from it on. */
  function Binarize(v: byte, t: byte): (o: byte)
    ensures o == 0 || o == 255
    ensures o == 0 <==> v < t
  {
    if v < t then 0 else 255
  }

  /** One RGBA pixel after the loop body: R, G and B become Binarize(R, t), alpha is kept. */
  function PixelOut(px: seq<byte>, t: byte): (out: seq<byte>)
    requires |px| == 4
    ensures |out| == 4 && out[0] == out[1] == out[2] && out[3] == px[3]
    ensures out[0] == 0 <==> px[0] < t
    ensures out[0] == 0 || out[0] == 255
  {
    var o := Binarize(px[0], t);
    [o, o, o, px[3]]
  }

  /** The RGBA bytes after applyDensityMap's loop over the first |m| pixels of data. */
  function Thresholded(data: seq<byte>, m: seq<byte>): (out: seq<byte>)
    requires |data| == 4 * |m|
    ensures |out| == |data|
  {
    if m == [] then []
    else
      var n := |m| - 1;
      Thresholded(data[..4 * n], m[..n]) + PixelOut(data[4 * n..], m[n])
  }

  /** Pixel i of the thresholded buffer: R, G and B are all 0 exactly when the source red byte is
      below m[i], all 255 otherwise; alpha is untouched. */
  lemma {:induction false} ThresholdedPixel(data: seq<byte>, m: seq<byte>, i: nat)
    requires |data| == 4 * |m| && i < |m|
    ensures var out := Thresholded(data, m);
      && (data[4 * i] < m[i] ==> out[4 * i] == out[4 * i + 1] == out[4 * i + 2] == 0)
      && (data[4 * i] >= m[i] ==> out[4 * i] == out[4 * i + 1] == out[4 * i + 2] == 255)
      && out[4 * i + 3] == data[4 * i + 3]
  {
    var n := |m| - 1;
    if i < n {
      ThresholdedPixel(data[..4 * n], m[..n], i);
    }
  }

  /** Every colour channel of the output is pure black or pure white. */
  lemma {:induction false} ThresholdedBinary(data: seq<byte>, m: seq<byte>, k: nat)
    requires |data| == 4 * |m| && k < |data| && k % 4 != 3
    ensures Thresholded(data, m)[k] == 0 || Thresholded(data, m)[k] == 255
  {
    ThresholdedPixel(data, m, k / 4);
  }

  /** The four output bytes of pixel i are PixelOut of the four source bytes of pixel i. */
  lemma {:induction false} ThresholdedSlice(data: seq<byte>, m: seq<byte>, i: nat)
    requires |data| == 4 * |m| && i < |m|
    ensures Thresholded(data, m)[4 * i .. 4 * i + 4] == PixelOut(data[4 * i .. 4 * i + 4], m[i])
  {
    ThresholdedPixel(data, m, i);
    var px := data[4 * i .. 4 * i + 4];
    assert px[0] == data[4 * i] && px[3] == data[4 * i + 3];
    var o := if data[4 * i] < m[i] then 0 else 255;
    assert PixelOut(px, m[i]) == [o, o, o, data[4 * i + 3]];
    FourBytes(Thresholded(data, m), 4 * i, [o, o, o, data[4 * i + 3]]);
  }

  /** The output of pixel i depends only on the source pixel's red and alpha bytes and m[i]. */
  lemma {:induction false} ThresholdedLocal(data1: seq<byte>, m1: seq<byte>, data2: seq<byte>, m2: seq<byte>, i: nat)
    requires |data1| == 4 * |m1| && |data2| == 4 * |m2| && i < |m1| && i < |m2|
    requires data1[4 * i] == data2[4 * i] && data1[4 * i + 3] == data2[4 * i + 3] && m1[i] == m2[i]
    ensures Thresholded(data1, m1)[4 * i .. 4 * i + 4] == Thresholded(data2, m2)[4 * i .. 4 * i + 4]
  {
    ThresholdedPixel(data1, m1, i);
    ThresholdedPixel(data2, m2, i);
    SamePixel(Thresholded(data1, m1), Thresholded(data2, m2), 4 * i);
  }

  /** Two buffers that agree on the four bytes from offset a have equal slices there. */
  lemma {:induction false} SamePixel(s1: seq<byte>, s2: seq<byte>, a: nat)
    requires a + 4 <= |s1| && a + 4 <= |s2|
    requires s1[a] == s2[a] && s1[a + 1] == s2[a + 1] && s1[a + 2] == s2[a + 2] && s1[a + 3] == s2[a + 3]
    ensures s1[a .. a + 4] == s2[a .. a + 4]
  {
    FourBytes(s1, a, s2[a .. a + 4]);
  }

  /** A buffer whose four bytes from offset a are those of t has t as its slice there. */
  lemma {:induction false} FourBytes(s: seq<byte>, a: nat, t: seq<byte>)
    requires a + 4 <= |s| && |t| == 4
    requires s[a] == t[0] && s[a + 1] == t[1] && s[a + 2] == t[2] && s[a + 3] == t[3]
    ensures s[a .. a + 4] == t
  {
    var u := s[a .. a + 4];
    assert u[0] == t[0] && u[1] == t[1] && u[2] == t[2] && u[3] == t[3];
  }

  /** A 4 x 4 image whose red bytes are all 100, loaded with density 127, renders all black; after
      a brush of radius 0 paints 50 at (2, 2), only that pixel (index 10) renders white. */
  lemma {:induction false} PaintScenario(img: seq<byte>, k: nat)
    requires |img| == 64 && k < 16
    requires forall j :: 0 <= j < |img| && j % 4 == 0 ==> img[j] == 100
    ensures var before := seq(16, _ => 127);
      var after := Stamped(before, 4, 4, 2, 2, 0, 50);
      && Thresholded(img, before)[4 * k] == 0
      && Thresholded(img, after)[4 * k] == if k == 10 then 255 else 0
  {
    var before: seq<byte> := seq(16, _ => 127);
    var after := Stamped(before, 4, 4, 2, 2, 0, 50);
    StampRadiusZero(before, 4, 4, 2, 2, 50);
    assert after == before[10 := 50];
    assert img[4 * k] == 100;
    ThresholdedPixel(img, before, k);
    ThresholdedPixel(img, after, k);
  }

  /** Thresholding one more pixel appends that pixel's output. */
  lemma {:induction false} ThresholdedExtend(data: seq<byte>, m: seq<byte>, i: nat)
    requires |data| == 4 * |m| && i < |m|
    ensures Thresholded(data[..4 * i + 4], m[..i + 1])
            == Thresholded(data[..4 * i], m[..i]) + PixelOut(data[4 * i..4 * i + 4], m[i])
  {
    assert data[..4 * i + 4][..4 * i] == data[..4 * i];
    assert m[..i + 1][..i] == m[..i];
    assert data[..4 * i + 4][4 * i..] == data[4 * i..4 * i + 4];
  }

  /** One pass of applyDensityMap's loop: writing pixel i's binarized value over its R, G and B
      bytes extends the thresholded prefix by one pixel and leaves the rest as drawn. */
  lemma {:induction false} ThresholdStep(img: seq<byte>, m: seq<byte>, i: nat, prev: seq<byte>, cur: seq<byte>)
    requires |img| == 4 * |m| && i < |m| && |prev| == |img|
    requires prev[..4 * i] == Thresholded(img[..4 * i], m[..i]) && prev[4 * i..] == img[4 * i..]
    requires var o := Binarize(prev[4 * i], m[i]);
      cur == prev[4 * i := o][4 * i + 1 := o][4 * i + 2 := o]
    ensures cur[..4 * (i + 1)] == Thresholded(img[..4 * (i + 1)], m[..i + 1])
    ensures cur[4 * (i + 1)..] == img[4 * (i + 1)..]
  {
    var o := Binarize(prev[4 * i], m[i]);
    assert prev[4 * i] == img[4 * i] && prev[4 * i + 3] == img[4 * i + 3] by {
      assert prev[4 * i..][0] == img[4 * i..][0] && prev[4 * i..][3] == img[4 * i..][3];
    }
    assert cur[..4 * i + 4] == prev[..4 * i] + [o, o, o, img[4 * i + 3]];
    ThresholdedExtend(img, m, i);
    assert cur[4 * i + 4..] == prev[4 * i..][4..];
  }

  /** applyDensityMap: draw the image's RGBA bytes onto the canvas buffer, then threshold its
      pixels in place against the map. getImageData throws on a zero width or height, so the map
      must have a positive area. */
  method ApplyDensityMap(img: seq<byte>, dm: DensityMap, canvas: array<byte>)
    requires dm.Valid() && dm.width > 0 && dm.height > 0 && canvas != dm.cells
    requires |img| == canvas.Length == 4 * dm.cells.Length
    modifies canvas
    ensures canvas[..] == Thresholded(img, dm.cells[..])
  {
    // drawImage + getImageData
    forall k | 0 <= k < canvas.Length {
      canvas[k] := img[k];
    }
    ghost var cells := dm.cells[..];
    var i := 0;
    while i < dm.cells.Length
      invariant 0 <= i <= dm.cells.Length
      invariant canvas[..4 * i] == Thresholded(img[..4 * i], cells[..i])
      invariant canvas[4 * i..] == img[4 * i..]
    {
      var v := canvas[i * 4];
      var thresh := dm.cells[i];
      var out: byte := if v < thresh then 0 else 255;
      ghost var prev: seq<byte> := canvas[..];
      canvas[i * 4], canvas[i * 4 + 1], canvas[i * 4 + 2] := out, out, out;
      assert canvas[..] == prev[4 * i := out][4 * i + 1 := out][4 * i + 2 := out];
      ThresholdStep(img, cells, i, prev, canvas[..]);
      i := i + 1;
    }
    assert img[..4 * i] == img && cells[..i] == cells;
  }

  // ---------------------------------------------------------------------------------------------
  // Mouse position to buffer coordinates

  /** The canvas's bounding client rectangle, in CSS pixels. */
  datatype Rect = Rect(left: real, top: real, width: real, height: real)

  /** One axis of the mousemove mapping: floor((client - start) * (canvasSize / rectSize)). */
  function ToBufferCoord(client: real, start: real, canvasSize: nat, rectSize: real): (b: int)
    requires rectSize > 0.0
    ensures b as real <= (client - start) * (canvasSize as real) / rectSize < b as real + 1.0
  {
    var v := (client - start) * (canvasSize as real / rectSize);
    MulDiv(client - start, canvasSize as real, rectSize);
    assert v == (client - start) * (canvasSize as real) / rectSize;
    assert v.Floor as real <= v < v.Floor as real + 1.0;
    v.Floor
  }

  lemma {:induction false} MulDiv(a: real, b: real, c: real)
    requires c > 0.0
    ensures a * (b / c) == a * b / c
  {
    assert b / c * c == b;
    assert a * (b / c) * c == a * b;
  }

  lemma {:induction false} RealMulNonneg(x: real, y: real)
    requires x >= 0.0 && y >= 0.0
    ensures x * y >= 0.0
  {
  }

  lemma {:induction false} RealMulPos(x: real, y: real)
    requires x > 0.0 && y > 0.0
    ensures x * y > 0.0
  {
  }

  /** A mouse position inside the displayed canvas maps to a cell inside the buffer, at any scale. */
  lemma {:induction false} ToBufferCoordInside(client: real, start: real, canvasSize: nat, rectSize: real)
    requires rectSize > 0.0 && canvasSize > 0 && start <= client < start + rectSize
    ensures 0 <= ToBufferCoord(client, start, canvasSize, rectSize) < canvasSize
  {
    var c := canvasSize as real;
    var t := (client - start) / rectSize;
    assert t * rectSize == client - start;
    assert t * rectSize - rectSize == (t - 1.0) * rectSize;
    if t >= 1.0 {
      RealMulNonneg(t - 1.0, rectSize);
    }
    if t < 0.0 {
      RealMulPos(-t, rectSize);
    }
    MulDiv(client - start, c, rectSize);
    assert (client - start) * c / rectSize == t * c by {
      assert (client - start) * c / rectSize * rectSize == (client - start) * c;
    }
    RealMulNonneg(t, c);
    assert c - t * c == (1.0 - t) * c;
    RealMulPos(1.0 - t, c);
  }

  /** Shown at 1:1, a mouse position a whole number n of pixels right of the canvas edge is on column n. */
  lemma {:induction false} ToBufferCoordUnscaled(start: real, canvasSize: nat, n: int)
    requires canvasSize > 0
    ensures ToBufferCoord(start + n as real, start, canvasSize, canvasSize as real) == n
  {
    var c := canvasSize as real;
    assert (start + n as real - start) * (c / c) == n as real;
  }

  /** A buffer 100 wide shown 200 wide at x = 10: the mouse at x = 60 is on column 25. */
  lemma {:induction false} ToBufferCoordExample()
    ensures ToBufferCoord(60.0, 10.0, 100, 200.0) == 25
  {
    assert (60.0 - 10.0) * (100.0 / 200.0) == 25.0;
  }
}
