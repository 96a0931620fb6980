/** The printer side of backend/printer.py: packing a 1-bit image into the ESC/POS "GS v 0"
    raster bit-image command, and the sequence of messages print_job writes to the printer. */
module Printer {
  import opened Common

  /** ESC @: initialise the printer. */
  const EscInit: seq<byte> := [0x1B, 0x40]
  /** GS v 0: print a raster bit image. */
  const GsRasterCmd: seq<byte> := [0x1D, 0x76, 0x30]
  /** ESC d 3: feed three lines after each copy. */
  const FeedCmd: seq<byte> := [0x1B, 0x64, 3]

  /** An image after PIL's convert("1"): `rows[y][x]` is pixel (x, y); 0 is black, anything else white. */
  datatype Bitmap = Bitmap(width: nat, rows: seq<seq<byte>>)

  /** Every row holds exactly `width` pixels. */
  ghost predicate WellFormed(bm: Bitmap) {
    forall y :: 0 <= y < |bm.rows| ==> |bm.rows[y]| == bm.width
  }

  /** Bytes per raster row: the width in pixels rounded up to whole bytes. */
  function BytesPerRow(width: nat): nat {
    (width + 7) / 8
  }

  /** The command header: GS v 0, mode 0 (normal), then the row length in bytes and the height in
      rows, each as a little-endian 16-bit value (low byte `& 0xFF`, high byte `>> 8 & 0xFF`). */
  function Header(bytesPerRow: nat, height: nat): (r: seq<byte>)
    ensures |r| == 8 && r[..3] == [0x1D, 0x76, 0x30] && r[3] == 0x00
    ensures r[4] as int + 256 * (r[5] as int) == bytesPerRow % 65536
    ensures r[6] as int + 256 * (r[7] as int) == height % 65536
  {
    LowHigh(bytesPerRow);
    LowHigh(height);
    GsRasterCmd + [0x00, bytesPerRow % 256, (bytesPerRow / 256) % 256, height % 256, (height / 256) % 256]
  }

  /** The low byte and the high byte of a value are its remainder modulo 2^16, little-endian. */
  lemma {:induction false} LowHigh(v: nat)
    ensures v % 256 + 256 * ((v / 256) % 256) == v % 65536
  {
    var q, r0 := v / 256, v % 256;
    var q1, q0 := q / 256, q % 256;
    assert v == 65536 * q1 + (256 * q0 + r0);
    DivUnique(v, 65536, q1, 256 * q0 + r0);
  }

  /** The bit pixel x of a row contributes: 1 (a dot) for black, 0 for white and for every
      position past the end of the row. */
  function Bit(row: seq<byte>, x: int): nat {
    if 0 <= x < |row| && row[x] == 0 then 1 else 0
  }

  /** Bit k of a byte counted from the most significant end (k = 0 is the 0x80 bit). */
  function MsbBit(b: byte, k: nat): nat
    requires k < 8
  {
    (b as nat / Pow2(7 - k)) % 2
  }

  /** The accumulator `byte` after shifting in, most significant first, the bits of pixels lo .. hi-1. */
  function Acc(row: seq<byte>, lo: int, hi: int): (v: nat)
    requires lo <= hi
    ensures v < Pow2(hi - lo)
    decreases hi - lo
  {
    if hi == lo then 0 else 2 * Acc(row, lo, hi - 1) + Bit(row, hi - 1)
  }

  lemma {:induction false} Pow2Eight()
    ensures Pow2(8) == 256
  {
    assert Pow2(4) == 16;
  }

  /** Every position lo .. hi-1 of the row has the bit v. */
  predicate SameBits(row: seq<byte>, lo: int, hi: int, v: nat) {
    forall x :: lo <= x < hi ==> Bit(row, x) == v
  }

  /** Byte j of a packed row: pixels 8j .. 8j+7, the first of them in the most significant bit.
      A byte that lies wholly past the end of the row is all padding, 0x00. */
  function PackedByte(row: seq<byte>, j: nat): (b: byte)
    ensures 8 * j >= |row| ==> b == 0x00
  {
    Pow2Eight();
    PastEnd(row, 8 * j, 8 * j + 8);
    AccSame(row, 8 * j, 8 * j + 8);
    Acc(row, 8 * j, 8 * j + 8)
  }

  /** Positions past the end of the row are white. */
  lemma {:induction false} PastEnd(row: seq<byte>, lo: int, hi: int)
    ensures lo >= |row| ==> SameBits(row, lo, hi, 0)
  {
  }

  /** Eight white pixels pack to 0x00 and eight black ones to 0xFF. */
  lemma {:induction false} PackedSame(row: seq<byte>, j: nat)
    ensures SameBits(row, 8 * j, 8 * j + 8, 0) ==> PackedByte(row, j) == 0x00
    ensures SameBits(row, 8 * j, 8 * j + 8, 1) ==> PackedByte(row, j) == 0xFF
  {
    Pow2Eight();
    AccSame(row, 8 * j, 8 * j + 8);
  }

  /** Shifting in only zero bits leaves 0; shifting in k one bits leaves 2^k - 1. */
  lemma {:induction false} AccSame(row: seq<byte>, lo: int, hi: int)
    requires lo <= hi
    ensures SameBits(row, lo, hi, 0) ==> Acc(row, lo, hi) == 0
    ensures SameBits(row, lo, hi, 1) ==> Acc(row, lo, hi) == Pow2(hi - lo) - 1
    decreases hi - lo
  {
    if hi > lo {
      AccSame(row, lo, hi - 1);
      assert Pow2(hi - lo) == 2 * Pow2(hi - 1 - lo);
    }
  }

  /** One packed row: BytesPerRow(width) bytes. */
  function PackRow(row: seq<byte>, width: nat): (r: seq<byte>)
    ensures width <= 8 * |r| < width + 8
  {
    seq(BytesPerRow(width), j requires 0 <= j => PackedByte(row, j))
  }

  /** All rows packed, first row first: every row contributes exactly BytesPerRow(width) bytes. */
  function Body(rows: seq<seq<byte>>, width: nat): (r: seq<byte>)
    ensures |r| == |rows| * BytesPerRow(width)
  {
    if rows == [] then []
    else
      var n := |rows| - 1;
      assert (n + 1) * BytesPerRow(width) == n * BytesPerRow(width) + BytesPerRow(width);
      Body(rows[..n], width) + PackRow(rows[n], width)
  }

  /** The bytes image_to_raster_bytes returns. */
  function RasterBytes(bm: Bitmap): (r: seq<byte>)
    ensures |r| == 8 + |bm.rows| * BytesPerRow(bm.width)
    ensures r[..3] == [0x1D, 0x76, 0x30] && r[3] == 0x00
    ensures r[4] as int + 256 * (r[5] as int) == BytesPerRow(bm.width) % 65536
    ensures r[6] as int + 256 * (r[7] as int) == |bm.rows| % 65536
  {
    Header(BytesPerRow(bm.width), |bm.rows|) + Body(bm.rows, bm.width)
  }

  // ---------------------------------------------------------------------------------------------
  // Properties of the packing

  /** Byte j of row y sits at offset y * BytesPerRow(width) + j of the body. */
  lemma {:induction false} BodyAt(rows: seq<seq<byte>>, width: nat, y: nat, j: nat)
    requires y < |rows| && j < BytesPerRow(width)
    ensures y * BytesPerRow(width) + j < |Body(rows, width)|
    ensures Body(rows, width)[y * BytesPerRow(width) + j] == PackedByte(rows[y], j)
  {
    var n := |rows| - 1;
    var bpr := BytesPerRow(width);
    if y < n {
      BodyAt(rows[..n], width, y, j);
    }
    assert (y + 1) * bpr == y * bpr + bpr;
  }

  /** Shifting the accumulator right by hi-1-x leaves pixel x's bit in the lowest position. */
  lemma {:induction false} AccBit(row: seq<byte>, lo: int, hi: int, x: int)
    requires lo <= x < hi
    ensures (Acc(row, lo, hi) / Pow2(hi - 1 - x)) % 2 == Bit(row, x)
    decreases hi - lo
  {
    var a, b := Acc(row, lo, hi - 1), Bit(row, hi - 1);
    assert Acc(row, lo, hi) == 2 * a + b;
    if x < hi - 1 {
      AccBit(row, lo, hi - 1, x);
      var k := hi - 2 - x;
      assert Pow2(hi - 1 - x) == 2 * Pow2(k);
      // (2a + b) / 2^(k+1) == a / 2^k for a bit b
      DivDouble(a, b, Pow2(k));
    } else {
      assert Pow2(hi - 1 - x) == 1;
      DivUnique(2 * a + b, 2, a, b);
    }
  }

  /** (2a + b) / (2p) == a / p for b in {0, 1}. */
  lemma {:induction false} DivDouble(a: nat, b: nat, p: nat)
    requires b <= 1 && p >= 1
    ensures (2 * a + b) / (2 * p) == a / p
  {
    var q, r := a / p, a % p;
    assert a == q * p + r;
    assert 2 * a + b == q * (2 * p) + (2 * r + b);
    assert 0 <= 2 * r + b < 2 * p;
    DivUnique(2 * a + b, 2 * p, q, 2 * r + b);
  }

  /** Pixels past the end of the row are zero bits: the accumulated value is the real pixels'
      value shifted left by the number of padding positions. */
  lemma {:induction false} AccPadded(row: seq<byte>, lo: int, hi: int)
    requires lo <= |row| <= hi
    ensures Acc(row, lo, hi) == Acc(row, lo, |row|) * Pow2(hi - |row|)
    decreases hi - lo
  {
    if hi > |row| {
      AccPadded(row, lo, hi - 1);
      var a, p, q := Acc(row, lo, |row|), Pow2(hi - 1 - |row|), Pow2(hi - |row|);
      assert q == 2 * p;
      calc {
        Acc(row, lo, hi);
        2 * Acc(row, lo, hi - 1) + Bit(row, hi - 1);
        2 * (a * p);
        { DoubleFactor(a, p); }
        a * (2 * p);
        a * q;
      }
    }
  }

  lemma {:induction false} DoubleFactor(a: int, p: int)
    ensures 2 * (a * p) == a * (2 * p)
  {
  }

  /** Byte j of row y is at offset i = 8 + y * BytesPerRow(width) + j of the command. */
  lemma {:induction false} RasterByteAt(bm: Bitmap, y: nat, j: nat, i: nat)
    requires y < |bm.rows| && j < BytesPerRow(bm.width) && i == 8 + y * BytesPerRow(bm.width) + j
    ensures i < |RasterBytes(bm)|
    ensures RasterBytes(bm)[i] == PackedByte(bm.rows[y], j)
  {
    var header := Header(BytesPerRow(bm.width), |bm.rows|);
    var body := Body(bm.rows, bm.width);
    BodyAt(bm.rows, bm.width, y, j);
    AfterHeader(header, body, i - 8);
  }

  /** Byte k of the body is byte 8 + k of the command. */
  lemma {:induction false} AfterHeader(header: seq<byte>, body: seq<byte>, k: nat)
    requires |header| == 8 && k < |body|
    ensures 8 + k < |header + body| && (header + body)[8 + k] == body[k]
  {
  }

  /** Pixel x of a row is bit 7 - x % 8 of packed byte x / 8. */
  lemma {:induction false} PackedBit(row: seq<byte>, x: nat)
    ensures MsbBit(PackedByte(row, x / 8), x % 8) == Bit(row, x)
  {
    var j := x / 8;
    assert 8 * j <= x < 8 * j + 8 && 8 * j + 8 - 1 - x == 7 - x % 8;
    AccBit(row, 8 * j, 8 * j + 8, x);
  }

  /** Pixel (x, y) is bit 7 - x % 8 of byte x / 8 of row y, that is, of byte
      i = 8 + y * BytesPerRow(width) + x / 8 of the command: 1 exactly when the pixel is black. */
  lemma {:induction false} RasterPixel(bm: Bitmap, x: nat, y: nat, i: nat)
    requires WellFormed(bm) && x < bm.width && y < |bm.rows| && i == 8 + y * BytesPerRow(bm.width) + x / 8
    ensures i < |RasterBytes(bm)|
    ensures MsbBit(RasterBytes(bm)[i], x % 8) == if bm.rows[y][x] == 0 then 1 else 0
  {
    RasterByteAt(bm, y, x / 8, i);
    PackedBit(bm.rows[y], x);
  }

  /** When the width is not a multiple of 8, the unused low bits of each row's last byte are 0. */
  lemma {:induction false} RasterPadding(bm: Bitmap, y: nat, i: nat)
    requires WellFormed(bm) && y < |bm.rows| && bm.width % 8 != 0
    requires i == 8 + y * BytesPerRow(bm.width) + BytesPerRow(bm.width) - 1
    ensures i < |RasterBytes(bm)| && RasterBytes(bm)[i] % Pow2(8 - bm.width % 8) == 0
  {
    RasterByteAt(bm, y, BytesPerRow(bm.width) - 1, i);
    LastBytePadded(bm.rows[y], bm.width);
  }

  /** The last packed byte of a row whose width is not a multiple of 8 ends in 8 - width % 8
      zero bits. */
  lemma {:induction false} LastBytePadded(row: seq<byte>, width: nat)
    requires |row| == width && width % 8 != 0
    ensures PackedByte(row, BytesPerRow(width) - 1) % Pow2(8 - width % 8) == 0
  {
    var j := BytesPerRow(width) - 1;
    assert 8 * j + 8 == width + (8 - width % 8);
    AccPadded(row, 8 * j, 8 * j + 8);
    ModMultiple(Acc(row, 8 * j, width), Pow2(8 - width % 8));
  }

  lemma {:induction false} ModMultiple(a: nat, p: nat)
    requires p >= 1
    ensures (a * p) % p == 0
  {
    DivUnique(a * p, p, a, 0);
  }

  /** One pass of the inner loop: shift in pixel x's bit and, at the end of a group of eight,
      emit the finished byte. */
  lemma {:induction false} PackStep(row: seq<byte>, width: nat, x: nat, byte: int)
    requires x < width == |row| && byte == Acc(row, 8 * (x / 8), x)
    ensures var b := 2 * byte + Bit(row, x);
      if x % 8 == 7 then
        && b == PackedByte(row, x / 8)
        && PackRow(row, width)[..(x + 1) / 8] == PackRow(row, width)[..x / 8] + [PackedByte(row, x / 8)]
        && 0 == Acc(row, 8 * ((x + 1) / 8), x + 1)
      else
        (x + 1) / 8 == x / 8 && b == Acc(row, 8 * ((x + 1) / 8), x + 1)
  {
    assert x / 8 < BytesPerRow(width);
  }

  /** After the inner loop: the padded last byte completes the packed row. */
  lemma {:induction false} PackRowEnd(row: seq<byte>, width: nat, byte: int)
    requires width == |row| && byte == Acc(row, 8 * (width / 8), width)
    ensures width % 8 != 0 ==> PackRow(row, width) == PackRow(row, width)[..width / 8] + [PackedByte(row, width / 8)]
                               && PackedByte(row, width / 8) == byte * Pow2(8 - width % 8)
    ensures width % 8 == 0 ==> PackRow(row, width) == PackRow(row, width)[..width / 8]
  {
    if width % 8 != 0 {
      AccPadded(row, 8 * (width / 8), 8 * (width / 8) + 8);
    }
  }

  // ---------------------------------------------------------------------------------------------
  // image_to_raster_bytes

  /** image_to_raster_bytes on an already binarised image: the header, then every row packed
      through the shifting accumulator, a padded last byte when the width is not a multiple of 8. */
  method ImageToRasterBytes(bm: Bitmap) returns (raster: seq<byte>)
    requires WellFormed(bm)
    ensures raster == RasterBytes(bm)
  {
    var width, height := bm.width, |bm.rows|;
    var bytesPerRow := (width + 7) / 8;
    var xL, xH := bytesPerRow % 256, (bytesPerRow / 256) % 256;
    var yL, yH := height % 256, (height / 256) % 256;
    raster := GsRasterCmd + [0x00] + [xL, xH, yL, yH];
    ghost var header := Header(bytesPerRow, height);
    assert raster == header;
    var y := 0;
    while y < height
      invariant 0 <= y <= height
      invariant raster == header + Body(bm.rows[..y], width)
    {
      BodyStep(bm.rows, width, y);
      raster := AppendRow(raster, bm.rows[y], width);
      AppendAssoc(header, Body(bm.rows[..y], width), PackRow(bm.rows[y], width));
      y := y + 1;
    }
    assert bm.rows[..y] == bm.rows;
  }

  lemma {:induction false} AppendAssoc<T>(a: seq<T>, b: seq<T>, c: seq<T>)
    ensures (a + b) + c == a + (b + c)
  {
  }

  /** The body for one more row. */
  lemma {:induction false} BodyStep(rows: seq<seq<byte>>, width: nat, y: nat)
    requires y < |rows|
    ensures Body(rows[..y + 1], width) == Body(rows[..y], width) + PackRow(rows[y], width)
  {
    assert rows[..y + 1][..y] == rows[..y];
  }

  /** The body of the loop over rows: append one row's bytes, shifting pixels into `byte` and
      emitting it after every eighth pixel and, padded, after the last one. */
  method AppendRow(raster: seq<byte>, row: seq<byte>, width: nat) returns (raster': seq<byte>)
    requires |row| == width
    ensures raster' == raster + PackRow(row, width)
  {
    ghost var packed := PackRow(row, width);
    raster' := raster;
    var byte := 0;
    var x := 0;
    while x < width
      invariant 0 <= x <= width
      invariant byte == Acc(row, 8 * (x / 8), x)
      invariant raster' == raster + packed[..x / 8]
    {
      var bit := if row[x] != 0 then 0 else 1;
      PackStep(row, width, x, byte);
      byte := 2 * byte + bit;
      if x % 8 == 7 {
        AppendAssoc(raster, packed[..x / 8], [byte]);
        raster' := raster' + [byte];
        byte := 0;
      }
      x := x + 1;
    }
    PackRowEnd(row, width, byte);
    if width % 8 != 0 {
      byte := byte * Pow2(8 - width % 8);
      AppendAssoc(raster, packed[..width / 8], [byte]);
      raster' := raster' + [byte];
    }
  }

  // ---------------------------------------------------------------------------------------------
  // print_job

  /** `counts[idx]` copies of one image: the raster, then the feed command, repeated. */
  function Copies(raster: seq<byte>, n: int): (r: seq<seq<byte>>)
    ensures |r| == if n <= 0 then 0 else 2 * n
    ensures forall k :: 0 <= k < |r| ==> r[k] == if k % 2 == 0 then raster else FeedCmd
    decreases n
  {
    if n <= 0 then [] else Copies(raster, n - 1) + [raster, FeedCmd]
  }

  /** The order indices name an image and a count. */
  ghost predicate IndicesOk(images: seq<Bitmap>, counts: seq<int>, order: seq<nat>) {
    forall i :: 0 <= i < |order| ==> order[i] < |images| && order[i] < |counts|
  }

  /** The writes of the loop over `order`, image by image in that order. */
  function OrderWrites(images: seq<Bitmap>, counts: seq<int>, order: seq<nat>): (r: seq<seq<byte>>)
    requires IndicesOk(images, counts, order)
    ensures |r| == 2 * Prints(counts, order)
  {
    if order == [] then []
    else
      var idx := order[|order| - 1];
      OrderWrites(images, counts, order[..|order| - 1]) + Copies(RasterBytes(images[idx]), counts[idx])
  }

  /** What print_job has written when it returns: `completed` is false when it raised, which
      happens when `bytes([0x12, density])` rejects a density outside 0 .. 255. */
  datatype JobWrites = JobWrites(writes: seq<seq<byte>>, completed: bool)

  function PrintJobWrites(images: seq<Bitmap>, counts: seq<int>, order: seq<nat>, density: int): (r: JobWrites)
    requires IndicesOk(images, counts, order)
    ensures |r.writes| >= 1 && r.writes[0] == [0x1B, 0x40]
    ensures r.completed == (0 <= density < 256)
    ensures r.completed ==> |r.writes| == 2 + 2 * Prints(counts, order) && r.writes[1] == [0x12, density]
    ensures !r.completed ==> |r.writes| == 1
  {
    if 0 <= density < 256 then JobWrites([EscInit, [0x12, density]] + OrderWrites(images, counts, order), true)
    else JobWrites([EscInit], false)
  }

  /** print_job's messages, from the first write to the last; the BLE connection is left out. */
  method PrintJob(images: seq<Bitmap>, counts: seq<int>, order: seq<nat>, density: int := 127)
    returns (writes: seq<seq<byte>>, completed: bool)
    requires IndicesOk(images, counts, order)
    requires forall i :: 0 <= i < |images| ==> WellFormed(images[i])
    ensures JobWrites(writes, completed) == PrintJobWrites(images, counts, order, density)
  {
    writes := [EscInit];
    if !(0 <= density < 256) {
      return writes, false;
    }
    var body := PrintOrder(images, counts, order);
    writes := writes + [[0x12, density]] + body;
    completed := true;
  }

  /** The loop over `order`: each entry's image, packed, and its copies. */
  method PrintOrder(images: seq<Bitmap>, counts: seq<int>, order: seq<nat>) returns (writes: seq<seq<byte>>)
    requires IndicesOk(images, counts, order)
    requires forall i :: 0 <= i < |images| ==> WellFormed(images[i])
    ensures writes == OrderWrites(images, counts, order)
  {
    writes := [];
    var i := 0;
    while i < |order|
      invariant 0 <= i <= |order|
      invariant writes == OrderWrites(images, counts, order[..i])
    {
      OrderWritesStep(images, counts, order, i);
      writes := PrintImage(writes, images[order[i]], counts[order[i]]);
      i := i + 1;
    }
    assert order[..i] == order;
  }

  /** The writes for one more entry of the order. */
  lemma {:induction false} OrderWritesStep(images: seq<Bitmap>, counts: seq<int>, order: seq<nat>, i: nat)
    requires IndicesOk(images, counts, order) && i < |order|
    ensures IndicesOk(images, counts, order[..i]) && IndicesOk(images, counts, order[..i + 1])
    ensures OrderWrites(images, counts, order[..i + 1])
            == OrderWrites(images, counts, order[..i]) + Copies(RasterBytes(images[order[i]]), counts[order[i]])
  {
    assert order[..i + 1][..i] == order[..i];
  }

  /** One entry of the order: pack the image, then write its copies. */
  method PrintImage(writes: seq<seq<byte>>, image: Bitmap, n: int) returns (writes': seq<seq<byte>>)
    requires WellFormed(image)
    ensures writes' == writes + Copies(RasterBytes(image), n)
  {
    var raster := ImageToRasterBytes(image);
    writes' := WriteCopies(writes, raster, n);
  }

  /** The loop over `range(counts[idx])`: write the raster, then the feed command, n times. */
  method WriteCopies(writes: seq<seq<byte>>, raster: seq<byte>, n: int) returns (writes': seq<seq<byte>>)
    ensures writes' == writes + Copies(raster, n)
  {
    writes' := writes;
    var c := 0;
    while c < n
      invariant 0 <= c <= n || (c == 0 && n < 0)
      invariant writes' == writes + Copies(raster, c)
    {
      writes' := writes' + [raster];
      writes' := writes' + [FeedCmd];
      c := c + 1;
    }
  }

  /** Number of copies printed for an order: the sum of the (non-negative part of the) counts it names. */
  function Prints(counts: seq<int>, order: seq<nat>): nat
    requires forall i :: 0 <= i < |order| ==> order[i] < |counts|
  {
    if order == [] then 0
    else
      var c := counts[order[|order| - 1]];
      Prints(counts, order[..|order| - 1]) + (if c <= 0 then 0 else c)
  }
}
