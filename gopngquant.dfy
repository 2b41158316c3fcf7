/** cmd/gopngquant/main.go, GoImageToRgba32: packs a Go image.Image into a byte buffer of
    8-bit RGBA by walking its pixels row by row. The buffer holds w*h*4 bytes, but pixel
    (x, y) is written at offsets y*h+x .. y*h+x+3 rather than (y*w+x)*4 .. (y*w+x)*4+3, so
    neighbouring pixels overwrite each other's channels, and the writes stay inside the
    buffer only for some dimensions. */
module Gopngquant {
  import opened Common

  /** A colour as image.Image.At(x, y).RGBA() reports it: four uint32 channels, which the
      color.Color contract keeps within [0, 0xffff]. */
  datatype Rgba64 = Rgba64(r: uint32, g: uint32, b: uint32, a: uint32)

  datatype Point = Point(x: int, y: int)

  /** image.Rectangle: the corners Min and Max, in Go ints. */
  datatype Rectangle = Rectangle(minX: GoInt, minY: GoInt, maxX: GoInt, maxY: GoInt)

  /** The two parts of image.Image that the conversion uses: Bounds() and At(x, y). */
  datatype GoImage = GoImage(bounds: Rectangle, at: Point -> Rgba64)

  /** The w the conversion uses: Bounds().Max.X (Bounds().Min is ignored). */
  function Width(im: GoImage): GoInt
  {
    im.bounds.maxX
  }

  /** The h the conversion uses: Bounds().Max.Y. */
  function Height(im: GoImage): GoInt
  {
    im.bounds.maxY
  }

  /** Channel k of a colour: 0 red, 1 green, 2 blue, 3 alpha. */
  function Channel(c: Rgba64, k: int): uint32
    requires 0 <= k < 4
  {
    if k == 0 then c.r else if k == 1 then c.g else if k == 2 then c.b else c.a
  }

  /** uint8(v >> 8): the shift keeps the high byte of a 16-bit value, the conversion then
      keeps the low 8 bits of what is left. */
  function HighByte(v: uint32): byte
  {
    (v / 0x100) % 0x100
  }

  /** For a channel within the color.Color range, the byte kept is exactly its high byte. */
  lemma HighByteOfChannel(v: uint32)
    requires v <= 0xffff
    ensures HighByte(v) == v / 0x100
    ensures HighByte(v) * 0x100 <= v < (HighByte(v) + 1) * 0x100
  {
  }

  /** The first of the four offsets GoImageToRgba32 writes for pixel p: y*h+x. */
  function Offset(h: int, p: Point): int
  {
    p.y * h + p.x
  }

  /** Whether pixel p writes byte i. */
  predicate Covers(h: int, p: Point, i: int)
  {
    Offset(h, p) <= i <= Offset(h, p) + 3
  }

  /** Every pixel the loops visit writes inside a w*h*4 buffer. Go checks each index at run
      time and panics otherwise, so this is what a caller must ensure. */
  predicate PixelOffsetsInBounds(w: int, h: int)
  {
    forall x, y | 0 <= x < w && 0 <= y < h :: Offset(h, Point(x, y)) + 3 < w * h * 4
  }

  /** The same condition checked on the last pixel visited, (w-1, h-1), alone; a grid
      with no pixels has nothing to check. */
  predicate LastPixelInBounds(w: int, h: int)
  {
    w <= 0 || h <= 0 || Offset(h, Point(w - 1, h - 1)) + 3 < w * h * 4
  }

  /** What GoImageToRgba32 needs to run without a panic: make([]byte, w*h*4) gets a size that
      is not negative and fits a Go int, and every write is in bounds (which the last pixel
      decides, by InBoundsIffLastPixel). */
  predicate Convertible(im: GoImage)
  {
    0 <= Width(im) * Height(im) * 4 <= MAX_INT && LastPixelInBounds(Width(im), Height(im))
  }

  /** The last pixel visited has the largest offset, so it alone decides whether every
      write is in bounds. */
  lemma {:induction false} InBoundsIffLastPixel(w: int, h: int)
    ensures PixelOffsetsInBounds(w, h) <==> LastPixelInBounds(w, h)
  {
    if LastPixelInBounds(w, h) {
      forall x, y | 0 <= x < w && 0 <= y < h
        ensures Offset(h, Point(x, y)) + 3 < w * h * 4
      {
        PixelInBounds(w, h, Point(x, y));
      }
    }
  }

  /** a <= b and 0 <= c give a*c <= b*c. */
  lemma MulMonotone(a: int, b: int, c: int)
    requires a <= b && 0 <= c
    ensures a * c <= b * c
  {
    assert b * c - a * c == (b - a) * c;
  }

  /** All pixels of ps write inside a buffer of n bytes. */
  predicate AllInBounds(h: int, ps: seq<Point>, n: int)
  {
    forall k | 0 <= k < |ps| :: 0 <= Offset(h, ps[k]) && Offset(h, ps[k]) + 3 < n
  }

  /** The four writes for one pixel: its channels' high bytes at offsets o .. o+3. */
  function WritePixel(buf: seq<byte>, im: GoImage, h: int, p: Point): (r: seq<byte>)
    requires 0 <= Offset(h, p) && Offset(h, p) + 3 < |buf|
    ensures |r| == |buf|
  {
    var o := Offset(h, p);
    var c := im.at(p);
    buf[o := HighByte(c.r)][o + 1 := HighByte(c.g)][o + 2 := HighByte(c.b)][o + 3 := HighByte(c.a)]
  }

  /** The buffer after the pixels of ps have been written in order. */
  function ApplyAll(buf: seq<byte>, im: GoImage, h: int, ps: seq<Point>): (r: seq<byte>)
    requires AllInBounds(h, ps, |buf|)
    ensures |r| == |buf|
    decreases |ps|
  {
    if ps == [] then buf
    else WritePixel(ApplyAll(buf, im, h, ps[..|ps| - 1]), im, h, ps[|ps| - 1])
  }

  /** The pixels (0, y) .. (x-1, y) of row y, left to right. */
  function Row(y: int, x: int): seq<Point>
    decreases x
  {
    if x <= 0 then [] else Row(y, x - 1) + [Point(x - 1, y)]
  }

  /** The pixels of rows 0 .. y-1, each row left to right: the inner loop over x nested in
      the outer loop over y. */
  function RowMajor(w: int, y: int): seq<Point>
    decreases y
  {
    if y <= 0 then [] else RowMajor(w, y - 1) + Row(y - 1, w)
  }

  /** p comes before q in the order the loops visit pixels. */
  predicate Before(p: Point, q: Point)
  {
    p.y < q.y || (p.y == q.y && p.x < q.x)
  }

  /** Row y holds exactly the pixels (0..x-1, y), in increasing x. */
  lemma {:induction false} RowShape(y: int, x: int)
    ensures forall k | 0 <= k < |Row(y, x)| :: Row(y, x)[k] == Point(k, y)
    ensures |Row(y, x)| == if x <= 0 then 0 else x
    decreases x
  {
    if x > 0 {
      RowShape(y, x - 1);
    }
  }

  /** Pixel p lies in columns 0 .. w-1 of rows 0 .. y-1. */
  predicate InGrid(w: int, y: int, p: Point)
  {
    0 <= p.x < w && 0 <= p.y < y
  }

  /** Every pixel the loops visit in rows 0 .. y-1 lies in the grid. */
  lemma {:induction false} RowMajorInGrid(w: int, y: int)
    ensures forall k | 0 <= k < |RowMajor(w, y)| :: InGrid(w, y, RowMajor(w, y)[k])
    decreases y
  {
    if y > 0 {
      RowMajorInGrid(w, y - 1);
      RowShape(y - 1, w);
      var prev, row := RowMajor(w, y - 1), Row(y - 1, w);
      assert RowMajor(w, y) == prev + row;
      forall k | 0 <= k < |prev + row|
        ensures InGrid(w, y, (prev + row)[k])
      {
        if k < |prev| {
          assert InGrid(w, y - 1, prev[k]);
        } else {
          assert (prev + row)[k] == row[k - |prev|];
        }
      }
    }
  }

  /** Every pixel of the grid is visited. */
  lemma {:induction false} RowMajorComplete(w: int, y: int, p: Point)
    requires InGrid(w, y, p)
    ensures p in RowMajor(w, y)
    decreases y
  {
    var prev, row := RowMajor(w, y - 1), Row(y - 1, w);
    assert RowMajor(w, y) == prev + row;
    if p.y == y - 1 {
      RowShape(y - 1, w);
      assert row[p.x] == p;
    } else {
      RowMajorComplete(w, y - 1, p);
    }
  }

  /** The loops visit pixels in increasing row-major order. */
  lemma {:induction false} RowMajorOrdered(w: int, y: int)
    ensures forall j, k | 0 <= j < k < |RowMajor(w, y)| :: Before(RowMajor(w, y)[j], RowMajor(w, y)[k])
    decreases y
  {
    if y > 0 {
      RowMajorOrdered(w, y - 1);
      RowMajorInGrid(w, y - 1);
      RowShape(y - 1, w);
      var prev, row := RowMajor(w, y - 1), Row(y - 1, w);
      assert RowMajor(w, y) == prev + row;
      forall j, k | 0 <= j < k < |prev + row|
        ensures Before((prev + row)[j], (prev + row)[k])
      {
        if k < |prev| {
          assert Before(prev[j], prev[k]);
        } else if j < |prev| {
          assert InGrid(w, y - 1, prev[j]);
          assert (prev + row)[k] == row[k - |prev|];
        } else {
          assert (prev + row)[j] == row[j - |prev|];
          assert (prev + row)[k] == row[k - |prev|];
        }
      }
    }
  }

  /** Bytes that no pixel of ps writes keep their value. */
  lemma {:induction false} ApplyAllUntouched(buf: seq<byte>, im: GoImage, h: int, ps: seq<Point>, i: int)
    requires AllInBounds(h, ps, |buf|) && 0 <= i < |buf|
    requires forall k | 0 <= k < |ps| :: !Covers(h, ps[k], i)
    ensures ApplyAll(buf, im, h, ps)[i] == buf[i]
    decreases |ps|
  {
    if ps != [] {
      ApplyAllUntouched(buf, im, h, ps[..|ps| - 1], i);
    }
  }

  /** A byte holds the value written by the last pixel of ps that writes it. */
  lemma {:induction false} ApplyAllLastWriter(buf: seq<byte>, im: GoImage, h: int, ps: seq<Point>, k: int, i: int)
    requires AllInBounds(h, ps, |buf|)
    requires 0 <= k < |ps| && Covers(h, ps[k], i)
    requires forall j | k < j < |ps| :: !Covers(h, ps[j], i)
    ensures 0 <= i < |buf|
    ensures ApplyAll(buf, im, h, ps)[i] == HighByte(Channel(im.at(ps[k]), i - Offset(h, ps[k])))
    decreases |ps|
  {
    if k < |ps| - 1 {
      ApplyAllLastWriter(buf, im, h, ps[..|ps| - 1], k, i);
    }
  }

  /** A pixel of the w x h grid writes inside the w*h*4 buffer when the offsets allow it. */
  lemma PixelInBounds(w: int, h: int, p: Point)
    requires LastPixelInBounds(w, h) && InGrid(w, h, p)
    ensures 0 <= Offset(h, p) && Offset(h, p) + 3 < w * h * 4
  {
    MulMonotone(0, p.y, h);
    MulMonotone(p.y, h - 1, h);
  }

  /** The pixels visited before row y, column x of the loops, are all in bounds. */
  lemma PrefixInBounds(w: int, h: int, y: int, x: int)
    requires LastPixelInBounds(w, h)
    requires 0 <= y && (y <= h || y == 0) && (y < h || x <= 0) && (x <= w || x <= 0)
    ensures AllInBounds(h, RowMajor(w, y) + Row(y, x), w * h * 4)
  {
    RowMajorInGrid(w, y);
    RowShape(y, x);
    var prev, row := RowMajor(w, y), Row(y, x);
    forall k | 0 <= k < |prev + row|
      ensures 0 <= Offset(h, (prev + row)[k]) && Offset(h, (prev + row)[k]) + 3 < w * h * 4
    {
      if k < |prev| {
        assert InGrid(w, y, prev[k]) && (prev + row)[k] == prev[k];
        PixelInBounds(w, h, prev[k]);
      } else {
        assert (prev + row)[k] == row[k - |prev|];
        PixelInBounds(w, h, row[k - |prev|]);
      }
    }
  }

  /** All pixels the loops visit write inside the buffer. */
  lemma VisitedInBounds(w: int, h: int)
    requires LastPixelInBounds(w, h)
    ensures AllInBounds(h, RowMajor(w, h), w * h * 4)
  {
    if h > 0 {
      PrefixInBounds(w, h, h, 0);
      assert RowMajor(w, h) + Row(h, 0) == RowMajor(w, h);
    }
  }

  /** The buffer GoImageToRgba32 returns, as a function of the image: a zeroed w*h*4 buffer
      with every visited pixel written in row-major order. */
  function Packed(im: GoImage): (r: seq<byte>)
    requires Convertible(im)
    ensures |r| == Width(im) * Height(im) * 4
  {
    var w: int, h: int := Width(im), Height(im);
    VisitedInBounds(w, h);
    ApplyAll(Zeros(w * h * 4), im, h, RowMajor(w, h))
  }

  /** The buffer once the loops have reached row y, column x. */
  function Progress(zeros: seq<byte>, im: GoImage, w: int, h: int, y: int, x: int): (r: seq<byte>)
    requires LastPixelInBounds(w, h) && |zeros| == w * h * 4
    requires 0 <= y && (y <= h || y == 0) && (y < h || x <= 0) && (x <= w || x <= 0)
    ensures |r| == |zeros|
  {
    PrefixInBounds(w, h, y, x);
    ApplyAll(zeros, im, h, RowMajor(w, y) + Row(y, x))
  }

  /** One turn of the inner loop writes pixel (x, y) in bounds and moves the buffer on by
      that pixel. */
  lemma PixelStep(zeros: seq<byte>, im: GoImage, w: int, h: int, y: int, x: int)
    requires LastPixelInBounds(w, h) && |zeros| == w * h * 4
    requires 0 <= y < h && 0 <= x < w
    ensures 0 <= Offset(h, Point(x, y)) && Offset(h, Point(x, y)) + 3 < |zeros|
    ensures Progress(zeros, im, w, h, y, x + 1) == WritePixel(Progress(zeros, im, w, h, y, x), im, h, Point(x, y))
  {
    PixelInBounds(w, h, Point(x, y));
    var done := RowMajor(w, y) + Row(y, x);
    assert RowMajor(w, y) + Row(y, x + 1) == done + [Point(x, y)];
    assert (done + [Point(x, y)])[..|done|] == done;
  }

  /** Finishing row y is starting row y + 1. */
  lemma RowStep(zeros: seq<byte>, im: GoImage, w: int, h: int, y: int)
    requires LastPixelInBounds(w, h) && |zeros| == w * h * 4
    requires 0 <= y < h
    ensures Progress(zeros, im, w, h, y, if w < 0 then 0 else w) == Progress(zeros, im, w, h, y + 1, 0)
  {
    assert RowMajor(w, y) + Row(y, if w < 0 then 0 else w) == RowMajor(w, y + 1) + Row(y + 1, 0);
  }

  /** The four stores of the loop body: the high bytes of c's channels at o .. o+3. */
  method StorePixel(buf: array<byte>, o: int, c: Rgba64)
    requires 0 <= o && o + 3 < buf.Length
    modifies buf
    ensures buf[..] == old(buf[..])[o := HighByte(c.r)][o + 1 := HighByte(c.g)][o + 2 := HighByte(c.b)][o + 3 := HighByte(c.a)]
  {
    buf[o + 0] := HighByte(c.r);
    buf[o + 1] := HighByte(c.g);
    buf[o + 2] := HighByte(c.b);
    buf[o + 3] := HighByte(c.a);
  }

  /** GoImageToRgba32: the nested loops over y and x, writing each pixel's high bytes at
      y*h+x .. y*h+x+3 of a zeroed buffer. */
  method GoImageToRgba32(im: GoImage) returns (ret: seq<byte>)
    requires Convertible(im)
    ensures ret == Packed(im)
  {
    var w: int := im.bounds.maxX;
    var h: int := im.bounds.maxY;
    var n: int := w * h * 4;
    var buf := new byte[n](_ => 0);
    ghost var zeros := buf[..];
    assert zeros == Zeros(n);
    assert RowMajor(w, 0) + Row(0, 0) == [];
    PackRows(buf, zeros, im);
    ret := buf[..];
  }

  /** The outer loop of GoImageToRgba32: rows 0 .. h-1 in turn. */
  method PackRows(buf: array<byte>, ghost zeros: seq<byte>, im: GoImage)
    requires Convertible(im)
    requires zeros == Zeros(Width(im) * Height(im) * 4) && buf.Length == |zeros|
    requires buf[..] == Progress(zeros, im, Width(im), Height(im), 0, 0)
    modifies buf
    ensures buf[..] == Packed(im)
  {
    hide Progress, Packed;
    var w: int := im.bounds.maxX;
    var h: int := im.bounds.maxY;
    var y: int := 0;
    while y < h
      invariant 0 <= y && (y <= h || y == 0)
      invariant buf[..] == Progress(zeros, im, w, h, y, 0)
    {
      PackRow(buf, zeros, im, y);
      RowStep(zeros, im, w, h, y);
      y := y + 1;
    }
    ProgressDone(zeros, im);
  }

  /** Once the loops have finished every row, the buffer has every visited pixel written. */
  lemma ProgressDone(zeros: seq<byte>, im: GoImage)
    requires Convertible(im) && zeros == Zeros(Width(im) * Height(im) * 4)
    ensures var h := Height(im); Progress(zeros, im, Width(im), h, if h < 0 then 0 else h, 0) == Packed(im)
  {
    var w: int, h: int := Width(im), Height(im);
    VisitedInBounds(w, h);
    var y := if h < 0 then 0 else h;
    assert RowMajor(w, y) + Row(y, 0) == RowMajor(w, h);
  }

  /** The inner loop of GoImageToRgba32 for row y: pixels (0, y) .. (w-1, y) in turn. */
  method PackRow(buf: array<byte>, ghost zeros: seq<byte>, im: GoImage, y: int)
    requires LastPixelInBounds(Width(im), Height(im))
    requires |zeros| == buf.Length == Width(im) * Height(im) * 4
    requires 0 <= y < Height(im)
    requires buf[..] == Progress(zeros, im, Width(im), Height(im), y, 0)
    modifies buf
    ensures buf[..] == Progress(zeros, im, Width(im), Height(im), y, if Width(im) < 0 then 0 else Width(im))
  {
    hide Progress;
    var w: int := im.bounds.maxX;
    var h: int := im.bounds.maxY;
    var x: int := 0;
    while x < w
      invariant 0 <= x && (x <= w || x == 0)
      invariant buf[..] == Progress(zeros, im, w, h, y, x)
    {
      var c := im.at(Point(x, y));
      PixelStep(zeros, im, w, h, y, x);
      var o := y * h + x;
      assert o == Offset(h, Point(x, y));
      StorePixel(buf, o, c);
      x := x + 1;
    }
  }

  /** The value of every written byte: it comes from the last pixel, in row-major order,
      whose four offsets include it. */
  lemma PackedLastWriter(im: GoImage, x: int, y: int, i: int)
    requires Convertible(im)
    requires 0 <= x < Width(im) && 0 <= y < Height(im) && Covers(Height(im), Point(x, y), i)
    requires forall x', y' | 0 <= x' < Width(im) && 0 <= y' < Height(im) && Before(Point(x, y), Point(x', y')) ::
      !Covers(Height(im), Point(x', y'), i)
    ensures 0 <= i < |Packed(im)|
    ensures Packed(im)[i] == HighByte(Channel(im.at(Point(x, y)), i - Offset(Height(im), Point(x, y))))
  {
    var w: int, h: int := Width(im), Height(im);
    var ps := RowMajor(w, h);
    VisitedInBounds(w, h);
    RowMajorComplete(w, h, Point(x, y));
    RowMajorInGrid(w, h);
    RowMajorOrdered(w, h);
    var k :| 0 <= k < |ps| && ps[k] == Point(x, y);
    forall j | k < j < |ps|
      ensures !Covers(h, ps[j], i)
    {
      assert InGrid(w, h, ps[j]) && Before(ps[k], ps[j]);
      assert ps[j] == Point(ps[j].x, ps[j].y);
    }
    ApplyAllLastWriter(Zeros(w * h * 4), im, h, ps, k, i);
  }

  /** Bytes that no visited pixel writes keep the 0 that make put there. */
  lemma PackedUnwritten(im: GoImage, i: int)
    requires Convertible(im) && 0 <= i < Width(im) * Height(im) * 4
    requires forall x, y | 0 <= x < Width(im) && 0 <= y < Height(im) :: !Covers(Height(im), Point(x, y), i)
    ensures Packed(im)[i] == 0
  {
    var w: int, h: int := Width(im), Height(im);
    var ps := RowMajor(w, h);
    VisitedInBounds(w, h);
    RowMajorInGrid(w, h);
    forall k | 0 <= k < |ps|
      ensures !Covers(h, ps[k], i)
    {
      assert InGrid(w, h, ps[k]);
      assert ps[k] == Point(ps[k].x, ps[k].y);
    }
    ApplyAllUntouched(Zeros(w * h * 4), im, h, ps, i);
  }

  /** Byte 1 of the buffer ends up holding the red of pixel (1, 0), which starts at offset
      1 and is the last pixel to cover it: every pixel after it starts at 2 or beyond. */
  lemma SecondPixelOverwritesGreen(im: GoImage)
    requires Convertible(im) && 2 <= Width(im) && 1 <= Height(im)
    ensures 1 < |Packed(im)|
    ensures Packed(im)[1] == HighByte(im.at(Point(1, 0)).r)
  {
    var w: int, h: int := Width(im), Height(im);
    forall x, y | 0 <= x < w && 0 <= y < h && Before(Point(1, 0), Point(x, y))
      ensures !Covers(h, Point(x, y), 1)
    {
      if y == 0 {
        assert 2 <= x;
      } else {
        MulMonotone(1, y, h);
      }
    }
    var c := im.at(Point(1, 0));
    assert Offset(h, Point(1, 0)) == 1;
    assert Channel(c, 0) == c.r;
    PackedLastWriter(im, 1, 0, 1);
  }

  /** The bytes after the last pixel's four never get written: they keep their zeros. */
  lemma TailStaysZero(im: GoImage, i: int)
    requires Convertible(im) && 0 < Width(im) && 0 < Height(im)
    requires Offset(Height(im), Point(Width(im) - 1, Height(im) - 1)) + 3 < i < Width(im) * Height(im) * 4
    ensures Packed(im)[i] == 0
  {
    var w: int, h: int := Width(im), Height(im);
    forall x, y | 0 <= x < w && 0 <= y < h
      ensures !Covers(h, Point(x, y), i)
    {
      MulMonotone(y, h - 1, h);
    }
    PackedUnwritten(im, i);
  }

  /** Wherever the conversion is defined on an image at least two pixels wide, byte 1 holds
      the red of pixel (1, 0), where the intended layout has the green of pixel (0, 0): the
      two buffers differ whenever those two channels differ in their high bytes. */
  lemma OverlappingPixelsClobber(im: GoImage)
    requires Convertible(im) && 2 <= Width(im) && 1 <= Height(im)
    ensures 1 < |Packed(im)| == |Rgba32(im)|
    ensures Packed(im)[1] == HighByte(im.at(Point(1, 0)).r)
    ensures Rgba32(im)[1] == HighByte(im.at(Point(0, 0)).g)
  {
    SecondPixelOverwritesGreen(im);
    Rgba32PixelAt(im, 0, 0, 1);
  }

  /** A 1x5 image: pixel (0, 4) would be written at offsets 20 .. 23 of a 20-byte buffer, so
      GoImageToRgba32 panics with an index out of range. */
  lemma {:induction false} TallImageIndexOutOfRange()
    ensures !PixelOffsetsInBounds(1, 5)
  {
    assert Offset(5, Point(0, 4)) + 3 >= 1 * 5 * 4;
  }

  /** The four bytes kept for one pixel, in the order red, green, blue, alpha. */
  function PixelBytes(c: Rgba64): (r: seq<byte>)
    ensures |r| == 4 && forall k | 0 <= k < 4 :: r[k] == HighByte(Channel(c, k))
  {
    [HighByte(c.r), HighByte(c.g), HighByte(c.b), HighByte(c.a)]
  }

  /** The pixels of ps laid out one after another, four bytes each. */
  function Flatten(im: GoImage, ps: seq<Point>): (r: seq<byte>)
    ensures |r| == 4 * |ps|
    decreases |ps|
  {
    if ps == [] then [] else Flatten(im, ps[..|ps| - 1]) + PixelBytes(im.at(ps[|ps| - 1]))
  }

  /** In Flatten, pixel j of ps owns bytes 4*j .. 4*j+3. */
  lemma {:induction false} FlattenAt(im: GoImage, ps: seq<Point>, j: int, k: int)
    requires 0 <= j < |ps| && 0 <= k < 4
    ensures Flatten(im, ps)[4 * j + k] == HighByte(Channel(im.at(ps[j]), k))
    decreases |ps|
  {
    if j < |ps| - 1 {
      FlattenAt(im, ps[..|ps| - 1], j, k);
    }
  }

  /** Rows 0 .. y-1 of width w hold y*w pixels. */
  lemma {:induction false} RowMajorLength(w: int, y: int)
    requires 0 <= w && 0 <= y
    ensures |RowMajor(w, y)| == y * w
    decreases y
  {
    if y > 0 {
      RowMajorLength(w, y - 1);
      RowShape(y - 1, w);
    }
  }

  /** Pixel (x, yy) is visited in turn yy*w + x. */
  lemma {:induction false} RowMajorAt(w: int, y: int, x: int, yy: int)
    requires 0 <= x < w && 0 <= yy < y
    ensures yy * w + x < |RowMajor(w, y)| && RowMajor(w, y)[yy * w + x] == Point(x, yy)
    decreases y
  {
    if yy == y - 1 {
      RowMajorAtLastRow(w, y, x, yy);
    } else {
      RowMajorAt(w, y - 1, x, yy);
      RowMajorAtEarlierRow(w, y, x, yy);
    }
  }

  /** The pixels of the last row, y - 1, follow the (y-1)*w pixels before it. */
  lemma RowMajorAtLastRow(w: int, y: int, x: int, yy: int)
    requires 0 <= x < w && 0 <= yy && yy == y - 1
    ensures yy * w + x < |RowMajor(w, y)| && RowMajor(w, y)[yy * w + x] == Point(x, yy)
  {
    var prev, row := RowMajor(w, yy), Row(yy, w);
    assert RowMajor(w, y) == prev + row;
    RowMajorLength(w, yy);
    RowShape(yy, w);
    hide RowMajor, Row;
    var j: int := yy * w + x;
    assert j == |prev| + x;
    assert (prev + row)[j] == row[x];
  }

  /** Appending row y - 1 leaves the pixels of earlier rows where they were. */
  lemma RowMajorAtEarlierRow(w: int, y: int, x: int, yy: int)
    requires 0 <= x < w && 0 <= yy < y - 1
    requires yy * w + x < |RowMajor(w, y - 1)| && RowMajor(w, y - 1)[yy * w + x] == Point(x, yy)
    ensures yy * w + x < |RowMajor(w, y)| && RowMajor(w, y)[yy * w + x] == Point(x, yy)
  {
    var prev, row := RowMajor(w, y - 1), Row(y - 1, w);
    assert RowMajor(w, y) == prev + row;
    hide RowMajor, Row;
    var j: int := yy * w + x;
    assert (prev + row)[j] == prev[j];
  }

  /** The buffer the conversion is evidently meant to produce: the pixels in row-major
      order, four bytes each, so that pixel (x, y) owns bytes (y*w+x)*4 .. (y*w+x)*4+3. */
  function Rgba32(im: GoImage): (r: seq<byte>)
    requires 0 <= Width(im) && 0 <= Height(im)
    ensures |r| == Width(im) * Height(im) * 4
  {
    RowMajorLength(Width(im), Height(im));
    Flatten(im, RowMajor(Width(im), Height(im)))
  }

  /** In Rgba32 each pixel's four channels sit at its own offset (y*w+x)*4, and these
      offsets cover the buffer. */
  lemma Rgba32PixelAt(im: GoImage, x: int, y: int, k: int)
    requires 0 <= x < Width(im) && 0 <= y < Height(im) && 0 <= k < 4
    ensures 0 <= (y * Width(im) + x) * 4 + k < |Rgba32(im)|
    ensures Rgba32(im)[(y * Width(im) + x) * 4 + k] == HighByte(Channel(im.at(Point(x, y)), k))
  {
    var w: int, h: int := Width(im), Height(im);
    RowMajorAt(w, h, x, y);
    MulMonotone(0, y, w);
    var j: int := y * w + x;
    var ps := RowMajor(w, h);
    assert 0 <= j < |ps| && ps[j] == Point(x, y);
    FlattenAt(im, ps, j, k);
    assert |Rgba32(im)| == 4 * |ps|;
  }

  /** The corrected buffer once the loops have reached row y, column x: the pixels done so
      far laid out in order, zeros after them. */
  function FixedProgress(im: GoImage, y: int, x: int): (r: seq<byte>)
    requires 0 <= Width(im) && 0 <= Height(im)
    requires 0 <= y <= Height(im) && 0 <= x <= Width(im) && (y < Height(im) || x == 0)
  {
    var w: int, h: int := Width(im), Height(im);
    PrefixLength(w, h, y, x);
    var done := RowMajor(w, y) + Row(y, x);
    Flatten(im, done) + Zeros(w * h * 4 - 4 * |done|)
  }

  /** The pixels visited before row y, column x number y*w + x, no more than w*h. */
  lemma PrefixLength(w: int, h: int, y: int, x: int)
    requires 0 <= w && 0 <= h && 0 <= y <= h && 0 <= x <= w && (y < h || x == 0)
    ensures |RowMajor(w, y) + Row(y, x)| == y * w + x <= h * w
  {
    RowMajorLength(w, y);
    RowShape(y, x);
    if y < h {
      MulMonotone(y + 1, h, w);
    }
  }

  /** Storing four bytes just after a written prefix extends the prefix by them. */
  lemma StoreAfterPrefix(done: seq<byte>, c: seq<byte>, m: int)
    requires |c| == 4 && 4 <= m
    ensures done + c + Zeros(m - 4) ==
      (done + Zeros(m))[|done| := c[0]][|done| + 1 := c[1]][|done| + 2 := c[2]][|done| + 3 := c[3]]
  {
    var lhs := done + c + Zeros(m - 4);
    var rhs := (done + Zeros(m))[|done| := c[0]][|done| + 1 := c[1]][|done| + 2 := c[2]][|done| + 3 := c[3]];
    assert |lhs| == |rhs|;
    forall i | 0 <= i < |lhs|
      ensures lhs[i] == rhs[i]
    {
      if i < |done| {
      } else if i < |done| + 4 {
        assert lhs[i] == c[i - |done|];
      } else {
        assert lhs[i] == 0;
      }
    }
  }

  /** One turn of the corrected inner loop appends pixel (x, y)'s bytes to the prefix. */
  lemma FixedAppend(im: GoImage, y: int, x: int)
    requires 0 <= Width(im) && 0 <= Height(im)
    requires 0 <= y < Height(im) && 0 <= x < Width(im)
    requires 4 * |RowMajor(Width(im), y) + Row(y, x)| + 4 <= Width(im) * Height(im) * 4
    ensures var done := RowMajor(Width(im), y) + Row(y, x);
      && FixedProgress(im, y, x) == Flatten(im, done) + Zeros(Width(im) * Height(im) * 4 - 4 * |done|)
      && FixedProgress(im, y, x + 1) ==
         Flatten(im, done) + PixelBytes(im.at(Point(x, y))) + Zeros(Width(im) * Height(im) * 4 - 4 * |done| - 4)
  {
    var w: int, h: int := Width(im), Height(im);
    RowSnoc(w, y, x);
    FlattenSnoc(im, RowMajor(w, y) + Row(y, x), Point(x, y));
    hide RowMajor, Row, Flatten, PixelBytes, Zeros;
  }

  /** Row y up to column x + 1 is row y up to column x followed by pixel (x, y). */
  lemma RowSnoc(w: int, y: int, x: int)
    requires 0 <= x
    ensures RowMajor(w, y) + Row(y, x + 1) == RowMajor(w, y) + Row(y, x) + [Point(x, y)]
  {
  }

  /** Flattening one more pixel appends its four bytes. */
  lemma FlattenSnoc(im: GoImage, ps: seq<Point>, p: Point)
    ensures Flatten(im, ps + [p]) == Flatten(im, ps) + PixelBytes(im.at(p))
  {
    assert (ps + [p])[..|ps|] == ps;
  }

  /** One turn of the corrected inner loop stores pixel (x, y)'s bytes at (y*w+x)*4. */
  lemma FixedStep(im: GoImage, y: int, x: int)
    requires 0 <= Width(im) && 0 <= Height(im)
    requires 0 <= y < Height(im) && 0 <= x < Width(im)
    ensures 0 <= (y * Width(im) + x) * 4 && (y * Width(im) + x) * 4 + 3 < |FixedProgress(im, y, x)|
    ensures FixedProgress(im, y, x + 1) ==
      var o, c := (y * Width(im) + x) * 4, im.at(Point(x, y));
      FixedProgress(im, y, x)[o := HighByte(c.r)][o + 1 := HighByte(c.g)][o + 2 := HighByte(c.b)][o + 3 := HighByte(c.a)]
  {
    var w: int, h: int := Width(im), Height(im);
    var done := RowMajor(w, y) + Row(y, x);
    var o: int := (y * w + x) * 4;
    FixedOffset(w, h, y, x);
    FixedAppend(im, y, x);
    hide FixedProgress, RowMajor, Row, Flatten, PixelBytes, Zeros;
    StoreAfterPrefix(Flatten(im, done), PixelBytes(im.at(Point(x, y))), w * h * 4 - o);
  }

  /** Pixel (x, y) of the corrected loops starts at (y*w+x)*4, four bytes per pixel visited
      before it, and ends inside the w*h*4 buffer. */
  lemma FixedOffset(w: int, h: int, y: int, x: int)
    requires 0 <= w && 0 <= h && 0 <= y < h && 0 <= x < w
    ensures (y * w + x) * 4 == 4 * |RowMajor(w, y) + Row(y, x)|
    ensures (y * w + x) * 4 + 4 <= w * h * 4
  {
    PrefixLength(w, h, y, x);
    PrefixLength(w, h, y, x + 1);
  }

  /** Finishing row y of the corrected loops is starting row y + 1. */
  lemma FixedRowStep(im: GoImage, y: int)
    requires 0 <= Width(im) && 0 <= Height(im) && 0 <= y < Height(im)
    ensures FixedProgress(im, y, Width(im)) == FixedProgress(im, y + 1, 0)
  {
    assert RowMajor(Width(im), y) + Row(y, Width(im)) == RowMajor(Width(im), y + 1) + Row(y + 1, 0);
  }

  /** GoImageToRgba32 with the offset (y*w+x)*4 it evidently intends. */
  method GoImageToRgba32Fixed(im: GoImage) returns (ret: seq<byte>)
    requires 0 <= Width(im) && 0 <= Height(im) && Width(im) * Height(im) * 4 <= MAX_INT
    ensures ret == Rgba32(im)
  {
    var w: int := im.bounds.maxX;
    var h: int := im.bounds.maxY;
    MulMonotone(0, w, h);
    var n: int := w * h * 4;
    var buf := new byte[n](_ => 0);
    assert buf[..] == Zeros(n);
    FixedStart(im);
    PackRowsFixed(buf, im);
    ret := buf[..];
  }

  /** The outer loop of GoImageToRgba32Fixed: rows 0 .. h-1 in turn. */
  method PackRowsFixed(buf: array<byte>, im: GoImage)
    requires 0 <= Width(im) && 0 <= Height(im)
    requires buf[..] == FixedProgress(im, 0, 0)
    modifies buf
    ensures buf[..] == Rgba32(im)
  {
    hide FixedProgress, Rgba32;
    var h: int := im.bounds.maxY;
    var y: int := 0;
    while y < h
      invariant 0 <= y <= h
      invariant buf[..] == FixedProgress(im, y, 0)
    {
      PackRowFixed(buf, im, y);
      y := y + 1;
    }
    FixedDone(im);
  }

  /** Before the corrected loops start, the buffer is all zeros. */
  lemma FixedStart(im: GoImage)
    requires 0 <= Width(im) && 0 <= Height(im)
    ensures FixedProgress(im, 0, 0) == Zeros(Width(im) * Height(im) * 4)
  {
    assert RowMajor(Width(im), 0) + Row(0, 0) == [];
  }

  /** Once the corrected loops have finished every row, the buffer is Rgba32. */
  lemma FixedDone(im: GoImage)
    requires 0 <= Width(im) && 0 <= Height(im)
    ensures FixedProgress(im, Height(im), 0) == Rgba32(im)
  {
    var w: int, h: int := Width(im), Height(im);
    assert RowMajor(w, h) + Row(h, 0) == RowMajor(w, h);
    PrefixLength(w, h, h, 0);
    assert Flatten(im, RowMajor(w, h)) + Zeros(0) == Flatten(im, RowMajor(w, h));
  }

  /** The inner loop of GoImageToRgba32Fixed for row y. */
  method PackRowFixed(buf: array<byte>, im: GoImage, y: int)
    requires 0 <= Width(im) && 0 <= y < Height(im)
    requires buf[..] == FixedProgress(im, y, 0)
    modifies buf
    ensures buf[..] == FixedProgress(im, y + 1, 0)
  {
    hide FixedProgress;
    var w: int := im.bounds.maxX;
    var x: int := 0;
    while x < w
      invariant 0 <= x <= w
      invariant buf[..] == FixedProgress(im, y, x)
    {
      var c := im.at(Point(x, y));
      FixedStep(im, y, x);
      var o: int := (y * w + x) * 4;
      StorePixel(buf, o, c);
      x := x + 1;
    }
    FixedRowStep(im, y);
  }
}
