/**
 The software back buffer: a row-major grid of 32-bit pixels, pixel (x, y)
 stored at index y*width + x, with no bounds check on writes.
 */
module BackBuffers {
  import opened Colors
  import opened VecMath

  /** The largest value of a C `int`; products that must not overflow stay below it. */
  const INT_MAX: int := 0x7FFF_FFFF

  /**
   The largest `size_t` of a 32-bit build. Byte counts are kept below it, so
   `width*height*sizeof(Color)` does not wrap whichever width `size_t` has.
   */
  const SIZE_MAX: int := 0xFFFF_FFFF

  /** The smallest value of a C `int`. */
  const INT_MIN: int := -0x8000_0000

  /** `abs` from the C library, on unbounded integers. */
  function Abs(n: int): nat {
    if n < 0 then -n else n
  }

  /** A pixel coordinate. */
  datatype Point = Point(x: int, y: int)

  /** The pixel a position falls in: both coordinates cast to `int`. */
  function PixelOf(v: Vec2): Point {
    Point(Trunc(v.x), Trunc(v.y))
  }

  /**
   The buffer: `memory` holds the pixels, `size` is the byte count handed to
   the allocator and to `memset`.
   */
  datatype BackBuffer = BackBuffer(memory: seq<Color>, size: nat, width: int, height: int)

  /** The layout invariant: width*height pixels of four bytes each. */
  predicate Valid(bb: BackBuffer) {
    && 0 <= bb.width
    && 0 <= bb.height
    && bb.width * bb.height <= INT_MAX
    && |bb.memory| == bb.width * bb.height
    && bb.size == 4 * |bb.memory|
    && bb.size <= SIZE_MAX
  }

  /** `b` has the layout of `a`; only pixel values may differ. */
  predicate SameShape(a: BackBuffer, b: BackBuffer) {
    && |b.memory| == |a.memory|
    && b.size == a.size
    && b.width == a.width
    && b.height == a.height
  }

  predicate InBounds(bb: BackBuffer, p: Point) {
    0 <= p.x < bb.width && 0 <= p.y < bb.height
  }

  /** Row-major pixel index. */
  function Index(width: int, p: Point): int {
    p.y * width + p.x
  }

  /** The coordinate of a memory index, the inverse of `Index`. */
  function PointOfIndex(width: int, i: int): Point
    requires 0 < width
  {
    Point(i % width, i / width)
  }

  /**
   Creating a buffer: `size` is width*height*4 bytes. The allocator's
   contents are indeterminate, so they are a parameter.
   */
  function MakeBackBuffer(width: int, height: int, contents: seq<Color>): (bb: BackBuffer)
    requires 0 <= width && 0 <= height && width * height <= INT_MAX
    requires width * height * 4 <= SIZE_MAX
    requires |contents| == width * height
    ensures Valid(bb)
    ensures bb.width == width && bb.height == height
    ensures bb.size == width * height * 4
  {
    BackBuffer(contents, width * height * 4, width, height)
  }

  lemma MulLeftMono(a: int, b: int, c: int)
    requires 0 <= c && a <= b
    ensures a * c <= b * c
  {
  }

  /** Every in-bounds coordinate indexes a pixel of the buffer. */
  lemma IndexInRange(width: int, height: int, p: Point)
    requires 0 <= p.x < width && 0 <= p.y < height
    ensures 0 <= Index(width, p) < width * height
  {
    MulLeftMono(p.y, height - 1, width);
    MulLeftMono(0, p.y, width);
  }

  /** Decoding the index of a coordinate gives the coordinate back. */
  lemma {:induction false} PointIndexRoundTrip(width: int, height: int, p: Point)
    requires 0 <= p.x < width && 0 <= p.y < height
    ensures PointOfIndex(width, Index(width, p)) == p
  {
    var i := Index(width, p);
    MulLeftMono(0, p.y, width);
    assert i == width * p.y + p.x;
    DivModUnique(i, width, p.y, p.x);
  }

  lemma DivModUnique(i: int, w: int, q: int, r: int)
    requires 0 < w && 0 <= r < w && i == w * q + r
    ensures i / w == q && i % w == r
  {
    var q', r' := i / w, i % w;
    assert i == w * q' + r';
    assert w * (q - q') == r' - r;
    if q > q' {
      MulLeftMono(1, q - q', w);
    } else if q < q' {
      MulLeftMono(1, q' - q, w);
    }
  }

  /** Every index of the buffer is the index of an in-bounds coordinate (unique by `IndexInjective`). */
  lemma IndexPointRoundTrip(width: int, height: int, i: int)
    requires 0 < width && 0 <= height && 0 <= i < width * height
    ensures var p := PointOfIndex(width, i); 0 <= p.x < width && 0 <= p.y < height
    ensures Index(width, PointOfIndex(width, i)) == i
  {
    var p := PointOfIndex(width, i);
    assert i == width * p.y + p.x;
    if p.y >= height {
      MulLeftMono(height, p.y, width);
      assert false;
    }
  }

  /** Distinct in-bounds coordinates never share a pixel. */
  lemma IndexInjective(width: int, height: int, p: Point, q: Point)
    requires 0 <= p.x < width && 0 <= p.y < height
    requires 0 <= q.x < width && 0 <= q.y < height
    ensures Index(width, p) == Index(width, q) <==> p == q
  {
    PointIndexRoundTrip(width, height, p);
    PointIndexRoundTrip(width, height, q);
  }

  /**
   The unchecked write: the caller keeps (x, y) inside the buffer. Exactly
   the cell y*width + x changes.
   */
  function SetPixel(bb: BackBuffer, p: Point, color: Color): (r: BackBuffer)
    requires Valid(bb) && InBounds(bb, p)
    ensures Valid(r) && SameShape(bb, r)
    ensures 0 <= Index(bb.width, p) < |r.memory| && r.memory[Index(bb.width, p)] == color
    ensures forall i :: 0 <= i < |bb.memory| && i != Index(bb.width, p) ==> r.memory[i] == bb.memory[i]
  {
    IndexInRange(bb.width, bb.height, p);
    bb.(memory := bb.memory[Index(bb.width, p) := color])
  }

  /** Some point of `pts` lies at memory index `i`. */
  predicate Covers(width: int, pts: seq<Point>, i: int) {
    exists k :: 0 <= k < |pts| && Index(width, pts[k]) == i
  }

  predicate AllInBounds(bb: BackBuffer, pts: seq<Point>) {
    forall k :: 0 <= k < |pts| ==> InBounds(bb, pts[k])
  }

  lemma CoversAppend(width: int, a: seq<Point>, b: seq<Point>, i: int)
    ensures Covers(width, a + b, i) <==> Covers(width, a, i) || Covers(width, b, i)
  {
    if Covers(width, a + b, i) {
      var k :| 0 <= k < |a + b| && Index(width, (a + b)[k]) == i;
      if k >= |a| {
        assert b[k - |a|] == (a + b)[k];
      }
    }
    if Covers(width, b, i) {
      var k :| 0 <= k < |b| && Index(width, b[k]) == i;
      assert (a + b)[|a| + k] == b[k];
    }
    if Covers(width, a, i) {
      var k :| 0 <= k < |a| && Index(width, a[k]) == i;
      assert (a + b)[k] == a[k];
    }
  }

  /** Writing `color` at every point of `pts` in order, as a run of `SetPixel` calls does. */
  function Plot(bb: BackBuffer, pts: seq<Point>, color: Color): (r: BackBuffer)
    requires Valid(bb) && AllInBounds(bb, pts)
    ensures Valid(r) && SameShape(bb, r)
    decreases |pts|
  {
    if pts == [] then bb
    else Plot(SetPixel(bb, pts[0], color), pts[1..], color)
  }

  /** A pixel ends up `color` exactly when some point of `pts` covers it; the rest keep their value. */
  lemma {:induction false} PlotEffect(bb: BackBuffer, pts: seq<Point>, color: Color)
    requires Valid(bb) && AllInBounds(bb, pts)
    ensures forall i :: 0 <= i < |bb.memory| ==>
      Plot(bb, pts, color).memory[i] == (if Covers(bb.width, pts, i) then color else bb.memory[i])
    decreases |pts|
  {
    if pts != [] {
      var next := SetPixel(bb, pts[0], color);
      PlotEffect(next, pts[1..], color);
      forall i | 0 <= i < |bb.memory|
        ensures Covers(bb.width, pts, i) <==>
          (i == Index(bb.width, pts[0]) || Covers(bb.width, pts[1..], i))
      {
        assert pts == [pts[0]] + pts[1..];
        CoversAppend(bb.width, [pts[0]], pts[1..], i);
      }
    }
  }

  /** Plotting one point is one `SetPixel`. */
  lemma PlotSingle(bb: BackBuffer, p: Point, color: Color)
    requires Valid(bb) && InBounds(bb, p)
    ensures AllInBounds(bb, [p]) && Plot(bb, [p], color) == SetPixel(bb, p, color)
  {
    assert [p][1..] == [];
  }

  /** Plotting a concatenation is plotting the parts one after the other. */
  lemma PlotAppend(bb: BackBuffer, a: seq<Point>, b: seq<Point>, color: Color)
    requires Valid(bb) && AllInBounds(bb, a) && AllInBounds(bb, b)
    ensures AllInBounds(bb, a + b)
    ensures Plot(bb, a + b, color) == Plot(Plot(bb, a, color), b, color)
  {
    var r1 := Plot(bb, a + b, color);
    var r2 := Plot(Plot(bb, a, color), b, color);
    PlotEffect(bb, a + b, color);
    PlotEffect(bb, a, color);
    PlotEffect(Plot(bb, a, color), b, color);
    forall i | 0 <= i < |bb.memory| ensures r1.memory[i] == r2.memory[i] {
      CoversAppend(bb.width, a, b, i);
    }
    assert r1.memory == r2.memory;
  }

  /**
   All points get the same colour, so the order and multiplicity of the
   writes do not matter: only the set of points does.
   */
  lemma PlotOrderIndependent(bb: BackBuffer, a: seq<Point>, b: seq<Point>, color: Color)
    requires Valid(bb) && AllInBounds(bb, a)
    requires forall p :: p in a <==> p in b
    ensures AllInBounds(bb, b)
    ensures Plot(bb, a, color) == Plot(bb, b, color)
  {
    assert AllInBounds(bb, b) by {
      forall k | 0 <= k < |b| ensures InBounds(bb, b[k]) {
        assert b[k] in a;
      }
    }
    var ra := Plot(bb, a, color);
    var rb := Plot(bb, b, color);
    PlotEffect(bb, a, color);
    PlotEffect(bb, b, color);
    forall i | 0 <= i < |bb.memory| ensures ra.memory[i] == rb.memory[i] {
      if Covers(bb.width, a, i) {
        var k :| 0 <= k < |a| && Index(bb.width, a[k]) == i;
        assert a[k] in b;
      }
      if Covers(bb.width, b, i) {
        var k :| 0 <= k < |b| && Index(bb.width, b[k]) == i;
        assert b[k] in a;
      }
    }
    assert ra.memory == rb.memory;
  }

  // ---------------------------------------------------------------------
  // Clearing: the byte view of pixel memory.
  // ---------------------------------------------------------------------

  /** `n` bytes all equal to `b`: what `memset` writes. */
  function Memset(n: nat, b: Byte): (bytes: seq<Byte>)
    ensures |bytes| == n
    ensures forall k :: 0 <= k < n ==> bytes[k] == b
  {
    seq(n, _ => b)
  }

  /** Reading byte memory back as little-endian 32-bit pixels. */
  function PixelsOfBytes(bytes: seq<Byte>): (ps: seq<Word32>)
    requires |bytes| % 4 == 0
    ensures |ps| == |bytes| / 4
    ensures forall k :: 0 <= k < |ps| ==>
      ps[k] == WordOfBytes(bytes[4 * k], bytes[4 * k + 1], bytes[4 * k + 2], bytes[4 * k + 3])
    decreases |bytes|
  {
    if bytes == [] then []
    else
      var rest := PixelsOfBytes(bytes[4..]);
      [WordOfBytes(bytes[0], bytes[1], bytes[2], bytes[3])] + rest
  }

  /** The bytes of a run of pixels, four per pixel, little-endian. */
  function BytesOfPixels(ps: seq<Word32>): (bytes: seq<Byte>)
    ensures |bytes| == 4 * |ps|
    ensures forall k, j :: 0 <= k < |ps| && 0 <= j < 4 ==> bytes[4 * k + j] == BytesOfWord(ps[k])[j]
    decreases |ps|
  {
    if ps == [] then []
    else
      var rest := BytesOfPixels(ps[1..]);
      BytesOfWord(ps[0]) + rest
  }

  /** Viewing pixels as bytes and reading them back loses nothing. */
  lemma PixelsBytesRoundTrip(ps: seq<Word32>)
    ensures PixelsOfBytes(BytesOfPixels(ps)) == ps
  {
    var bytes := BytesOfPixels(ps);
    var qs := PixelsOfBytes(bytes);
    forall k | 0 <= k < |ps| ensures qs[k] == ps[k] {
      WordBytesRoundTrip(ps[k]);
    }
  }

  /**
   `memset(memory, color, size)`: every byte of the buffer becomes the low
   byte of `color`, so every pixel becomes four copies of that byte.
   */
  function ClearBackBuffer(bb: BackBuffer, color: Color): (r: BackBuffer)
    requires Valid(bb)
    ensures Valid(r) && SameShape(bb, r)
    ensures forall i :: 0 <= i < |r.memory| ==> r.memory[i] == Splat(LowByte(color))
  {
    bb.(memory := PixelsOfBytes(Memset(bb.size, LowByte(color))))
  }

  /** Clearing paints `color` itself exactly when its four bytes are equal. */
  lemma ClearPaintsColorIff(bb: BackBuffer, color: Color)
    requires Valid(bb) && |bb.memory| > 0
    ensures (forall i :: 0 <= i < |bb.memory| ==> ClearBackBuffer(bb, color).memory[i] == color)
      <==> (var bs := BytesOfWord(color); bs[0] == bs[1] == bs[2] == bs[3])
  {
    SplatIffUniformBytes(color);
    assert ClearBackBuffer(bb, color).memory[0] == Splat(LowByte(color));
  }

  /** Clearing to black leaves every pixel zero: the alpha byte 0xFF is lost. */
  lemma ClearBlackIsZero(bb: BackBuffer)
    requires Valid(bb)
    ensures forall i :: 0 <= i < |bb.memory| ==> ClearBackBuffer(bb, COLOR_BLACK).memory[i] == 0
  {
  }

  /** Clearing to red blackens the buffer instead: the red byte is dropped too. */
  lemma ClearRedIsNotRed(bb: BackBuffer)
    requires Valid(bb) && |bb.memory| > 0
    ensures ClearBackBuffer(bb, COLOR_RED).memory[0] == 0
    ensures ClearBackBuffer(bb, COLOR_RED).memory[0] != COLOR_RED
  {
  }

  /** The evidently intended clear: every pixel becomes `color`. */
  function FillBackBuffer(bb: BackBuffer, color: Color): (r: BackBuffer)
    requires Valid(bb)
    ensures Valid(r) && SameShape(bb, r)
    ensures forall i :: 0 <= i < |r.memory| ==> r.memory[i] == color
  {
    bb.(memory := seq(|bb.memory|, _ => color))
  }

  /**
   The byte-wise clear and the intended fill agree on colours whose four
   bytes are equal (white, for one).
   */
  lemma ClearMatchesFill(bb: BackBuffer, color: Color)
    requires Valid(bb)
    requires var bs := BytesOfWord(color); bs[0] == bs[1] == bs[2] == bs[3]
    ensures ClearBackBuffer(bb, color) == FillBackBuffer(bb, color)
  {
    SplatIffUniformBytes(color);
    var c := ClearBackBuffer(bb, color);
    var f := FillBackBuffer(bb, color);
    assert c.memory == f.memory;
  }

  /**
   Cleared to black, a pixel lacks exactly the top (alpha) byte 0xFF of the
   intended one; its colour bytes agree.
   */
  lemma ClearBlackMatchesFillBelowAlpha(bb: BackBuffer)
    requires Valid(bb)
    ensures forall i :: 0 <= i < |bb.memory| ==>
      ClearBackBuffer(bb, COLOR_BLACK).memory[i] + 0xFF00_0000 == FillBackBuffer(bb, COLOR_BLACK).memory[i]
  {
    ClearBlackIsZero(bb);
    var c := ClearBackBuffer(bb, COLOR_BLACK);
    var f := FillBackBuffer(bb, COLOR_BLACK);
    forall i | 0 <= i < |bb.memory|
      ensures c.memory[i] + 0xFF00_0000 == f.memory[i]
    {
      assert c.memory[i] == 0 && f.memory[i] == COLOR_BLACK;
    }
  }
}
