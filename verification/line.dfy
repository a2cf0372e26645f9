/**
 The line rasterizer: a DDA walk along the major axis.

 Both endpoints are cast to pixels. Equal pixels give a single write.
 Otherwise the axis with the larger extent is the major axis; the walk goes
 from the endpoint with the lower major coordinate to the other, one pixel
 per major coordinate, and the minor coordinate of step t is
 `(int)(m * t + start)` where m is the slope of the minor axis against the
 major one. The slope is a `float` in the source; here it is an exact real.
 */
module Line {
  import opened Colors
  import opened VecMath
  import opened BackBuffers

  /** The line is longer in x than in y, so x is walked. */
  predicate XMajor(p1: Point, p2: Point) {
    Abs(p2.x - p1.x) > Abs(p2.y - p1.y)
  }

  /** A slope as the source computes it: a quotient of integer differences. */
  function Slope(num: int, den: int): real
    requires den != 0
  {
    num as real / den as real
  }

  /** `(int)(m * t + start)`: the minor coordinate after t major steps. */
  function MinorCoord(m: real, t: int, start: int): int {
    Trunc(m * t as real + start as real)
  }

  function Min(a: int, b: int): int {
    if a <= b then a else b
  }

  function Max(a: int, b: int): int {
    if a <= b then b else a
  }

  /** The first n pixels of an x-major walk from `start` with slope m. */
  function XWalk(start: Point, m: real, n: nat): seq<Point> {
    seq(n, t => Point(start.x + t, MinorCoord(m, t, start.y)))
  }

  /** The first n pixels of a y-major walk from `start` with slope m. */
  function YWalk(start: Point, m: real, n: nat): seq<Point> {
    seq(n, t => Point(MinorCoord(m, t, start.x), start.y + t))
  }

  /**
   Every pixel write of drawLine from p1 to p2, in order, with the slope as
   an exact real. Equal endpoints give the single pixel. Otherwise x is
   walked exactly when |dx| > |dy|; the major coordinate runs from the lower
   endpoint's to the higher one's, one pixel per value and no other, so there
   are |d|+1 pixels, and the first pixel is the lower endpoint itself. The
   divisions are well defined: dx is non-zero when x is the major axis, and
   dy is non-zero otherwise, since |dx| <= |dy| and the endpoints differ.
   */
  function LinePoints(p1: Point, p2: Point): (ps: seq<Point>)
    ensures p1 == p2 ==> ps == [p1]
    ensures p1 != p2 && XMajor(p1, p2) ==>
      && |ps| == Abs(p2.x - p1.x) + 1
      && (forall t :: 0 <= t < |ps| ==> ps[t].x == Min(p1.x, p2.x) + t)
      && ps[0] == (if p1.x < p2.x then p1 else p2)
    ensures p1 != p2 && !XMajor(p1, p2) ==>
      && |ps| == Abs(p2.y - p1.y) + 1
      && (forall t :: 0 <= t < |ps| ==> ps[t].y == Min(p1.y, p2.y) + t)
      && ps[0] == (if p1.y < p2.y then p1 else p2)
  {
    if p1 == p2 then [p1]
    else
      var dx := p2.x - p1.x;
      var dy := p2.y - p1.y;
      if Abs(dx) > Abs(dy) then
        var m := Slope(dy, dx);
        var start := if p1.x < p2.x then p1 else p2;
        var end := if p1.x < p2.x then p2 else p1;
        StartExact(m, start.y);
        XWalk(start, m, end.x - start.x + 1)
      else
        var m := Slope(dx, dy);
        var start := if p1.y < p2.y then p1 else p2;
        var end := if p1.y < p2.y then p2 else p1;
        StartExact(m, start.x);
        YWalk(start, m, end.y - start.y + 1)
  }

  /** At the first step the minor coordinate is the start's own, whatever the slope. */
  lemma StartExact(m: real, start: int)
    ensures MinorCoord(m, 0, start) == start
  {
    TruncBounds(start as real, start, start);
  }

  // ---------------------------------------------------------------------
  // The minor coordinate.
  // ---------------------------------------------------------------------

  /** Scaling by a factor in [0, 1] lands between 0 and the value scaled. */
  lemma ScaleBetween(d: real, f: real)
    requires 0.0 <= f <= 1.0
    ensures d >= 0.0 ==> 0.0 <= d * f <= d
    ensures d < 0.0 ==> d <= d * f <= 0.0
  {
    if d >= 0.0 {
      assert d * (1.0 - f) >= 0.0;
    } else {
      assert (-d) * (1.0 - f) >= 0.0;
      assert (-d) * f >= 0.0;
    }
  }

  /** A step count over a positive length is a fraction in [0, 1]. */
  lemma UnitFraction(t: int, len: int)
    requires 0 < len && 0 <= t <= len
    ensures 0.0 <= t as real / len as real <= 1.0
  {
  }

  /** The real value before truncation stays between a and b. */
  lemma MinorValueBetween(a: int, b: int, len: int, t: int)
    requires 0 < len && 0 <= t <= len
    ensures var v := Slope(b - a, len) * t as real + a as real;
      Min(a, b) as real <= v <= Max(a, b) as real
  {
    var d := (b - a) as real;
    var f := t as real / len as real;
    UnitFraction(t, len);
    assert Slope(b - a, len) * t as real == d * f;
    ScaleBetween(d, f);
  }

  /**
   Walking from a to b over `len` major steps with slope (b-a)/len, the
   minor coordinate never leaves [min(a,b), max(a,b)].
   */
  lemma MinorBetween(a: int, b: int, len: int, t: int)
    requires 0 < len && 0 <= t <= len
    ensures Min(a, b) <= MinorCoord(Slope(b - a, len), t, a) <= Max(a, b)
  {
    var v := Slope(b - a, len) * t as real + a as real;
    MinorValueBetween(a, b, len, t);
    TruncBounds(v, Min(a, b), Max(a, b));
    assert MinorCoord(Slope(b - a, len), t, a) == Trunc(v);
  }

  /** Truncation of nearby non-negative values differs by at most one. */
  lemma TruncStep(v: real, w: real)
    requires 0.0 <= v && 0.0 <= w && v - 1.0 <= w <= v + 1.0
    ensures Abs(Trunc(w) - Trunc(v)) <= 1
  {
    if v <= w {
      assert v.Floor <= w.Floor;
    } else {
      assert w.Floor <= v.Floor;
    }
  }

  /** A difference no longer than the length gives a slope of magnitude at most one. */
  lemma SlopeAtMostOne(d: int, len: int)
    requires 0 < len && Abs(d) <= len
    ensures -1.0 <= Slope(d, len) <= 1.0
  {
    var m := Slope(d, len);
    assert m * len as real == d as real;
    if d >= 0 {
      UnitFraction(d, len);
    } else {
      UnitFraction(-d, len);
      assert m == -((-d) as real / len as real);
    }
  }

  /** Adjacent steps of a walk with slope at most one, above zero, differ by at most one. */
  lemma MinorStepCore(m: real, t: int, a: int)
    requires -1.0 <= m <= 1.0
    requires 0.0 <= m * t as real + a as real && 0.0 <= m * (t + 1) as real + a as real
    ensures Abs(MinorCoord(m, t + 1, a) - MinorCoord(m, t, a)) <= 1
  {
    var v := m * t as real + a as real;
    var w := m * (t + 1) as real + a as real;
    assert w == v + m;
    TruncStep(v, w);
  }

  /** With a slope of magnitude at most one, consecutive minor coordinates are adjacent. */
  lemma MinorStep(a: int, b: int, len: int, t: int)
    requires 0 < len && 0 <= t < len
    requires Abs(b - a) <= len
    requires 0 <= a && 0 <= b
    ensures Abs(MinorCoord(Slope(b - a, len), t + 1, a) - MinorCoord(Slope(b - a, len), t, a)) <= 1
  {
    SlopeAtMostOne(b - a, len);
    MinorValueBetween(a, b, len, t);
    MinorValueBetween(a, b, len, t + 1);
    MinorStepCore(Slope(b - a, len), t, a);
  }

  // ---------------------------------------------------------------------
  // Properties of the plotted pixels.
  // ---------------------------------------------------------------------

  /** Swapping both differences leaves a quotient unchanged. */
  lemma SlopeNegate(num: int, den: int)
    requires den != 0
    ensures Slope(-num, -den) == Slope(num, den)
  {
  }

  /** At the far end of the walk the exact slope lands on the other endpoint. */
  lemma SlopeReachesEnd(a: int, b: int, len: int)
    requires 0 < len
    ensures MinorCoord(Slope(b - a, len), len, a) == b
  {
    var m := Slope(b - a, len);
    assert m * len as real == (b - a) as real;
    assert m * len as real + a as real == b as real;
    TruncBounds(b as real, b, b);
  }

  /** Both endpoints are drawn: the walk starts on one and ends on the other. */
  lemma LineEndpoints(p1: Point, p2: Point)
    ensures p1 in LinePoints(p1, p2) && p2 in LinePoints(p1, p2)
  {
    if p1 != p2 {
      var ps := LinePoints(p1, p2);
      if XMajor(p1, p2) {
        XMajorSlope(p1, p2);
        var start := if p1.x < p2.x then p1 else p2;
        var end := if p1.x < p2.x then p2 else p1;
        var len := end.x - start.x;
        SlopeReachesEnd(start.y, end.y, len);
        assert ps[len] == end;
      } else {
        YMajorSlope(p1, p2);
        var start := if p1.y < p2.y then p1 else p2;
        var end := if p1.y < p2.y then p2 else p1;
        var len := end.y - start.y;
        SlopeReachesEnd(start.x, end.x, len);
        assert ps[len] == end;
      }
    }
  }

  /** The pixels do not depend on the order the endpoints are given in. */
  lemma LineOrderIndependent(p1: Point, p2: Point)
    ensures LinePoints(p1, p2) == LinePoints(p2, p1)
  {
    if p1 != p2 {
      if XMajor(p1, p2) {
        SlopeNegate(p2.y - p1.y, p2.x - p1.x);
      } else {
        SlopeNegate(p2.x - p1.x, p2.y - p1.y);
      }
    }
  }

  /**
   In the x-major walk the slope is the minor difference over the major
   difference from the lower endpoint to the higher one, in either order.
   */
  lemma XMajorSlope(p1: Point, p2: Point)
    requires p1 != p2 && XMajor(p1, p2)
    ensures var start := if p1.x < p2.x then p1 else p2;
      var end := if p1.x < p2.x then p2 else p1;
      end.x - start.x > 0 && Slope(p2.y - p1.y, p2.x - p1.x) == Slope(end.y - start.y, end.x - start.x)
  {
    SlopeNegate(p2.y - p1.y, p2.x - p1.x);
  }

  lemma YMajorSlope(p1: Point, p2: Point)
    requires p1 != p2 && !XMajor(p1, p2)
    ensures var start := if p1.y < p2.y then p1 else p2;
      var end := if p1.y < p2.y then p2 else p1;
      end.y - start.y > 0 && Slope(p2.x - p1.x, p2.y - p1.y) == Slope(end.x - start.x, end.y - start.y)
  {
    SlopeNegate(p2.x - p1.x, p2.y - p1.y);
  }

  /** Every pixel lies in the bounding box of the two endpoints. */
  lemma LineInBox(p1: Point, p2: Point)
    ensures forall q :: q in LinePoints(p1, p2) ==>
      Min(p1.x, p2.x) <= q.x <= Max(p1.x, p2.x) && Min(p1.y, p2.y) <= q.y <= Max(p1.y, p2.y)
  {
    if p1 != p2 {
      if XMajor(p1, p2) {
        XMajorInBox(p1, p2);
      } else {
        YMajorInBox(p1, p2);
      }
    }
  }

  lemma XMajorInBox(p1: Point, p2: Point)
    requires p1 != p2 && XMajor(p1, p2)
    ensures var ps := LinePoints(p1, p2);
      forall t :: 0 <= t < |ps| ==> Min(p1.y, p2.y) <= ps[t].y <= Max(p1.y, p2.y)
  {
    XMajorSlope(p1, p2);
    var ps := LinePoints(p1, p2);
    var start := if p1.x < p2.x then p1 else p2;
    var end := if p1.x < p2.x then p2 else p1;
    forall t | 0 <= t < |ps| ensures Min(p1.y, p2.y) <= ps[t].y <= Max(p1.y, p2.y) {
      MinorBetween(start.y, end.y, end.x - start.x, t);
    }
  }

  lemma YMajorInBox(p1: Point, p2: Point)
    requires p1 != p2 && !XMajor(p1, p2)
    ensures var ps := LinePoints(p1, p2);
      forall t :: 0 <= t < |ps| ==> Min(p1.x, p2.x) <= ps[t].x <= Max(p1.x, p2.x)
  {
    YMajorSlope(p1, p2);
    var ps := LinePoints(p1, p2);
    var start := if p1.y < p2.y then p1 else p2;
    var end := if p1.y < p2.y then p2 else p1;
    forall t | 0 <= t < |ps| ensures Min(p1.x, p2.x) <= ps[t].x <= Max(p1.x, p2.x) {
      MinorBetween(start.x, end.x, end.y - start.y, t);
    }
  }

  /**
   The drawn path has no gaps: consecutive pixels are 8-connected, the major
   coordinate rising by one and the minor one moving by at most one.
   */
  lemma LineConnected(p1: Point, p2: Point)
    requires 0 <= p1.x && 0 <= p1.y && 0 <= p2.x && 0 <= p2.y
    ensures var ps := LinePoints(p1, p2);
      forall t :: 0 <= t < |ps| - 1 ==>
        Abs(ps[t + 1].x - ps[t].x) <= 1 && Abs(ps[t + 1].y - ps[t].y) <= 1
  {
    if p1 != p2 {
      if XMajor(p1, p2) {
        XMajorConnected(p1, p2);
      } else {
        YMajorConnected(p1, p2);
      }
    }
  }

  lemma XMajorConnected(p1: Point, p2: Point)
    requires 0 <= p1.y && 0 <= p2.y
    requires p1 != p2 && XMajor(p1, p2)
    ensures var ps := LinePoints(p1, p2);
      forall t :: 0 <= t < |ps| - 1 ==> Abs(ps[t + 1].y - ps[t].y) <= 1
  {
    XMajorSlope(p1, p2);
    var ps := LinePoints(p1, p2);
    var start := if p1.x < p2.x then p1 else p2;
    var end := if p1.x < p2.x then p2 else p1;
    forall t | 0 <= t < |ps| - 1 ensures Abs(ps[t + 1].y - ps[t].y) <= 1 {
      MinorStep(start.y, end.y, end.x - start.x, t);
    }
  }

  lemma YMajorConnected(p1: Point, p2: Point)
    requires 0 <= p1.x && 0 <= p2.x
    requires p1 != p2 && !XMajor(p1, p2)
    ensures var ps := LinePoints(p1, p2);
      forall t :: 0 <= t < |ps| - 1 ==> Abs(ps[t + 1].x - ps[t].x) <= 1
  {
    YMajorSlope(p1, p2);
    var ps := LinePoints(p1, p2);
    var start := if p1.y < p2.y then p1 else p2;
    var end := if p1.y < p2.y then p2 else p1;
    forall t | 0 <= t < |ps| - 1 ensures Abs(ps[t + 1].x - ps[t].x) <= 1 {
      MinorStep(start.x, end.x, end.y - start.y, t);
    }
  }

  /** Nothing is clamped, but in-buffer endpoints keep every write in the buffer. */
  lemma LineInBounds(bb: BackBuffer, p1: Point, p2: Point)
    requires InBounds(bb, p1) && InBounds(bb, p2)
    ensures AllInBounds(bb, LinePoints(p1, p2))
  {
    var ps := LinePoints(p1, p2);
    LineInBox(p1, p2);
    forall k | 0 <= k < |ps| ensures InBounds(bb, ps[k]) {
      assert ps[k] in ps;
    }
  }

  /**
   drawLine: the caller keeps both endpoints inside the buffer (nothing is
   clamped); the writes are exactly `LinePoints` of the two pixels.
   */
  method DrawLine(bb: BackBuffer, v1: Vec2, v2: Vec2, color: Color)
    returns (r: BackBuffer, plotted: seq<Point>)
    requires Valid(bb)
    requires InBounds(bb, PixelOf(v1)) && InBounds(bb, PixelOf(v2))
    ensures plotted == LinePoints(PixelOf(v1), PixelOf(v2))
    ensures AllInBounds(bb, plotted) && r == Plot(bb, plotted, color)
  {
    var x1 := Trunc(v1.x);
    var y1 := Trunc(v1.y);
    var x2 := Trunc(v2.x);
    var y2 := Trunc(v2.y);

    if x1 == x2 && y1 == y2 {
      PlotSingle(bb, Point(x1, y1), color);
      r := SetPixel(bb, Point(x1, y1), color);
      plotted := [Point(x1, y1)];
      return;
    }

    var dx := x2 - x1;
    var dy := y2 - y1;
    if Abs(dx) > Abs(dy) {
      r, plotted := WalkX(bb, Point(x1, y1), Point(x2, y2), color);
    } else {
      r, plotted := WalkY(bb, Point(x1, y1), Point(x2, y2), color);
    }
  }

  /** The x-major branch of drawLine: one pixel per column from the left endpoint. */
  method WalkX(bb: BackBuffer, p1: Point, p2: Point, color: Color)
    returns (r: BackBuffer, plotted: seq<Point>)
    requires Valid(bb) && InBounds(bb, p1) && InBounds(bb, p2)
    requires p1 != p2 && XMajor(p1, p2)
    ensures plotted == LinePoints(p1, p2)
    ensures AllInBounds(bb, plotted) && r == Plot(bb, plotted, color)
  {
    ghost var all := LinePoints(p1, p2);
    LineInBounds(bb, p1, p2);
    var m := Slope(p2.y - p1.y, p2.x - p1.x);
    var xStart, yStart, xEnd, yEnd;
    if p1.x < p2.x {
      xStart, yStart, xEnd, yEnd := p1.x, p1.y, p2.x, p2.y;
    } else {
      xStart, yStart, xEnd, yEnd := p2.x, p2.y, p1.x, p1.y;
    }
    ghost var start := Point(xStart, yStart);
    assert all == XWalk(start, m, xEnd - xStart + 1);
    r, plotted := bb, [];
    var x := xStart;
    while x <= xEnd
      invariant xStart <= x <= xEnd + 1
      invariant plotted == XWalk(start, m, x - xStart)
      invariant AllInBounds(bb, plotted) && r == Plot(bb, plotted, color)
    {
      var y := MinorCoord(m, x - xStart, yStart);
      var p := Point(x, y);
      assert p == all[x - xStart];
      assert XWalk(start, m, x - xStart + 1) == plotted + [p];
      PlotSingle(r, p, color);
      PlotAppend(bb, plotted, [p], color);
      r := SetPixel(r, p, color);
      plotted := plotted + [p];
      x := x + 1;
    }
  }

  /** The y-major branch of drawLine: one pixel per row from the lower endpoint. */
  method WalkY(bb: BackBuffer, p1: Point, p2: Point, color: Color)
    returns (r: BackBuffer, plotted: seq<Point>)
    requires Valid(bb) && InBounds(bb, p1) && InBounds(bb, p2)
    requires p1 != p2 && !XMajor(p1, p2)
    ensures plotted == LinePoints(p1, p2)
    ensures AllInBounds(bb, plotted) && r == Plot(bb, plotted, color)
  {
    ghost var all := LinePoints(p1, p2);
    LineInBounds(bb, p1, p2);
    var m := Slope(p2.x - p1.x, p2.y - p1.y);
    var xStart, yStart, xEnd, yEnd;
    if p1.y < p2.y {
      xStart, yStart, xEnd, yEnd := p1.x, p1.y, p2.x, p2.y;
    } else {
      xStart, yStart, xEnd, yEnd := p2.x, p2.y, p1.x, p1.y;
    }
    ghost var start := Point(xStart, yStart);
    assert all == YWalk(start, m, yEnd - yStart + 1);
    r, plotted := bb, [];
    var y := yStart;
    while y <= yEnd
      invariant yStart <= y <= yEnd + 1
      invariant plotted == YWalk(start, m, y - yStart)
      invariant AllInBounds(bb, plotted) && r == Plot(bb, plotted, color)
    {
      var x := MinorCoord(m, y - yStart, xStart);
      var p := Point(x, y);
      assert p == all[y - yStart];
      assert YWalk(start, m, y - yStart + 1) == plotted + [p];
      PlotSingle(r, p, color);
      PlotAppend(bb, plotted, [p], color);
      r := SetPixel(r, p, color);
      plotted := plotted + [p];
      y := y + 1;
    }
  }
}
