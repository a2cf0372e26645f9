/**
 The circle outline rasterizer: an integer, eight-way symmetric,
 midpoint-style walk over one octant of the circle.

 The walk starts at offset (radius, 0). Each iteration plots the eight
 reflections of the current offset (x, y), then raises y by one and keeps x
 or moves it to x-1, whichever leaves x*x + y*y nearer to radius*radius
 (keeping x on a tie). It stops as soon as x < y.
 */
module Circle {
  import opened Colors
  import opened VecMath
  import opened BackBuffers

  /** How far the squared length of offset (x, y) misses the squared radius. */
  function SqError(x: int, y: int, radiusSquared: int): int {
    x * x + y * y - radiusSquared
  }

  /**
   The column chosen after y has been raised: x-1 when its squared error is
   strictly smaller than that of x, otherwise x.
   */
  function NextX(x: int, y: int, radiusSquared: int): int {
    var oldXError := Abs(SqError(x, y, radiusSquared));
    var newXError := Abs(SqError(x - 1, y, radiusSquared));
    if newXError < oldXError then x - 1 else x
  }

  /**
   The decision rule: the new column is x or x-1, it is at least as good as
   either, and a tie keeps x.
   */
  lemma NextXMinimizes(x: int, y: int, radiusSquared: int)
    ensures var nx := NextX(x, y, radiusSquared);
      && (nx == x || nx == x - 1)
      && Abs(SqError(nx, y, radiusSquared)) <= Abs(SqError(x, y, radiusSquared))
      && Abs(SqError(nx, y, radiusSquared)) <= Abs(SqError(x - 1, y, radiusSquared))
      && (Abs(SqError(x - 1, y, radiusSquared)) == Abs(SqError(x, y, radiusSquared)) ==> nx == x)
  {
  }

  /** The offsets the loop visits from state (x, y), one per iteration. */
  function Offsets(x: int, y: int, radiusSquared: int): seq<Point>
    decreases x - y + 1
  {
    if x < y then []
    else [Point(x, y)] + Offsets(NextX(x, y + 1, radiusSquared), y + 1, radiusSquared)
  }

  /**
   The walk of `drawCircle` for a given radius: none for a negative radius;
   otherwise it starts at (radius, 0), the k-th offset has y = k, they stay
   in the octant 0 <= y <= x <= radius, number at most radius+1, each misses
   the circle by at most x in squared length, each next column is the
   one the rule picks, x or x-1, and the walk ends exactly when the rule's
   next column would fall left of the raised y.
   */
  predicate OctantWalk(radius: int, o: seq<Point>) {
    OctantSteps(radius, o) && WalkStops(radius, o)
  }

  /** Everything `OctantWalk` says except where the walk ends. */
  predicate OctantSteps(radius: int, o: seq<Point>) {
    && (radius < 0 ==> o == [])
    && (radius >= 0 ==> 0 < |o| <= radius + 1 && o[0] == Point(radius, 0))
    && (forall k :: 0 <= k < |o| ==>
      && o[k].y == k
      && 0 <= o[k].y <= o[k].x <= radius
      && Abs(SqError(o[k].x, o[k].y, radius * radius)) <= o[k].x)
    && (forall k :: 0 <= k < |o| - 1 ==>
      && o[k + 1].y == o[k].y + 1
      && o[k].x - 1 <= o[k + 1].x <= o[k].x
      && o[k + 1].x == NextX(o[k].x, o[k].y + 1, radius * radius))
  }

  /** After the last offset, the rule's next column falls left of the raised y. */
  predicate WalkStops(radius: int, o: seq<Point>) {
    |o| > 0 ==> NextX(o[|o| - 1].x, o[|o| - 1].y + 1, radius * radius) < o[|o| - 1].y + 1
  }

  /** The offsets visited for a given radius, one per loop iteration. */
  function CircleOffsets(radius: int): (o: seq<Point>)
    ensures OctantWalk(radius, o)
  {
    var o := Offsets(radius, 0, radius * radius);
    RadiusWalk(radius, o);
    o
  }

  /** The walk from (radius, 0) is the octant walk of that radius. */
  lemma RadiusWalk(radius: int, o: seq<Point>)
    requires o == Offsets(radius, 0, radius * radius)
    ensures OctantWalk(radius, o)
  {
    RadiusSteps(radius, o);
    OffsetsExit(radius, 0, radius * radius);
  }

  lemma RadiusSteps(radius: int, o: seq<Point>)
    requires o == Offsets(radius, 0, radius * radius)
    ensures OctantSteps(radius, o)
  {
    var rsq := radius * radius;
    assert SqError(radius, 0, rsq) == 0;
    OffsetsShape(radius, 0, rsq, radius);
    OffsetsSteps(radius, 0, rsq);
    forall k | 0 <= k < |o| - 1 ensures o[k + 1].y == o[k].y + 1 {
      assert o[k].y == k && o[k + 1].y == k + 1;
    }
  }

  /** The eight points plotted for one offset, in the order they are written. */
  function Octants(c: Point, o: Point): seq<Point> {
    [ Point(c.x + o.x, c.y + o.y), Point(c.x + o.y, c.y + o.x),
      Point(c.x - o.y, c.y + o.x), Point(c.x - o.x, c.y + o.y),
      Point(c.x - o.x, c.y - o.y), Point(c.x - o.y, c.y - o.x),
      Point(c.x + o.y, c.y - o.x), Point(c.x + o.x, c.y - o.y) ]
  }

  /** The points plotted for a run of offsets: eight per offset, in order. */
  function Symmetric8(c: Point, offsets: seq<Point>): (ps: seq<Point>)
    ensures |ps| == 8 * |offsets|
    ensures forall k, j :: 0 <= k < |offsets| && 0 <= j < 8 ==> ps[8 * k + j] == Octants(c, offsets[k])[j]
    decreases |offsets|
  {
    if offsets == [] then []
    else Octants(c, offsets[0]) + Symmetric8(c, offsets[1..])
  }

  /** Every pixel write of a circle of the given centre and radius, in order. */
  function CirclePoints(c: Point, radius: int): seq<Point> {
    Symmetric8(c, CircleOffsets(radius))
  }

  /** The circle's pixels fit in the buffer: the square of side 2r+1 around the centre does. */
  predicate CircleFits(bb: BackBuffer, c: Point, radius: int) {
    radius < 0 ||
    (0 <= c.x - radius && c.x + radius < bb.width && 0 <= c.y - radius && c.y + radius < bb.height)
  }

  /**
   The `int` arithmetic at the head of `drawCircle` is defined: both centre
   casts land in `int`, and so does `radius*radius` (|radius| <= 46340, see
   `RadiusBoundIff`). A fitting circle of
   non-negative radius always meets this (`FittingCircleCastsFit`); only a
   negative radius, which `CircleFits` does not bound, needs it stated.
   */
  predicate CircleCastsFit(position: Vec2, radiusF: real) {
    && INT_MIN <= Trunc(position.x) <= INT_MAX
    && INT_MIN <= Trunc(position.y) <= INT_MAX
    && -46340 <= Trunc(radiusF) <= 46340
  }

  /** The radius bound of `CircleCastsFit` is exactly "radius*radius fits in an `int`". */
  lemma RadiusBoundIff(radius: int)
    ensures -46340 <= radius <= 46340 <==> radius * radius <= INT_MAX
  {
    if radius > 46340 {
      MulLeftMono(46341, radius, radius);
      MulLeftMono(46341, radius, 46341);
    } else if radius < -46340 {
      MulLeftMono(46341, -radius, -radius);
      MulLeftMono(46341, -radius, 46341);
    } else if radius >= 0 {
      MulLeftMono(radius, 46340, radius);
      MulLeftMono(radius, 46340, 46340);
    } else {
      MulLeftMono(-radius, 46340, -radius);
      MulLeftMono(-radius, 46340, 46340);
    }
  }

  /** Squared distance between two pixels. */
  function SqDist(c: Point, p: Point): int {
    (p.x - c.x) * (p.x - c.x) + (p.y - c.y) * (p.y - c.y)
  }

  /** Reflection across the vertical line through the centre. */
  function MirrorX(c: Point, p: Point): Point {
    Point(2 * c.x - p.x, p.y)
  }

  /** Reflection across the horizontal line through the centre. */
  function MirrorY(c: Point, p: Point): Point {
    Point(p.x, 2 * c.y - p.y)
  }

  /** Reflection across the diagonal through the centre: the offsets swap. */
  function SwapAxes(c: Point, p: Point): Point {
    Point(c.x + (p.y - c.y), c.y + (p.x - c.x))
  }

  // ---------------------------------------------------------------------
  // The walk over one octant.
  // ---------------------------------------------------------------------

  /**
   One step keeps the error bound: if |x*x + y*y - r*r| <= x before the step
   and the walk goes on, the bound holds for the new column too.
   */
  lemma ErrorStep(x: int, y: int, radiusSquared: int)
    requires 0 <= y <= x
    requires Abs(SqError(x, y, radiusSquared)) <= x
    ensures var nx := NextX(x, y + 1, radiusSquared);
      nx >= y + 1 ==> Abs(SqError(nx, y + 1, radiusSquared)) <= nx
  {
    var e := SqError(x, y, radiusSquared);
    var keep := SqError(x, y + 1, radiusSquared);
    var step := SqError(x - 1, y + 1, radiusSquared);
    assert keep == e + 2 * y + 1 by {
      assert (y + 1) * (y + 1) == y * y + 2 * y + 1;
    }
    assert step == keep - 2 * x + 1 by {
      assert (x - 1) * (x - 1) == x * x - 2 * x + 1;
    }
  }

  /**
   The shape of the walk from a state that satisfies the loop invariant:
   y rises by one per offset, x follows `NextX`, and every offset lies in the
   first octant below the radius with squared error at most x.
   */
  lemma {:induction false} OffsetsShape(x: int, y: int, radiusSquared: int, radius: int)
    requires 0 <= y && x <= radius
    requires x >= y ==> Abs(SqError(x, y, radiusSquared)) <= x
    ensures var o := Offsets(x, y, radiusSquared);
      forall k :: 0 <= k < |o| ==>
        && o[k].y == y + k
        && o[k].y <= o[k].x <= radius
        && Abs(SqError(o[k].x, o[k].y, radiusSquared)) <= o[k].x
    ensures x >= y ==> |Offsets(x, y, radiusSquared)| > 0 && Offsets(x, y, radiusSquared)[0] == Point(x, y)
    ensures x >= y ==> |Offsets(x, y, radiusSquared)| <= radius - y + 1
    ensures x < y ==> Offsets(x, y, radiusSquared) == []
    decreases x - y + 1
  {
    if x >= y {
      var nx := NextX(x, y + 1, radiusSquared);
      ErrorStep(x, y, radiusSquared);
      NextXChoice(x, y + 1, radiusSquared);
      OffsetsShape(nx, y + 1, radiusSquared, radius);
      var rest := Offsets(nx, y + 1, radiusSquared);
      var o := Offsets(x, y, radiusSquared);
      assert o == [Point(x, y)] + rest;
      assert forall k :: 1 <= k < |o| ==> o[k] == rest[k - 1];
    }
  }

  /** Each offset after the first takes the column the rule chooses from the one before. */
  lemma {:induction false} OffsetsSteps(x: int, y: int, radiusSquared: int)
    ensures forall k :: 0 <= k < |Offsets(x, y, radiusSquared)| - 1 ==>
      Offsets(x, y, radiusSquared)[k + 1].x
        == NextX(Offsets(x, y, radiusSquared)[k].x, Offsets(x, y, radiusSquared)[k].y + 1, radiusSquared)
    ensures forall k :: 0 <= k < |Offsets(x, y, radiusSquared)| - 1 ==>
      Offsets(x, y, radiusSquared)[k].x - 1 <= Offsets(x, y, radiusSquared)[k + 1].x <= Offsets(x, y, radiusSquared)[k].x
    decreases x - y + 1
  {
    if x >= y {
      var nx := NextX(x, y + 1, radiusSquared);
      NextXChoice(x, y + 1, radiusSquared);
      OffsetsSteps(nx, y + 1, radiusSquared);
      var rest := Offsets(nx, y + 1, radiusSquared);
      var o := Offsets(x, y, radiusSquared);
      assert o == [Point(x, y)] + rest;
      forall k | 0 <= k < |o| - 1
        ensures o[k + 1].x == NextX(o[k].x, o[k].y + 1, radiusSquared)
      {
        if k == 0 {
          assert o[1] == rest[0] == Point(nx, y + 1);
        } else {
          var j := k - 1;
          assert rest[j + 1].x == NextX(rest[j].x, rest[j].y + 1, radiusSquared);
          assert o[k] == rest[j] && o[k + 1] == rest[j + 1];
        }
      }
    }
    var o := Offsets(x, y, radiusSquared);
    forall k | 0 <= k < |o| - 1 ensures o[k].x - 1 <= o[k + 1].x <= o[k].x {
      NextXChoice(o[k].x, o[k].y + 1, radiusSquared);
    }
  }

  /** The walk stops where the loop does: after its last offset the next state has x < y. */
  lemma {:induction false} OffsetsExit(x: int, y: int, radiusSquared: int)
    ensures var o := Offsets(x, y, radiusSquared);
      |o| > 0 ==> NextX(o[|o| - 1].x, o[|o| - 1].y + 1, radiusSquared) < o[|o| - 1].y + 1
    decreases x - y + 1
  {
    if x >= y {
      var nx := NextX(x, y + 1, radiusSquared);
      OffsetsExit(nx, y + 1, radiusSquared);
      var rest := Offsets(nx, y + 1, radiusSquared);
      var o := Offsets(x, y, radiusSquared);
      assert o == [Point(x, y)] + rest;
      if rest != [] {
        assert o[|o| - 1] == rest[|rest| - 1];
      }
    }
  }

  /**
   The walk reaches the diagonal: its last offset has y <= x <= y + 1, so
   the octant arc runs all the way from (radius, 0) to the line x == y.
   */
  lemma CircleReachesDiagonal(radius: int)
    requires radius >= 0
    ensures var o := CircleOffsets(radius);
      o[|o| - 1].y <= o[|o| - 1].x <= o[|o| - 1].y + 1
  {
    var o := CircleOffsets(radius);
    var last := o[|o| - 1];
    NextXChoice(last.x, last.y + 1, radius * radius);
  }

  lemma NextXChoice(x: int, y: int, radiusSquared: int)
    ensures NextX(x, y, radiusSquared) == x || NextX(x, y, radiusSquared) == x - 1
  {
  }

  // ---------------------------------------------------------------------
  // Properties of the plotted pixels.
  // ---------------------------------------------------------------------

  /** Every plotted pixel is one of the eight reflections of some offset. */
  lemma InSymmetric8(c: Point, offsets: seq<Point>, p: Point)
    requires p in Symmetric8(c, offsets)
    ensures exists k :: 0 <= k < |offsets| && p in Octants(c, offsets[k])
  {
    var ps := Symmetric8(c, offsets);
    var i :| 0 <= i < |ps| && ps[i] == p;
    var k, j := i / 8, i % 8;
    assert i == 8 * k + j;
    assert p == Octants(c, offsets[k])[j];
  }

  /** The eight reflections of an offset are plotted along with it. */
  lemma OctantsInSymmetric8(c: Point, offsets: seq<Point>, k: int)
    requires 0 <= k < |offsets|
    ensures forall q :: q in Octants(c, offsets[k]) ==> q in Symmetric8(c, offsets)
  {
    var ps := Symmetric8(c, offsets);
    forall q | q in Octants(c, offsets[k]) ensures q in ps {
      var j :| 0 <= j < 8 && Octants(c, offsets[k])[j] == q;
      assert ps[8 * k + j] == q;
    }
  }

  /** The eight reflections of one offset are closed under each reflection. */
  lemma OctantsClosed(c: Point, o: Point, p: Point)
    requires p in Octants(c, o)
    ensures MirrorX(c, p) in Octants(c, o)
    ensures MirrorY(c, p) in Octants(c, o)
    ensures SwapAxes(c, p) in Octants(c, o)
  {
    var oct := Octants(c, o);
    var j :| 0 <= j < 8 && oct[j] == p;
    if j == 0 {
      assert MirrorX(c, p) == oct[3] && MirrorY(c, p) == oct[7] && SwapAxes(c, p) == oct[1];
    } else if j == 1 {
      assert MirrorX(c, p) == oct[2] && MirrorY(c, p) == oct[6] && SwapAxes(c, p) == oct[0];
    } else if j == 2 {
      assert MirrorX(c, p) == oct[1] && MirrorY(c, p) == oct[5] && SwapAxes(c, p) == oct[7];
    } else if j == 3 {
      assert MirrorX(c, p) == oct[0] && MirrorY(c, p) == oct[4] && SwapAxes(c, p) == oct[6];
    } else if j == 4 {
      assert MirrorX(c, p) == oct[7] && MirrorY(c, p) == oct[3] && SwapAxes(c, p) == oct[5];
    } else if j == 5 {
      assert MirrorX(c, p) == oct[6] && MirrorY(c, p) == oct[2] && SwapAxes(c, p) == oct[4];
    } else if j == 6 {
      assert MirrorX(c, p) == oct[5] && MirrorY(c, p) == oct[1] && SwapAxes(c, p) == oct[3];
    } else {
      assert MirrorX(c, p) == oct[4] && MirrorY(c, p) == oct[0] && SwapAxes(c, p) == oct[2];
    }
  }

  /** The plotted set is closed under both mirror images and the diagonal swap. */
  lemma Symmetric8Closed(c: Point, offsets: seq<Point>, p: Point)
    requires p in Symmetric8(c, offsets)
    ensures MirrorX(c, p) in Symmetric8(c, offsets)
    ensures MirrorY(c, p) in Symmetric8(c, offsets)
    ensures SwapAxes(c, p) in Symmetric8(c, offsets)
  {
    InSymmetric8(c, offsets, p);
    var k :| 0 <= k < |offsets| && p in Octants(c, offsets[k]);
    OctantsClosed(c, offsets[k], p);
    OctantsInSymmetric8(c, offsets, k);
  }

  /** Each pixel of an offset's octant lies as far from the centre as the offset. */
  lemma OctantSqDist(c: Point, o: Point, q: Point)
    requires q in Octants(c, o)
    ensures SqDist(c, q) == o.x * o.x + o.y * o.y
  {
    assert (-o.x) * (-o.x) == o.x * o.x;
    assert (-o.y) * (-o.y) == o.y * o.y;
  }

  /**
   Every plotted pixel lies in the square [cx-r, cx+r] x [cy-r, cy+r] and on
   the ring r*r - r <= d*d <= r*r + r, where d is its distance from the centre;
   so the true distance is within one pixel of the radius.
   */
  lemma CirclePointsOnRing(c: Point, radius: int, p: Point)
    requires p in CirclePoints(c, radius)
    ensures c.x - radius <= p.x <= c.x + radius && c.y - radius <= p.y <= c.y + radius
    ensures radius * radius - radius <= SqDist(c, p) <= radius * radius + radius
    ensures radius >= 1 ==> (radius - 1) * (radius - 1) <= SqDist(c, p)
    ensures SqDist(c, p) < (radius + 1) * (radius + 1)
  {
    var offsets := CircleOffsets(radius);
    InSymmetric8(c, offsets, p);
    var k :| 0 <= k < |offsets| && p in Octants(c, offsets[k]);
    var o := offsets[k];
    OctantSqDist(c, o, p);
    assert 0 <= o.y <= o.x <= radius;
    assert SqDist(c, p) == o.x * o.x + o.y * o.y;
    assert Abs(SqError(o.x, o.y, radius * radius)) <= o.x;
    OctantBox(c, o, p, radius);
    RingWithinOnePixel(radius, SqDist(c, p));
  }

  /** A squared distance within r of r*r lies between (r-1)^2 and (r+1)^2. */
  lemma RingWithinOnePixel(radius: int, d: int)
    requires 0 <= radius
    requires radius * radius - radius <= d <= radius * radius + radius
    ensures radius >= 1 ==> (radius - 1) * (radius - 1) <= d
    ensures d < (radius + 1) * (radius + 1)
  {
    assert (radius - 1) * (radius - 1) == radius * radius - 2 * radius + 1;
    assert (radius + 1) * (radius + 1) == radius * radius + 2 * radius + 1;
  }

  lemma OctantBox(c: Point, o: Point, p: Point, radius: int)
    requires 0 <= o.y <= o.x <= radius && p in Octants(c, o)
    ensures c.x - radius <= p.x <= c.x + radius && c.y - radius <= p.y <= c.y + radius
  {
  }

  /** The four axis extremes of the circle are plotted. */
  lemma CircleExtremesPlotted(c: Point, radius: int)
    requires radius >= 0
    ensures Point(c.x + radius, c.y) in CirclePoints(c, radius)
    ensures Point(c.x - radius, c.y) in CirclePoints(c, radius)
    ensures Point(c.x, c.y + radius) in CirclePoints(c, radius)
    ensures Point(c.x, c.y - radius) in CirclePoints(c, radius)
  {
    var offsets := CircleOffsets(radius);
    OctantsInSymmetric8(c, offsets, 0);
    assert Octants(c, offsets[0])[0] == Point(c.x + radius, c.y);
    assert Octants(c, offsets[0])[1] == Point(c.x, c.y + radius);
    assert Octants(c, offsets[0])[3] == Point(c.x - radius, c.y);
    assert Octants(c, offsets[0])[5] == Point(c.x, c.y - radius);
  }

  /**
   Nothing is clamped, so every write lands in the buffer exactly when the
   bounding square of the circle lies inside it.
   */
  lemma CircleFitsIff(bb: BackBuffer, c: Point, radius: int)
    ensures AllInBounds(bb, CirclePoints(c, radius)) <==> CircleFits(bb, c, radius)
  {
    if CircleFits(bb, c, radius) {
      CircleFitsInBounds(bb, c, radius);
    }
    if radius >= 0 && AllInBounds(bb, CirclePoints(c, radius)) {
      CircleExtremesPlotted(c, radius);
      ExtremesInBounds(bb, CirclePoints(c, radius), c, radius);
    }
  }

  lemma CircleFitsInBounds(bb: BackBuffer, c: Point, radius: int)
    requires CircleFits(bb, c, radius)
    ensures AllInBounds(bb, CirclePoints(c, radius))
  {
    var ps := CirclePoints(c, radius);
    forall k | 0 <= k < |ps| ensures InBounds(bb, ps[k]) {
      CirclePointsOnRing(c, radius, ps[k]);
    }
  }

  lemma ExtremesInBounds(bb: BackBuffer, ps: seq<Point>, c: Point, radius: int)
    requires AllInBounds(bb, ps)
    requires Point(c.x + radius, c.y) in ps && Point(c.x - radius, c.y) in ps
    requires Point(c.x, c.y + radius) in ps && Point(c.x, c.y - radius) in ps
    ensures CircleFits(bb, c, radius)
  {
    var i1 :| 0 <= i1 < |ps| && ps[i1] == Point(c.x + radius, c.y);
    var i2 :| 0 <= i2 < |ps| && ps[i2] == Point(c.x - radius, c.y);
    var i3 :| 0 <= i3 < |ps| && ps[i3] == Point(c.x, c.y + radius);
    var i4 :| 0 <= i4 < |ps| && ps[i4] == Point(c.x, c.y - radius);
    assert InBounds(bb, ps[i1]) && InBounds(bb, ps[i2]) && InBounds(bb, ps[i3]) && InBounds(bb, ps[i4]);
  }

  /**
   Given a fitting circle in a valid buffer, the loop's integer arithmetic
   never exceeds a C `int`: r*r, and at every step (after y has been raised)
   both x*x + y*y and (x-1)*(x-1) + y*y, lie in [0, INT_MAX], so their
   differences with r*r and the absolute values of those do too.
   */
  lemma CircleArithmeticFits(bb: BackBuffer, c: Point, radius: int)
    requires Valid(bb) && CircleFits(bb, c, radius) && radius >= 0
    ensures 0 <= radius * radius <= INT_MAX
    ensures forall k :: 0 <= k < |CircleOffsets(radius)| ==>
      StepSquaresFit(CircleOffsets(radius)[k].x, CircleOffsets(radius)[k].y + 1)
  {
    DiameterSquaredFits(bb, c, radius);
    var o := CircleOffsets(radius);
    forall k | 0 <= k < |o| ensures StepSquaresFit(o[k].x, o[k].y + 1) {
      StepSquaresBound(o[k].x, o[k].y, radius);
    }
  }

  /**
   For a non-negative radius the extra precondition of `DrawCircle` adds
   nothing: a fitting circle in a valid buffer has its centre and r*r in `int`.
   */
  lemma FittingCircleCastsFit(bb: BackBuffer, position: Vec2, radiusF: real)
    requires Valid(bb) && CircleFits(bb, PixelOf(position), Trunc(radiusF)) && Trunc(radiusF) >= 0
    ensures CircleCastsFit(position, radiusF)
  {
    var radius := Trunc(radiusF);
    DiameterSquaredFits(bb, PixelOf(position), radius);
    RadiusBoundIff(radius);
    MulLeftMono(1, bb.height, bb.width);
    MulLeftMono(1, bb.width, bb.height);
    assert bb.width * bb.height == bb.height * bb.width;
  }

  /** A fitting circle's bounding square has at most width*height pixels. */
  lemma DiameterSquaredFits(bb: BackBuffer, c: Point, radius: int)
    requires Valid(bb) && CircleFits(bb, c, radius) && radius >= 0
    ensures 0 <= radius * radius <= 2 * (radius * radius) + 2 * radius + 1 <= INT_MAX
  {
    var d := 2 * radius + 1;
    MulLeftMono(d, bb.width, d);
    MulLeftMono(d, bb.height, bb.width);
    assert d * bb.width == bb.width * d;
    OddSquare(radius);
    MulLeftMono(0, radius, radius);
  }

  lemma OddSquare(r: int)
    ensures (2 * r + 1) * (2 * r + 1) == 4 * (r * r) + 4 * r + 1
  {
  }

  /** The two squared lengths one loop step computes, after y is raised, both fit in an `int`. */
  predicate StepSquaresFit(x: int, y: int) {
    && 0 <= x * x + y * y <= INT_MAX
    && 0 <= (x - 1) * (x - 1) + y * y <= INT_MAX
  }

  lemma SquareMono(a: int, b: int)
    requires 0 <= a <= b
    ensures a * a <= b * b
  {
    MulLeftMono(a, b, a);
    MulLeftMono(a, b, b);
  }

  /** Inside the octant, the step's squared lengths are at most 2r^2 + 2r + 1 (or 2 when x = 0). */
  lemma StepSquaresBound(x: int, y: int, radius: int)
    requires 0 <= y <= x <= radius
    ensures x * x + (y + 1) * (y + 1) <= 2 * (radius * radius) + 2 * radius + 1
    ensures x >= 1 ==> (x - 1) * (x - 1) + (y + 1) * (y + 1) <= 2 * (radius * radius) + 2 * radius + 1
    ensures x == 0 ==> (x - 1) * (x - 1) + (y + 1) * (y + 1) == 2
    ensures 0 <= x * x && 0 <= (x - 1) * (x - 1) && 0 <= (y + 1) * (y + 1)
  {
    SquareMono(x, radius);
    SquareMono(y + 1, radius + 1);
    if x >= 1 {
      SquareMono(x - 1, radius);
    }
  }

  /**
   How many pixels the circle writes: none for a negative radius; otherwise
   eight per step for at most radius+1 steps, the first at (cx + r, cy).
   */
  lemma CircleCount(c: Point, radius: int)
    ensures radius < 0 ==> CirclePoints(c, radius) == []
    ensures radius >= 0 ==>
      var ps := CirclePoints(c, radius);
      && |ps| % 8 == 0
      && 8 <= |ps| <= 8 * (radius + 1)
      && ps[0] == Point(c.x + radius, c.y)
  {
    if radius >= 0 {
      assert CirclePoints(c, radius)[0] == Octants(c, CircleOffsets(radius)[0])[0];
    }
  }

  /**
   The plotted pixels are symmetric about the centre: with each pixel come
   its mirror images in both axes and its reflection in the diagonal.
   */
  lemma CircleSymmetric(c: Point, radius: int, p: Point)
    requires p in CirclePoints(c, radius)
    ensures MirrorX(c, p) in CirclePoints(c, radius)
    ensures MirrorY(c, p) in CirclePoints(c, radius)
    ensures SwapAxes(c, p) in CirclePoints(c, radius)
  {
    Symmetric8Closed(c, CircleOffsets(radius), p);
  }

  /** A prefix of an in-bounds write list, and the segment that follows it, are in bounds; `DrawStep` applies it to each step's eight writes. */
  lemma NextOctantInBounds(bb: BackBuffer, all: seq<Point>, plotted: seq<Point>, octant: seq<Point>, rest: seq<Point>)
    requires all == (plotted + octant) + rest
    requires AllInBounds(bb, all)
    ensures AllInBounds(bb, plotted + octant)
    ensures AllInBounds(bb, octant)
  {
    forall k | 0 <= k < |plotted + octant| ensures InBounds(bb, (plotted + octant)[k]) {
      assert (plotted + octant)[k] == all[k];
    }
    forall k | 0 <= k < |octant| ensures InBounds(bb, octant[k]) {
      assert octant[k] == (plotted + octant)[|plotted| + k];
    }
  }

  /** One iteration moves the octant of the current offset from the walk to the plotted prefix. */
  lemma WalkStep(c: Point, x: int, y: int, radiusSquared: int, plotted: seq<Point>, all: seq<Point>)
    requires x >= y
    requires plotted + Symmetric8(c, Offsets(x, y, radiusSquared)) == all
    ensures (plotted + Octants(c, Point(x, y)))
      + Symmetric8(c, Offsets(NextX(x, y + 1, radiusSquared), y + 1, radiusSquared)) == all
  {
    var o := Offsets(x, y, radiusSquared);
    assert o[0] == Point(x, y);
    assert o[1..] == Offsets(NextX(x, y + 1, radiusSquared), y + 1, radiusSquared);
  }

  /**
   One iteration of the drawing loop: the eight writes of the current offset
   are in bounds, and afterwards the loop invariant holds for the next state.
   */
  lemma DrawStep(bb: BackBuffer, c: Point, x: int, y: int, radiusSquared: int,
                 plotted: seq<Point>, all: seq<Point>, color: Color)
    requires Valid(bb) && AllInBounds(bb, all) && AllInBounds(bb, plotted)
    requires x >= y
    requires plotted + Symmetric8(c, Offsets(x, y, radiusSquared)) == all
    ensures var octant := Octants(c, Point(x, y));
      && (plotted + octant) + Symmetric8(c, Offsets(NextX(x, y + 1, radiusSquared), y + 1, radiusSquared)) == all
      && AllInBounds(bb, octant)
      && AllInBounds(bb, plotted + octant)
      && Plot(bb, plotted + octant, color) == Plot(Plot(bb, plotted, color), octant, color)
    ensures NextX(x, y + 1, radiusSquared) <= x
  {
    NextXChoice(x, y + 1, radiusSquared);
    var octant := Octants(c, Point(x, y));
    var rest := Symmetric8(c, Offsets(NextX(x, y + 1, radiusSquared), y + 1, radiusSquared));
    WalkStep(c, x, y, radiusSquared, plotted, all);
    NextOctantInBounds(bb, all, plotted, octant, rest);
    PlotAppend(bb, plotted, octant, color);
  }

  /** One iteration of the drawing loop: eight writes, then the next row and column. */
  method DrawIteration(bb: BackBuffer, center: Point, x: int, y: int, radiusSquared: int, color: Color,
                       r: BackBuffer, plotted: seq<Point>, ghost all: seq<Point>)
    returns (x': int, y': int, r': BackBuffer, plotted': seq<Point>)
    requires Valid(bb) && AllInBounds(bb, all) && x >= y
    requires plotted + Symmetric8(center, Offsets(x, y, radiusSquared)) == all
    requires AllInBounds(bb, plotted) && r == Plot(bb, plotted, color)
    ensures plotted' + Symmetric8(center, Offsets(x', y', radiusSquared)) == all
    ensures AllInBounds(bb, plotted') && r' == Plot(bb, plotted', color)
    ensures x' - y' < x - y
  {
    var octant := Octants(center, Point(x, y));
    DrawStep(bb, center, x, y, radiusSquared, plotted, all, color);
    // The eight setPixel calls of one iteration.
    r' := Plot(r, octant, color);
    plotted' := plotted + octant;
    y' := y + 1;
    x' := NextX(x, y', radiusSquared);
  }

  /**
   drawCircle: plots the outline of the circle of radius `(int)radiusF`
   around the pixel of `position`, one octant walk, eight writes per step.
   */
  method DrawCircle(bb: BackBuffer, position: Vec2, radiusF: real, color: Color)
    returns (r: BackBuffer, plotted: seq<Point>)
    requires Valid(bb)
    requires CircleFits(bb, PixelOf(position), Trunc(radiusF))
    requires CircleCastsFit(position, radiusF)
    ensures plotted == CirclePoints(PixelOf(position), Trunc(radiusF))
    ensures AllInBounds(bb, plotted) && r == Plot(bb, plotted, color)
  {
    var x0 := Trunc(position.x);
    var y0 := Trunc(position.y);
    var radius := Trunc(radiusF);
    var center := Point(x0, y0);

    var x := radius;
    var y := 0;
    var radiusSquared := radius * radius;

    ghost var all := CirclePoints(center, radius);
    CircleFitsInBounds(bb, center, radius);
    r, plotted := bb, [];

    while x >= y
      invariant plotted + Symmetric8(center, Offsets(x, y, radiusSquared)) == all
      invariant AllInBounds(bb, plotted)
      invariant r == Plot(bb, plotted, color)
      decreases x - y
    {
      x, y, r, plotted := DrawIteration(bb, center, x, y, radiusSquared, color, r, plotted, all);
    }
  }
}
