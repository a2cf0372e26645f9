/**
 The balls and one frame of drawing: clear the back buffer to black, then
 draw each ball's outline in its colour, in order.
 */
module Scene {
  import opened Colors
  import opened VecMath
  import opened BackBuffers
  import opened Circle

  /** A ball is plain data: only its position, radius and colour are drawn. */
  datatype Ball = Ball(position: Vec2, velocity: Vec2, acceleration: Vec2, radius: real, color: Color)

  /** The pixels of a ball's outline. */
  function Outline(b: Ball): seq<Point> {
    CirclePoints(PixelOf(b.position), Trunc(b.radius))
  }

  predicate BallFits(bb: BackBuffer, b: Ball) {
    CircleFits(bb, PixelOf(b.position), Trunc(b.radius)) && CircleCastsFit(b.position, b.radius)
  }

  /**
   The colour memory index i holds after the balls are drawn over a pixel
   that held `under`: the colour of the last ball whose outline covers i, or
   `under` when none does.
   */
  function TopColor(width: int, balls: seq<Ball>, i: int, under: Color): (c: Color)
    ensures c == under || exists k :: 0 <= k < |balls| && c == balls[k].color
    decreases |balls|
  {
    if balls == [] then under
    else
      var last := balls[|balls| - 1];
      if Covers(width, Outline(last), i) then last.color
      else
        var c := TopColor(width, balls[..|balls| - 1], i, under);
        assert forall k :: 0 <= k < |balls| - 1 ==> balls[..|balls| - 1][k] == balls[k];
        c
  }

  /** Some ball's outline covers memory index i. */
  predicate CoveredBySome(width: int, balls: seq<Ball>, i: int)
    decreases |balls|
  {
    balls != [] &&
    (Covers(width, Outline(balls[|balls| - 1]), i) || CoveredBySome(width, balls[..|balls| - 1], i))
  }

  /**
   What lies underneath shows through exactly where no ball covers the pixel:
   covered pixels do not depend on it, uncovered ones are it.
   */
  lemma {:induction false} TopColorBackground(width: int, balls: seq<Ball>, i: int, a: Color, b: Color)
    ensures CoveredBySome(width, balls, i) ==> TopColor(width, balls, i, a) == TopColor(width, balls, i, b)
    ensures !CoveredBySome(width, balls, i) ==> TopColor(width, balls, i, a) == a
    decreases |balls|
  {
    if balls != [] {
      TopColorBackground(width, balls[..|balls| - 1], i, a, b);
    }
  }

  /** Draws every ball's outline in its colour, in order, over the buffer as it is. */
  method DrawBalls(bb: BackBuffer, balls: seq<Ball>) returns (r: BackBuffer)
    requires Valid(bb)
    requires forall k :: 0 <= k < |balls| ==> BallFits(bb, balls[k])
    ensures Valid(r) && SameShape(bb, r)
    ensures forall i :: 0 <= i < |r.memory| ==> r.memory[i] == TopColor(bb.width, balls, i, bb.memory[i])
  {
    r := bb;
    var k := 0;
    while k < |balls|
      invariant 0 <= k <= |balls|
      invariant Valid(r) && SameShape(bb, r)
      invariant forall i :: 0 <= i < |r.memory| ==> r.memory[i] == TopColor(bb.width, balls[..k], i, bb.memory[i])
    {
      r := DrawNextBall(bb, balls, k, r);
      k := k + 1;
    }
    assert balls[..k] == balls;
  }

  /** Draws ball k over a buffer on which the balls before it are drawn. */
  method DrawNextBall(bb: BackBuffer, balls: seq<Ball>, k: int, r: BackBuffer) returns (r': BackBuffer)
    requires Valid(bb) && 0 <= k < |balls| && BallFits(bb, balls[k])
    requires Valid(r) && SameShape(bb, r)
    requires forall i :: 0 <= i < |r.memory| ==> r.memory[i] == TopColor(bb.width, balls[..k], i, bb.memory[i])
    ensures Valid(r') && SameShape(bb, r')
    ensures forall i :: 0 <= i < |r'.memory| ==> r'.memory[i] == TopColor(bb.width, balls[..k + 1], i, bb.memory[i])
  {
    var b := balls[k];
    var plotted;
    r', plotted := DrawCircle(r, b.position, b.radius, b.color);
    PlotEffect(r, plotted, b.color);
    assert balls[..k + 1][..k] == balls[..k];
    assert balls[..k + 1][k] == b;
  }

  /**
   One frame as the program draws it: `clearBackBuffer` to black, which
   leaves every pixel at 0 (see `BackBuffers.ClearBlackIsZero`), then every
   ball in order, so later balls cover earlier ones where their outlines
   meet.
   */
  method Render(bb: BackBuffer, balls: seq<Ball>) returns (r: BackBuffer)
    requires Valid(bb)
    requires forall k :: 0 <= k < |balls| ==> BallFits(bb, balls[k])
    ensures Valid(r) && SameShape(bb, r)
    ensures forall i :: 0 <= i < |r.memory| ==> r.memory[i] == TopColor(bb.width, balls, i, Splat(LowByte(COLOR_BLACK)))
  {
    r := ClearBackBuffer(bb, COLOR_BLACK);
    r := DrawBalls(r, balls);
  }

  /**
   The frame the program evidently intends: the background is filled with
   `COLOR_BLACK` itself (see `BackBuffers.FillBackBuffer`). Wherever a ball
   covers a pixel it agrees with `Render`; elsewhere `Render` leaves 0.
   */
  method RenderIntended(bb: BackBuffer, balls: seq<Ball>) returns (r: BackBuffer)
    requires Valid(bb)
    requires forall k :: 0 <= k < |balls| ==> BallFits(bb, balls[k])
    ensures Valid(r) && SameShape(bb, r)
    ensures forall i :: 0 <= i < |r.memory| ==> r.memory[i] == TopColor(bb.width, balls, i, COLOR_BLACK)
  {
    r := FillBackBuffer(bb, COLOR_BLACK);
    r := DrawBalls(r, balls);
  }

  /** The two balls the program starts with, for a buffer of the given size. */
  function InitialBalls(width: int, height: int): seq<Ball> {
    var zero := Vec2(0.0, 0.0);
    [ Ball(Vec2(width as real / 2.0, height as real / 2.0), zero, zero, 10.0, COLOR_RED),
      Ball(Vec2(width as real / 4.0, height as real / 2.0), zero, zero, 10.0, COLOR_GREEN) ]
  }

  /**
   The window is 960 by 540 and the back buffer a quarter of that, 240 by
   135; both starting balls fit in it, so drawing them never writes outside
   the buffer.
   */
  lemma InitialBallsFit(bb: BackBuffer)
    requires Valid(bb) && bb.width == (1920 / 2) / 4 && bb.height == (1080 / 2) / 4
    ensures forall k :: 0 <= k < 2 ==> BallFits(bb, InitialBalls(bb.width, bb.height)[k])
  {
    var balls := InitialBalls(bb.width, bb.height);
    assert PixelOf(balls[0].position) == Point(120, 67);
    assert PixelOf(balls[1].position) == Point(60, 67);
    assert Trunc(10.0) == 10;
  }
}
