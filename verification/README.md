# Software back buffer of the "Pool" demo, in Dafny

The program is a small Windows demo. It keeps a software framebuffer, called
the back buffer, of 32-bit pixels. Each frame it clears the buffer to black,
draws an outline circle for every ball, and copies the buffer to the window.

This project models the drawing core as pure functions over immutable data:

- `colors.dfy` (`Colors`): the 32-bit `Color` constants and the
  little-endian byte view of a pixel.
- `vecmath.dfy` (`VecMath`): `Vec2`/`Mat2` arithmetic with `float` idealised
  as `real`, and the C `(int)` cast as `Trunc`, which rounds toward zero.
- `backbuffer.dfy` (`BackBuffers`): the buffer layout (`width*height` pixels,
  `size` bytes), row-major `setPixel`, a fold `Plot` of `setPixel` over a
  point list, and `clearBackBuffer` as `memset` over the pixel bytes.
- `circle.dfy` (`Circle`): `drawCircle`. The octant walk is
  `Offsets`/`CircleOffsets`, with the column rule `NextX`. The eight mirrored
  writes per step are `Octants`. The method `DrawCircle` performs exactly
  those writes.
- `line.dfy` (`Line`): `drawLine`. The DDA (digital differential analyser)
  pixel list is `LinePoints`; `DrawLine`, `WalkX` and `WalkY` perform its
  writes.
- `scene.dfy` (`Scene`): the `Ball` record, the two starting balls, and one
  frame of drawing, `Render` as written and `RenderIntended` with the
  corrected clear.

`DrawCircle` and `DrawLine` return the points they wrote, in order, as well as
the new buffer. Each contract says the buffer equals `Plot` of those points.
Properties of the drawing (ring bounds, symmetry, connectivity, endpoints)
are lemmas about the point lists. `PlotEffect` turns any of them into a
statement about pixels.

## Model

| member | source | states |
|---|---|---|
| Colors.WordBytesRoundTrip | main.c:71-81 | a pixel split into its four little-endian bytes and reassembled is the same pixel |
| Colors.BytesWordRoundTrip | main.c:71-81 | four bytes assembled into a pixel and split again come back unchanged and in order |
| Colors.SplatIffUniformBytes | main.c:118-119 | a colour equals the word made by repeating its low byte exactly when all four of its bytes are equal |
| VecMath.ScalingMatrixScales | main.c:28-44 | multiplying by the scaling matrix of s is the same as scaling the vector by s |
| VecMath.MulMat2Composes | main.c:55-69 | multiplying a vector by a matrix product equals applying the right factor first, then the left |
| VecMath.ScaleDistributesOverAdd | main.c:21-33 | scaling a sum of vectors equals summing the scaled vectors |
| VecMath.TruncBounds | main.c:127-129 | the `(int)` cast moves toward zero by less than one, and stays between any two integers that enclose its argument |
| VecMath.TruncOdd | main.c:127-129 | the `(int)` cast commutes with negation |
| VecMath.MakeVec2Fields | main.c:14-19 | `makeVec2` builds the vector whose components are exactly its two arguments, and rebuilding a vector from its own components gives it back |
| VecMath.AddVec2 | main.c:21-26 | adds two vectors component by component; `ScaleDistributesOverAdd` states how it interacts with scaling |
| VecMath.ScaleVec2 | main.c:28-33 | scales both components by s; `ScalingMatrixScales` states that the scaling matrix does the same |
| VecMath.MakeScalingMat2 | main.c:39-44 | the matrix with s on the diagonal and 0 elsewhere; `ScalingMatrixScales` states what it does to a vector |
| VecMath.MulMat2 | main.c:55-62 | the row-by-column product of two matrices; `MulMat2Composes` states that it composes the two maps |
| VecMath.MulMatVec2 | main.c:64-69 | applies a matrix to a vector; `MulMat2Composes` and `ScalingMatrixScales` state its laws |
| VecMath.Trunc | main.c:127-129 | the C `(int)` cast of a `float`, toward zero; `TruncBounds` and `TruncOdd` state its bounds and symmetry |
| BackBuffers.MakeBackBuffer | main.c:99-106 | the new buffer has the requested width and height, `width*height` pixels, and a byte size of `width*height*4`, which the precondition keeps within a 32-bit `size_t` so it cannot wrap |
| BackBuffers.IndexInRange | main.c:122-124 | a point inside the buffer has a row-major index below `width*height` |
| BackBuffers.PointIndexRoundTrip | main.c:122-124 | converting an in-bounds point to its index and back gives the same point |
| BackBuffers.IndexPointRoundTrip | main.c:122-124 | every memory index decodes to an in-bounds point whose row-major index is that memory index; the point is unique by `IndexInjective` |
| BackBuffers.IndexInjective | main.c:122-124 | two in-bounds points share an index if and only if they are the same point |
| BackBuffers.SetPixel | main.c:122-124 | writing one pixel sets the cell of that point to the colour, leaves every other cell as it was, and keeps the layout |
| BackBuffers.Plot | main.c:122-124 | a run of `setPixel` calls over a point list, in order; `PlotEffect`, `PlotAppend` and `PlotOrderIndependent` state what it leaves in each cell |
| BackBuffers.CoversAppend | main.c:122-124 | a cell is written by a concatenation of point lists if and only if one of the lists writes it |
| BackBuffers.PlotEffect | main.c:122-124 | after a run of `setPixel` calls, a cell holds the colour if some point in the run maps to it, and keeps its old value otherwise |
| BackBuffers.PlotSingle | main.c:122-124 | a run of one point is a single `setPixel` |
| BackBuffers.PlotAppend | main.c:122-124 | drawing a list of points then another equals drawing their concatenation |
| BackBuffers.PlotOrderIndependent | main.c:122-124 | with one colour, a run of writes depends only on the set of points, not on their order or repetition |
| BackBuffers.Memset | main.c:118-120 | `memset` writes exactly n bytes, each equal to the given byte |
| BackBuffers.PixelsOfBytes | main.c:118-120 | each pixel read back from memory is the little-endian word of its four bytes |
| BackBuffers.BytesOfPixels | main.c:118-120 | each byte of the memory is the corresponding byte of its pixel |
| BackBuffers.PixelsBytesRoundTrip | main.c:118-120 | viewing pixels as bytes and back gives the same pixels |
| BackBuffers.ClearBackBuffer | main.c:118-120 | after the byte-wise clear, every pixel holds the colour's low byte repeated four times, and the layout is unchanged |
| BackBuffers.ClearPaintsColorIff | main.c:118-120 | on a non-empty buffer, the clear paints every pixel the requested colour if and only if all four bytes of the colour are equal |
| BackBuffers.ClearBlackIsZero | main.c:118-120 | clearing to `COLOR_BLACK` leaves every pixel at 0, not at 0xFF000000 |
| BackBuffers.ClearRedIsNotRed | main.c:118-120 | clearing to `COLOR_RED` leaves the first pixel at 0, which is not red |
| BackBuffers.FillBackBuffer | main.c:118-120 | the intended clear: every pixel holds the requested colour, and the layout is unchanged |
| BackBuffers.ClearMatchesFill | main.c:118-120 | for a colour whose four bytes are equal, the byte-wise clear gives exactly the buffer of the intended fill |
| BackBuffers.ClearBlackMatchesFillBelowAlpha | main.c:118-120 | cleared to black, each pixel lacks exactly the 0xFF alpha byte of the intended `COLOR_BLACK`; its colour bytes agree |
| Circle.NextX | main.c:145-153 | the column rule after y is raised; `NextXMinimizes` states its choice |
| Circle.NextXMinimizes | main.c:145-153 | the next column is x or x-1, its squared error is no larger than that of either choice, and a tie keeps x |
| Circle.ErrorStep | main.c:135-153 | one step of the walk keeps the invariant that the squared-radius error is at most x |
| Circle.Offsets | main.c:131-154 | the offsets the `while (x >= y)` loop visits from a state; `OffsetsShape` and `OffsetsSteps` state their shape |
| Circle.OffsetsShape | main.c:131-154 | from any state meeting the error invariant, the walk starts at that state (or is empty when x < y), visits at most r-y+1 offsets, and each visited offset has y rising by one, y <= x <= r and error at most x |
| Circle.OffsetsSteps | main.c:145-153 | each offset after the first has the column the rule picks from the previous offset with y raised by one, so x falls by at most one per step |
| Circle.CircleOffsets | main.c:129-154 | its result is an `OctantWalk` of the radius: a negative radius visits nothing. Otherwise there are 1 to r+1 offsets starting at (r, 0), the k-th at y = k, with 0 <= y <= x <= r and the error at most x, each next column is the rule's choice, x or x-1, and the walk stops exactly where `while (x >= y)` does: after the last offset the rule's next column is below the raised y |
| Circle.OffsetsExit | main.c:135-154 | from any state, after the last visited offset the next state the loop computes has x < y, so the walk ends where the loop exits and not earlier |
| Circle.CircleReachesDiagonal | main.c:131-154 | for r >= 0 the last offset has y <= x <= y+1: the octant arc runs from (r, 0) all the way to the diagonal |
| Circle.Octants | main.c:136-143 | the eight mirrored points of one offset in the order of the eight `setPixel` calls; `OctantsClosed` and `OctantSqDist` state their symmetry and distance |
| Circle.CirclePoints | main.c:126-154 | every write of `drawCircle`: eight per visited offset; `CirclePointsOnRing`, `CircleSymmetric` and `CircleCount` state its shape |
| Circle.Symmetric8 | main.c:136-143 | each step writes its eight mirrored points, eight per step, in the source's order |
| Circle.OctantsClosed | main.c:136-143 | the eight points of one step are closed under both mirrors and the diagonal swap through the centre |
| Circle.Symmetric8Closed | main.c:135-154 | the whole point list is closed under both mirrors and the diagonal swap |
| Circle.OctantSqDist | main.c:136-143 | each of the eight points of one step is at the same squared distance from the centre as the offset |
| Circle.CirclePointsOnRing | main.c:126-154 | every drawn pixel lies in the (2r+1)-square, with r^2-r <= d^2 <= r^2+r and d^2 < (r+1)^2; for r >= 1 also (r-1)^2 <= d^2, so it is within one pixel of the true circle (at r = 0 the only pixel is the centre) |
| Circle.RingWithinOnePixel | main.c:145-153 | for r >= 0, an error of at most r from r^2 puts a squared distance below (r+1)^2, and for r >= 1 also at or above (r-1)^2 |
| Circle.OctantBox | main.c:136-143 | the eight points of an offset with 0 <= y <= x <= r stay in the square of side 2r+1 |
| Circle.CircleExtremesPlotted | main.c:131-143 | the four axis points at distance r from the centre are drawn |
| Circle.CircleFitsIff | main.c:126-154 | every drawn pixel is inside the buffer if and only if the square of side 2r+1 around the centre fits, or the radius is negative |
| Circle.CircleFitsInBounds | main.c:126-154 | if the square fits, every drawn pixel is in bounds |
| Circle.ExtremesInBounds | main.c:126-154 | if the four axis points are in bounds, the square fits |
| Circle.CircleArithmeticFits | main.c:133-149 | for r >= 0, when the circle fits in a valid buffer, `radius*radius` and, at every visited offset (x, y), both `x*x + (y+1)^2` and `(x-1)^2 + (y+1)^2` lie in [0, `INT_MAX`], so the `int` arithmetic of lines 133 and 147-149 does not overflow |
| Circle.DiameterSquaredFits | main.c:133 | for r >= 0, when the circle fits, r^2 <= 2r^2+2r+1 <= `INT_MAX`, since (2r+1)^2 is at most `width*height` |
| Circle.StepSquaresBound | main.c:147-149 | for 0 <= y <= x <= r, both squared lengths the loop computes after raising y are non-negative; `x*x + (y+1)^2` is at most 2r^2+2r+1, and so is `(x-1)^2 + (y+1)^2` when x >= 1 (it is exactly 2 when x = 0) |
| Circle.CircleCount | main.c:131-154 | a negative radius draws nothing. Otherwise the count is a multiple of eight, between 8 and 8(r+1), and the first pixel is (cx+r, cy) |
| Circle.CircleSymmetric | main.c:136-143 | the drawn circle is symmetric under both mirrors and the diagonal swap through its centre |
| Circle.NextOctantInBounds | main.c:135-143 | helper for `DrawStep`: if a write list split as prefix, segment and rest is in bounds, so are the prefix with the segment and the segment alone; the circle loop applies it to the plotted prefix and the current eight writes |
| Circle.WalkStep | main.c:135-153 | one loop step writes the current step's eight points and leaves exactly the walk from the next state still to draw |
| Circle.DrawStep | main.c:135-153 | the eight writes of the current offset are in bounds, drawing them extends the plotted prefix, and the next column is not to the right of the current one |
| Circle.DrawIteration | main.c:135-153 | one loop iteration keeps the loop invariant (plotted prefix plus remaining walk is the whole circle, and the buffer is `Plot` of the prefix) and shrinks x - y |
| Circle.FittingCircleCastsFit | main.c:127-133 | for r >= 0, a circle that fits in a valid buffer has both centre casts and `radius*radius` within `int`, so `DrawCircle`'s `CircleCastsFit` precondition restricts only negative radii |
| Circle.RadiusBoundIff | main.c:133 | an `int` radius satisfies \|radius\| <= 46340 if and only if `radius*radius` fits in a C `int`, which is the radius clause of `CircleCastsFit` |
| Circle.DrawCircle | main.c:126-155 | the method writes exactly the circle's point list, all in bounds, in order, and returns the buffer those `setPixel` calls produce |
| Line.LinePoints | main.c:157-206 | equal endpoints give one pixel. Otherwise the major axis is x exactly when \|dx\| > \|dy\|, there are \|d\|+1 pixels, one per major coordinate in increasing order, and the first is the endpoint with the smaller major coordinate |
| Line.MinorBetween | main.c:172-188 | the truncated minor coordinate stays between the two endpoint coordinates |
| Line.TruncStep | main.c:186 | truncating two non-negative reals at most one apart gives integers at most one apart |
| Line.SlopeAtMostOne | main.c:172-190 | on the major axis the slope lies in [-1, 1] |
| Line.MinorStep | main.c:185-188 | for non-negative coordinates the minor coordinate changes by at most one per step |
| Line.SlopeNegate | main.c:172-190 | negating both differences leaves the slope unchanged |
| Line.SlopeReachesEnd | main.c:185-188 | at the last step the exact slope lands on the far endpoint's minor coordinate |
| Line.LineEndpoints | main.c:157-206 | both endpoints are drawn |
| Line.LineOrderIndependent | main.c:174-201 | swapping the endpoints draws the same pixels in the same order |
| Line.XMajorSlope | main.c:172-184 | the x-major slope is the same whichever endpoint comes first |
| Line.YMajorSlope | main.c:189-201 | the y-major slope is the same whichever endpoint comes first |
| Line.LineInBox | main.c:157-206 | every pixel lies in the bounding box of the two endpoints |
| Line.XMajorInBox | main.c:185-188 | in an x-major walk every minor coordinate lies between the endpoints' |
| Line.YMajorInBox | main.c:202-205 | in a y-major walk every minor coordinate lies between the endpoints' |
| Line.LineConnected | main.c:157-206 | with non-negative endpoints, consecutive pixels are 8-neighbours: each coordinate changes by at most one |
| Line.XMajorConnected | main.c:185-188 | consecutive pixels of a non-negative x-major walk are 8-neighbours |
| Line.YMajorConnected | main.c:202-205 | consecutive pixels of a non-negative y-major walk are 8-neighbours |
| Line.LineInBounds | main.c:157-206 | if both endpoints are in the buffer, every pixel of the line is |
| Line.DrawLine | main.c:157-207 | the method writes exactly the line's point list, in order, and returns the buffer those `setPixel` calls produce |
| Line.WalkX | main.c:185-188 | the x-major loop writes the x-major walk pixel by pixel, in order |
| Line.WalkY | main.c:202-205 | the y-major loop writes the y-major walk pixel by pixel, in order |
| Scene.TopColor | main.c:324-327 | the colour a pixel shows after the balls are drawn over it: one of the balls' colours or what lay underneath |
| Scene.TopColorBackground | main.c:322-327 | a pixel some ball covers shows the same colour whatever lay underneath, and a pixel no ball covers shows what lay underneath |
| Scene.DrawBalls | main.c:324-327 | drawing the balls in order leaves every pixel at the colour of the last ball whose outline covers it, and untouched where none does |
| Scene.DrawNextBall | main.c:325-326 | drawing one more ball extends that description from the first k balls to the first k+1 |
| Scene.Render | main.c:322-327 | after a frame as written, every pixel holds the colour of the last ball whose outline covers it, and elsewhere the low byte of `COLOR_BLACK` repeated, which is 0 |
| Scene.RenderIntended | main.c:322-327 | with the intended clear, every pixel holds the colour of the last ball whose outline covers it, and `COLOR_BLACK` elsewhere |
| Scene.InitialBalls | main.c:269-285 | the two starting balls: radius 10, red at (width/2, height/2), green at (width/4, height/2), at rest |
| Scene.InitialBallsFit | main.c:240-285 | in the 240-by-135 buffer, both starting balls (radius 10, at (120, 67) and (60, 67) after truncation) fit, so drawing them stays in bounds |

## Left out

- Window plumbing is not modelled. This covers `wndProc`, `WinMain`'s window class and message loop, keyboard state (`Buttons`), `GetDC`, `BITMAPINFO` and `StretchDIBits`. It is operating-system I/O with no effect on the pixels drawn.
- Frame timing (`QueryPerformanceCounter`, `dt`) is not modelled. It is a clock, and nothing drawn depends on it.
- Ball motion is not modelled: the balls never move, because the source never updates `velocity` or `acceleration`. `Ball` keeps those fields as plain data.
- `makeRotationMat2` is not modelled. It needs `cosf`/`sinf`, and nothing in the drawing core calls it.
- `float` is idealised as exact `real` throughout. This covers positions, radii and the line slope `m`. Single-precision rounding of `m` and of `m*t + start` is not modelled, and it can move a pixel. For the line (0,8) to (13,1), `(float)-7/(float)13` rounds to about -0.53846157, so at x = 13 the source computes `(int)(m*13 + 8) = (int)0.9999995 = 0` and writes (13,0) where the exact slope gives (13,1). The line lemmas listed next hold for the exact slope only.
- LinePoints: the point list uses the exact real slope. On the line (0,8) to (13,1) the source's `float` slope writes (13,0) as its last pixel, not (13,1); the count, the major coordinates and the first pixel are unaffected.
- MinorBetween: holds for the exact slope only. With the `float` slope the last minor coordinate of the line (0,8) to (13,1) is 0, below both endpoints' 1 and 8.
- SlopeReachesEnd: holds for the exact slope only. With the `float` slope, `(int)(m*13 + 8)` is 0 for the line (0,8) to (13,1), not 1.
- LineEndpoints: holds for the exact slope only. With the `float` slope the line (0,8) to (13,1) does not draw its endpoint (13,1).
- LineInBox: holds for the exact slope only. With the `float` slope the line (0,8) to (13,1) draws (13,0), outside the box with y from 1 to 8.
- XMajorInBox: holds for the exact slope only; the x-major line (0,8) to (13,1) is the counterexample under `float`, at x = 13.
- YMajorInBox: holds for the exact slope only; the mirrored y-major line (8,0) to (1,13) is the counterexample under `float`, at y = 13.
- LineInBounds: proved for the exact slope only. Under `float` the last pixel of a line can leave the bounding box by one, as above, so the bound for the source's slope is not established here.
- XMajorConnected: proved for the exact slope only; connectivity under the `float` slope is not established here.
- YMajorConnected: proved for the exact slope only; connectivity under the `float` slope is not established here.
- `MakeBackBuffer` takes the initial pixel contents as a parameter, because `malloc` leaves them unspecified. Allocation failure is not modelled.
- MakeBackBuffer, SetPixel, DrawCircle, DrawLine, Render: `int`/`size_t` overflow and out-of-bounds writes are excluded by preconditions rather than modelled. `width*height` must fit in `int`, and the byte count `width*height*4` must fit in a 32-bit `size_t` (`SIZE_MAX`, required by `MakeBackBuffer` and kept by `Valid`), so it does not wrap on a 32-bit build either; a buffer of 2^30 or more pixels is excluded rather than modelled. `setPixel` and the drawing methods require their pixels to be inside the buffer, though the source checks nothing. For the circle, `CircleArithmeticFits` shows the loop's arithmetic cannot overflow under that precondition when the radius is non-negative.
- DrawCircle: a fitting square says nothing about a negative radius, for which the source still casts the centre to `int` and computes `radius*radius`. The model therefore also requires `CircleCastsFit` (both centre casts within `int`, and \|radius\| <= 46340, which `RadiusBoundIff` shows is exactly `radius*radius` within `int`), in `DrawCircle` and in `Scene.BallFits`. A call such as radius -50000.0, where `radius*radius` at main.c:133 overflows a signed `int`, is excluded rather than modelled. For r >= 0 the condition follows from fitting (`FittingCircleCastsFit`).
- DrawLine: the source does not clip. `drawLine` writes `memory[y*width + x]` for whatever its endpoints give, so the model requires both endpoints to be inside the buffer. `LineInBounds` shows every pixel then is too.
- DrawCircle, DrawLine: the contract gives the exact point list written and the resulting buffer. Ring bounds, symmetry, count, order independence and connectivity are lemmas about those point lists, not `ensures` of the methods.
- LineConnected: 8-connectivity is proved only when both endpoints have non-negative coordinates. There truncation toward zero is the floor, and every in-bounds line has such endpoints.

## Findings

| source | as written | input that shows it | evidently intended | confidence | as-written member | corrected member |
|---|---|---|---|---|---|---|
| main.c:118-120 | `clearBackBuffer` passes the 32-bit colour to `memset`, which writes only its low byte into every byte of the buffer | `COLOR_RED` (0xFFFF0000) has low byte 0, so every pixel becomes 0x00000000; `COLOR_BLACK` also gives 0x00000000, not 0xFF000000 | every pixel holds `color` | medium, not executed; the program's only call clears to black, whose colour bytes on screen are the same either way, so the defect shows only for other colours | BackBuffers.ClearRedIsNotRed | BackBuffers.FillBackBuffer |

`BackBuffers.ClearBackBuffer` keeps the byte-wise behaviour, and
`ClearPaintsColorIff` states exactly which colours it clears correctly.
`BackBuffers.ClearMatchesFill` and `ClearBlackMatchesFillBelowAlpha` relate
the two clears. `Scene.Render` draws the frame as written, on the byte-wise
clear, so every background pixel is 0. `Scene.RenderIntended` draws it on
`FillBackBuffer`, so every background pixel is `COLOR_BLACK`.
`Scene.TopColorBackground` shows the two frames agree on every pixel a ball
covers and differ only in the background.
