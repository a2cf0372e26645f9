/**
 Two-dimensional vectors and 2x2 matrices, with the source's `float`
 arithmetic idealised as exact `real` arithmetic, and the C conversion from
 `float` to `int`, which truncates toward zero.
 */
module VecMath {

  datatype Vec2 = Vec2(x: real, y: real)

  /** Entries in row-major order: [e0 e1; e2 e3]. */
  datatype Mat2 = Mat2(e0: real, e1: real, e2: real, e3: real)

  function MakeVec2(x: real, y: real): Vec2 {
    Vec2(x, y)
  }

  /** The components of a constructed vector are its arguments, and every vector is so constructed. */
  lemma MakeVec2Fields(x: real, y: real, v: Vec2)
    ensures MakeVec2(x, y).x == x && MakeVec2(x, y).y == y
    ensures MakeVec2(v.x, v.y) == v
  {
  }

  function AddVec2(v1: Vec2, v2: Vec2): Vec2 {
    Vec2(v1.x + v2.x, v1.y + v2.y)
  }

  function ScaleVec2(v: Vec2, s: real): Vec2 {
    Vec2(v.x * s, v.y * s)
  }

  function MakeScalingMat2(scale: real): Mat2 {
    Mat2(scale, 0.0, 0.0, scale)
  }

  function MulMat2(m1: Mat2, m2: Mat2): Mat2 {
    Mat2(m1.e0 * m2.e0 + m1.e1 * m2.e2,
         m1.e0 * m2.e1 + m1.e1 * m2.e3,
         m1.e2 * m2.e0 + m1.e3 * m2.e2,
         m1.e2 * m2.e1 + m1.e3 * m2.e3)
  }

  function MulMatVec2(m: Mat2, v: Vec2): Vec2 {
    Vec2(m.e0 * v.x + m.e1 * v.y, m.e2 * v.x + m.e3 * v.y)
  }

  /** Applying a scaling matrix is scaling the vector. */
  lemma ScalingMatrixScales(s: real, v: Vec2)
    ensures MulMatVec2(MakeScalingMat2(s), v) == ScaleVec2(v, s)
  {
  }

  /** Applying a matrix product is applying the factors right to left. */
  lemma MulMat2Composes(m1: Mat2, m2: Mat2, v: Vec2)
    ensures MulMatVec2(MulMat2(m1, m2), v) == MulMatVec2(m1, MulMatVec2(m2, v))
  {
    RowTimesProduct(m1.e0, m1.e1, m2, v);
    RowTimesProduct(m1.e2, m1.e3, m2, v);
  }

  /** One row of the product applied to v is that row applied to m2*v. */
  lemma RowTimesProduct(a: real, b: real, m2: Mat2, v: Vec2)
    ensures (a * m2.e0 + b * m2.e2) * v.x + (a * m2.e1 + b * m2.e3) * v.y
      == a * (m2.e0 * v.x + m2.e1 * v.y) + b * (m2.e2 * v.x + m2.e3 * v.y)
  {
  }

  /** Scaling distributes over vector addition. */
  lemma ScaleDistributesOverAdd(v1: Vec2, v2: Vec2, s: real)
    ensures ScaleVec2(AddVec2(v1, v2), s) == AddVec2(ScaleVec2(v1, s), ScaleVec2(v2, s))
  {
  }

  /** `(int)r` in C: the integer part, rounding toward zero. */
  function Trunc(r: real): int {
    if r >= 0.0 then r.Floor else -((-r).Floor)
  }

  /**
   Truncation moves toward zero by less than one, and lands between any two
   integers that enclose its argument.
   */
  lemma TruncBounds(r: real, a: int, b: int)
    ensures 0.0 <= Trunc(r) as real <= r || r <= Trunc(r) as real <= 0.0
    ensures r - 1.0 < Trunc(r) as real < r + 1.0
    ensures a as real <= r <= b as real ==> a <= Trunc(r) <= b
  {
  }

  /** Truncation is odd: it commutes with negation. */
  lemma TruncOdd(r: real)
    ensures Trunc(-r) == -Trunc(r)
  {
  }
}
