/**
 * Two-dimensional points with componentwise arithmetic, the map from the virtual
 * screen square onto display coordinates, and the clamped scalar `lerp`.
 */
module Point {
  import opened Screen
  import opened Numeric

  datatype Point2D = Point2D(x: real, y: real)

  /** `p + q`: the point that `q` subtracts back to `p`. */
  function Add(p: Point2D, q: Point2D): (r: Point2D)
    ensures r.x - q.x == p.x && r.y - q.y == p.y
  {
    Point2D(p.x + q.x, p.y + q.y)
  }

  /** `p - q`: the point that `q` adds back to `p`. */
  function Sub(p: Point2D, q: Point2D): (r: Point2D)
    ensures r.x + q.x == p.x && r.y + q.y == p.y
  {
    Point2D(p.x - q.x, p.y - q.y)
  }

  /**
   * Componentwise `p * q`: dividing by a nonzero component gives `p`'s component back,
   * and a zero component of `q` gives a zero component.
   */
  function Mul(p: Point2D, q: Point2D): (r: Point2D)
    ensures q.x != 0.0 ==> r.x / q.x == p.x
    ensures q.y != 0.0 ==> r.y / q.y == p.y
    ensures q.x == 0.0 ==> r.x == 0.0
    ensures q.y == 0.0 ==> r.y == 0.0
  {
    Point2D(p.x * q.x, p.y * q.y)
  }

  /** `p * s`: the same as multiplying by the point (s, s). */
  function Scale(p: Point2D, s: real): (r: Point2D)
    ensures r == Mul(p, Point2D(s, s))
  {
    Point2D(p.x * s, p.y * s)
  }

  /** Componentwise division; a zero component of `q` (an IEEE infinity) is not modelled. */
  function Div(p: Point2D, q: Point2D): (r: Point2D)
    requires q.x != 0.0 && q.y != 0.0
    ensures Mul(r, q) == p
  {
    Point2D(p.x / q.x, p.y / q.y)
  }

  /** `p / s` for a nonzero scalar: the point that scaling by `s` takes back to `p`. */
  function Shrink(p: Point2D, s: real): (r: Point2D)
    requires s != 0.0
    ensures Scale(r, s) == p
  {
    Point2D(p.x / s, p.y / s)
  }

  /** Subtraction undoes addition and addition undoes subtraction. */
  lemma AddSubInverse(p: Point2D, q: Point2D)
    ensures Sub(Add(p, q), q) == p
    ensures Add(Sub(p, q), q) == p
  {
  }

  /** Addition is commutative and associative, as it is on each component. */
  lemma AddCommutesAssociates(p: Point2D, q: Point2D, r: Point2D)
    ensures Add(p, q) == Add(q, p)
    ensures Add(Add(p, q), r) == Add(p, Add(q, r))
  {
  }

  /** Division by a point with nonzero components undoes multiplication by it, and back. */
  lemma MulDivInverse(p: Point2D, q: Point2D)
    requires q.x != 0.0 && q.y != 0.0
    ensures Div(Mul(p, q), q) == p
    ensures Mul(Div(p, q), q) == p
  {
  }

  /** Division by a nonzero scalar undoes scaling by it, and back. */
  lemma ScaleShrinkInverse(p: Point2D, s: real)
    requires s != 0.0
    ensures Shrink(Scale(p, s), s) == p
    ensures Scale(Shrink(p, s), s) == p
  {
  }

  /** Scaling by a scalar is multiplication by the point with that scalar twice. */
  lemma ScaleIsMul(p: Point2D, s: real)
    ensures Scale(p, s) == Mul(p, Point2D(s, s))
  {
  }

  const MIN_SCREEN: Point2D := Point2D(-1.0, -1.0)
  const MAX_SCREEN: Point2D := Point2D(1.0, 1.0)

  /**
   * `toDCoords`: the virtual screen square [MIN_SCREEN, MAX_SCREEN] stretched onto
   * [0, WIDTH] x [0, HEIGHT]; points outside the square map outside the display.
   */
  function ToDCoords(p: Point2D): (r: Point2D)
    ensures r.x == (p.x + 1.0) / 2.0 * WIDTH as real
    ensures r.y == (p.y + 1.0) / 2.0 * HEIGHT as real
  {
    Mul(Div(Sub(p, MIN_SCREEN), Sub(MAX_SCREEN, MIN_SCREEN)), Point2D(WIDTH as real, HEIGHT as real))
  }

  /** The corners of the virtual square land on the corners of the display. */
  lemma ToDCoordsCorners()
    ensures ToDCoords(MIN_SCREEN) == Point2D(0.0, 0.0)
    ensures ToDCoords(MAX_SCREEN) == Point2D(WIDTH as real, HEIGHT as real)
  {
  }

  /** Each display coordinate is a strictly increasing function of the same screen coordinate. */
  lemma ToDCoordsMonotone(p: Point2D, q: Point2D)
    ensures p.x < q.x <==> ToDCoords(p).x < ToDCoords(q).x
    ensures p.y < q.y <==> ToDCoords(p).y < ToDCoords(q).y
    ensures p.x == q.x <==> ToDCoords(p).x == ToDCoords(q).x
    ensures p.y == q.y <==> ToDCoords(p).y == ToDCoords(q).y
  {
  }

  /**
   * `lerp`: below 0 the fraction gives `a`, above 1 it gives `b`, in between the blend
   * `a*(1-v) + b*v`; so the result never leaves the interval spanned by `a` and `b`.
   */
  function Lerp(a: real, b: real, v: real): (r: real)
    ensures Min(a, b) <= r <= Max(a, b)
    ensures v == 0.0 ==> r == a
    ensures v == 1.0 ==> r == b
  {
    if v < 0.0 then a
    else if v > 1.0 then b
    else
      LerpBetween(a, b, v);
      a * (1.0 - v) + b * v
  }

  lemma LerpBetween(a: real, b: real, v: real)
    requires 0.0 <= v <= 1.0
    ensures Min(a, b) <= a * (1.0 - v) + b * v <= Max(a, b)
  {
    assert a * (1.0 - v) + b * v == a + (b - a) * v;
    if a <= b {
      FractionOf(b - a, v);
    } else {
      FractionOf(a - b, v);
      assert (b - a) * v == -((a - b) * v);
    }
  }

  /** Out of [0, 1] the fraction is clamped: every `v < 0` acts as 0 and every `v > 1` as 1. */
  lemma LerpClamped(a: real, b: real, v: real)
    ensures v < 0.0 ==> Lerp(a, b, v) == Lerp(a, b, 0.0) == a
    ensures v > 1.0 ==> Lerp(a, b, v) == Lerp(a, b, 1.0) == b
  {
  }

  /**
   * `lerp` at an f32 fraction that may be infinite: -inf takes the `v < 0` branch and
   * +inf the `v > 1` branch.
   */
  function LerpAt(a: real, b: real, q: Quot): (r: real)
    ensures Min(a, b) <= r <= Max(a, b)
    ensures q == NegInf ==> r == a
    ensures q == PosInf ==> r == b
  {
    match q
    case Finite(v) => Lerp(a, b, v)
    case NegInf => a
    case PosInf => b
  }
}
