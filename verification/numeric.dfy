/** The display size the whole crate is built for. */
module Screen {
  const WIDTH: int := 64
  const HEIGHT: int := 48
}

/**
 * The f32 arithmetic the rasterizer relies on, over exact reals: rounding half away
 * from zero, the saturating float-to-integer `as` casts, and division whose zero
 * denominator yields a signed infinity.
 */
module Numeric {
  const I32_MIN: int := -0x8000_0000
  const I32_MAX: int := 0x7fff_ffff
  const USIZE_MAX: int := 0xffff_ffff_ffff_ffff

  newtype u8 = x: int | 0 <= x < 0x100

  function Min(a: real, b: real): real { if a <= b then a else b }
  function Max(a: real, b: real): real { if a <= b then b else a }
  function MinInt(a: int, b: int): int { if a <= b then a else b }
  function MaxInt(a: int, b: int): int { if a <= b then b else a }

  /** `f32::round`: the nearest integer, a tie going away from zero. */
  function Round(t: real): (n: int)
    ensures t - 0.5 <= n as real <= t + 0.5
    ensures n as real == t + 0.5 ==> t >= 0.0
    ensures n as real == t - 0.5 ==> t <= 0.0
  {
    var n := (t + 0.5).Floor;
    if t < 0.0 && n as real == t + 0.5 then n - 1 else n
  }

  /** Truncation toward zero, the first step of every float-to-integer `as` cast. */
  function Trunc(t: real): (n: int)
    ensures t >= 0.0 ==> 0 <= n && n as real <= t < n as real + 1.0
    ensures t < 0.0 ==> n <= 0 && n as real - 1.0 < t <= n as real
  {
    var n := t.Floor;
    if t < 0.0 && n as real != t then n + 1 else n
  }

  function Saturate(n: int, lo: int, hi: int): (r: int)
    requires lo <= hi
    ensures lo <= r <= hi
    ensures lo <= n <= hi ==> r == n
  {
    if n < lo then lo else if n > hi then hi else n
  }

  /**
   * `t as i32` applied to the output of `round`, which is integral: the truncation is the
   * identity, so the cast only saturates.
   */
  function RoundToI32(t: real): (n: int)
    ensures I32_MIN <= n <= I32_MAX
    ensures I32_MIN <= Round(t) <= I32_MAX ==> n == Round(t)
  {
    Saturate(Round(t), I32_MIN, I32_MAX)
  }

  /** `t as u8` for a finite f32: truncate toward zero, then saturate to 0..255. */
  function AsU8(t: real): (v: u8)
    ensures t < 1.0 ==> v == 0
    ensures t >= 255.0 ==> v == 255
    ensures 0.0 <= t < 256.0 ==> v as real <= t < v as real + 1.0
  {
    Saturate(Trunc(t), 0, 255) as u8
  }

  /** A nonnegative quantity scaled by a fraction in [0, 1] stays between 0 and itself. */
  lemma FractionOf(k: real, v: real)
    requires k >= 0.0 && 0.0 <= v <= 1.0
    ensures 0.0 <= k * v <= k
  {
    NonNegativeProduct(k, v);
    NonNegativeProduct(k, 1.0 - v);
    assert k * (1.0 - v) == k - k * v;
  }

  lemma NonNegativeProduct(k: real, v: real)
    requires k >= 0.0 && v >= 0.0
    ensures k * v >= 0.0
  {
  }

  /** An f32 quotient that is not NaN: a number, or the infinity a zero denominator gives. */
  datatype Quot = Finite(v: real) | PosInf | NegInf

  /**
   * IEEE 754 division `num / den`. Every denominator the rasterizer divides by is a
   * difference `p - q` of two coordinates, which is +0 when they coincide, so a zero
   * denominator gives the infinity with the numerator's sign. 0/0 (NaN) is excluded.
   */
  function Divide(num: real, den: real): (q: Quot)
    requires den != 0.0 || num != 0.0
    ensures q.Finite? <==> den != 0.0
    ensures q.Finite? ==> q.v * den == num
    ensures q == PosInf <==> den == 0.0 && num > 0.0
    ensures q == NegInf <==> den == 0.0 && num < 0.0
  {
    if den != 0.0 then Finite(num / den) else if num > 0.0 then PosInf else NegInf
  }
}
