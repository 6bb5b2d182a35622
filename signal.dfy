/** The small signal steps shared by the three sensor components: the sample records they
    keep in their state, the exponential low-pass filter, the Euclidean norm (given as an
    input that is non-negative and zero exactly for the zero vector), and the gyroscope
    noise floor. All arithmetic is over `real`. */
module Signal {

  datatype Option<T> = None | Some(value: T)

  /** An accelerometer sample as the components store it: the three axes and the norm. */
  datatype AccelSample = AccelSample(x: real, y: real, z: real, magnitude: real)

  /** A gyroscope sample as the components store it: the three axes and the rotational speed. */
  datatype GyroSample = GyroSample(x: real, y: real, z: real, speed: real)

  /** Smoothing constant of every low-pass filter in the application. */
  const ALPHA: real := 0.1
  /** Gyroscope axis values whose absolute value is below this are snapped to 0. */
  const NOISE_FLOOR: real := 0.05
  /** Rotational speed above which "fast rotation" is signalled. */
  const FAST_ROTATION_THRESHOLD: real := 3.0

  /** The initial component state: every field zero. */
  const ACCEL_AT_REST: AccelSample := AccelSample(0.0, 0.0, 0.0, 0.0)
  const GYRO_AT_REST: GyroSample := GyroSample(0.0, 0.0, 0.0, 0.0)

  function Abs(v: real): real
  {
    if v < 0.0 then -v else v
  }

  /** `v` lies in the closed interval spanned by `a` and `b`, whichever is larger. */
  predicate Between(a: real, b: real, v: real)
  {
    (a <= v <= b) || (b <= v <= a)
  }

  /** The sum of squares under the square root is positive exactly when the vector is not
      the zero vector, and it is never negative. */
  lemma SquaredNormPositiveIff(x: real, y: real, z: real)
    ensures x * x + y * y + z * z >= 0.0
    ensures x * x + y * y + z * z > 0.0 <==> !(x == 0.0 && y == 0.0 && z == 0.0)
  {
    SquareSign(x);
    SquareSign(y);
    SquareSign(z);
  }

  /** What the model assumes of `n == Math.sqrt(x * x + y * y + z * z)`: since the square
      root of a non-negative number is non-negative and zero only at zero, `n` is
      non-negative and, by SquaredNormPositiveIff, zero exactly for the zero vector. */
  predicate IsNorm(n: real, x: real, y: real, z: real)
  {
    n >= 0.0 && (n == 0.0 <==> x == 0.0 && y == 0.0 && z == 0.0)
  }

  /** A norm is positive exactly when the vector is not the zero vector. */
  lemma NormPositiveIff(n: real, x: real, y: real, z: real)
    requires IsNorm(n, x, y, z)
    ensures n > 0.0 <==> !(x == 0.0 && y == 0.0 && z == 0.0)
  {
  }

  lemma SquareSign(v: real)
    ensures v * v >= 0.0
    ensures v != 0.0 ==> v * v > 0.0
  {
    if v < 0.0 {
      MulPositive(-v, -v);
    } else if v > 0.0 {
      MulPositive(v, v);
    }
  }

  lemma MulPositive(a: real, b: real)
    requires a > 0.0 && b > 0.0
    ensures a * b > 0.0
  {
  }

  lemma MulNonNegative(a: real, b: real)
    requires a >= 0.0 && b >= 0.0
    ensures a * b >= 0.0
  {
  }

  /** One step of the exponential low-pass filter: `alpha * raw + (1 - alpha) * prev`.
      For a weight in [0, 1] the result is a convex combination, so it lies between the
      previous value and the raw one. */
  function Smooth(alpha: real, prev: real, raw: real): (r: real)
    requires 0.0 <= alpha <= 1.0
    ensures Between(prev, raw, r)
    ensures prev == raw ==> r == raw
  {
    SmoothIsConvex(alpha, prev, raw);
    alpha * raw + (1.0 - alpha) * prev
  }

  lemma SmoothIsConvex(alpha: real, prev: real, raw: real)
    requires 0.0 <= alpha <= 1.0
    ensures Between(prev, raw, alpha * raw + (1.0 - alpha) * prev)
  {
    var d := raw - prev;
    assert alpha * raw + (1.0 - alpha) * prev == prev + alpha * d;
    if d >= 0.0 {
      MulNonNegative(alpha, d);
      MulNonNegative(1.0 - alpha, d);
    } else {
      MulNonNegative(alpha, -d);
      MulNonNegative(1.0 - alpha, -d);
    }
  }

  /** The distance to the raw value shrinks by the factor `1 - alpha` in one filter step. */
  lemma SmoothError(alpha: real, prev: real, raw: real)
    requires 0.0 <= alpha <= 1.0
    ensures Abs(Smooth(alpha, prev, raw) - raw) == (1.0 - alpha) * Abs(prev - raw)
  {
    var d := prev - raw;
    assert Smooth(alpha, prev, raw) - raw == (1.0 - alpha) * d;
    if d < 0.0 {
      MulNonNegative(1.0 - alpha, -d);
    } else {
      MulNonNegative(1.0 - alpha, d);
    }
  }

  /** With the weight the application uses, the error toward a constant input is 0.9 times
      the previous error. */
  lemma ConstantInputErrorShrinks(prev: real, c: real)
    ensures Abs(Smooth(ALPHA, prev, c) - c) == 0.9 * Abs(prev - c)
    ensures prev != c ==> Abs(Smooth(ALPHA, prev, c) - c) < Abs(prev - c)
  {
    SmoothError(ALPHA, prev, c);
  }

  function Pow(b: real, n: nat): real
  {
    if n == 0 then 1.0 else b * Pow(b, n - 1)
  }

  /** The stored filter value after `n` samples of the constant input `c`, starting from `prev`:
      each handled sample becomes the next step's previous value. */
  function SmoothConstant(prev: real, c: real, n: nat): real
  {
    if n == 0 then prev else Smooth(ALPHA, SmoothConstant(prev, c, n - 1), c)
  }

  /** After `n` constant samples the error is `0.9^n` times the initial error. */
  lemma {:induction false} ConstantInputConverges(prev: real, c: real, n: nat)
    ensures Abs(SmoothConstant(prev, c, n) - c) == Pow(0.9, n) * Abs(prev - c)
  {
    if n > 0 {
      var q := SmoothConstant(prev, c, n - 1);
      ConstantInputConverges(prev, c, n - 1);
      ConstantInputErrorShrinks(q, c);
    }
  }

  /** The error toward a constant input never grows from one sample to the next, and it
      strictly shrinks while it is not yet zero. */
  lemma ConstantInputMonotone(prev: real, c: real, n: nat)
    ensures Abs(SmoothConstant(prev, c, n + 1) - c) <= Abs(SmoothConstant(prev, c, n) - c)
    ensures SmoothConstant(prev, c, n) != c ==>
      Abs(SmoothConstant(prev, c, n + 1) - c) < Abs(SmoothConstant(prev, c, n) - c)
  {
    ConstantInputErrorShrinks(SmoothConstant(prev, c, n), c);
  }

  /** The gyroscope noise floor: an axis value below `NOISE_FLOOR` in absolute value is
      replaced by exactly 0, any other value is kept. */
  function Snap(v: real): (r: real)
    ensures r == 0.0 || (r == v && Abs(r) >= NOISE_FLOOR)
    ensures Abs(v) >= NOISE_FLOOR ==> r == v
    ensures Abs(v) < NOISE_FLOOR ==> r == 0.0
  {
    if Abs(v) < NOISE_FLOOR then 0.0 else v
  }

  lemma SnapIdempotent(v: real)
    ensures Snap(Snap(v)) == Snap(v)
  {
  }
}
