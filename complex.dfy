/** Complex samples as pairs of reals, and the elementary functions the
    generator calls (sqrt, exp, sin, cos, tan, acos, atan2) as uninterpreted
    functions. Nothing is assumed about those functions except the laws that a
    member names explicitly in its `requires`. */
module Complex {

  /** M_PI as <cmath> defines it. */
  const Pi: real := 3.14159265358979323846

  datatype Complex = Complex(re: real, im: real)

  const Zero: Complex := Complex(0.0, 0.0)
  const One: Complex := Complex(1.0, 0.0)

  function Add(a: Complex, b: Complex): Complex
  {
    Complex(a.re + b.re, a.im + b.im)
  }

  /** `Complex + Real` adds the scalar to the real part. */
  function AddReal(a: Complex, r: real): Complex
  {
    Complex(a.re + r, a.im)
  }

  function Mul(a: Complex, b: Complex): Complex
  {
    Complex(a.re * b.re - a.im * b.im, a.re * b.im + a.im * b.re)
  }

  /** |z|^2, which needs no square root. */
  function NormSq(a: Complex): real
  {
    a.re * a.re + a.im * a.im
  }

  /** The elementary functions of the C math library, left uninterpreted. */
  datatype Elementary = Elementary(
    sqrt: real -> real,
    exp: real -> real,
    sin: real -> real,
    cos: real -> real,
    tan: real -> real,
    acos: real -> real,
    atan2: (real, real) -> real)

  /** Complex exponential: exp(re) * (cos im + i sin im). */
  function Exp(m: Elementary, z: Complex): Complex
  {
    Complex(m.exp(z.re) * m.cos(z.im), m.exp(z.re) * m.sin(z.im))
  }

  /** exp(i * theta): the phasor of a purely imaginary argument. */
  function Phasor(m: Elementary, theta: real): Complex
  {
    Exp(m, Complex(0.0, theta))
  }

  /** |z| = sqrt(re^2 + im^2). */
  function Magnitude(m: Elementary, z: Complex): real
  {
    m.sqrt(NormSq(z))
  }

  /** arg(z) = atan2(im, re). */
  function Phase(m: Elementary, z: Complex): real
  {
    m.atan2(z.im, z.re)
  }

  /** exp(0) = 1, cos(0) = 1, sin(0) = 0. */
  predicate ZeroLaws(m: Elementary)
  {
    m.exp(0.0) == 1.0 && m.cos(0.0) == 1.0 && m.sin(0.0) == 0.0
  }

  /** sqrt is the non-negative square root on the non-negative reals. */
  ghost predicate SqrtLaw(m: Elementary)
  {
    forall x: real :: 0.0 <= x ==> 0.0 <= m.sqrt(x) && m.sqrt(x) * m.sqrt(x) == x
  }

  /** Under the zero laws, exp(i * 0) is exactly 1 + 0i. */
  lemma PhasorAtZero(m: Elementary)
    requires ZeroLaws(m)
    ensures Phasor(m, 0.0) == One
  {
  }

  lemma MulOneRight(a: Complex)
    ensures Mul(a, One) == a
  {
  }

  lemma MulOneLeft(a: Complex)
    ensures Mul(One, a) == a
  {
  }

  lemma AddZeroRight(a: Complex)
    ensures Add(a, Zero) == a
  {
  }
}
