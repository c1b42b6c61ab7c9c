/** Angular-spectrum propagation of one depth plane: every pixel of the
    plane's spectrum that lies inside the propagating band is multiplied by
    the transfer kernel and added into the accumulated hologram field. */
module AngularSpectrum {
  import opened Complex
  import opened Grid
  import FieldContext
  import Encoders

  /** Horizontal spatial frequency of pixel i: column i % nx, starting at
      -1/(2 ppx) and stepping by 1/ssx. */
  function Fxx(c: FieldContext.Context, i: int): real
    requires FieldContext.Valid(c)
  {
    (-1.0 / (2.0 * c.ppx)) + (1.0 / c.ssx) * ((i % c.nx) as real)
  }

  /** Vertical spatial frequency of pixel i: row i / nx, starting at
      1/(2 ppy) - 1/ssy and stepping by -1/ssy. */
  function Fyy(c: FieldContext.Context, i: int): real
    requires FieldContext.Valid(c)
  {
    (1.0 / (2.0 * c.ppy)) - (1.0 / c.ssy) - (1.0 / c.ssy) * ((i / c.nx) as real)
  }

  /** The argument of the square root: 1 - (lambda fx)^2 - (lambda fy)^2. */
  function Radicand(lambda: real, fx: real, fy: real): real
  {
    1.0 - (lambda * fx) * (lambda * fx) - (lambda * fy) * (lambda * fy)
  }

  /** The propagation mask: fx^2 + fy^2 < k^2. */
  predicate Propagates(k: real, fx: real, fy: real)
  {
    fx * fx + fy * fy < k * k
  }

  /** sval: the square root scaled by k times the distance. */
  function KernelPhase(m: Elementary, c: FieldContext.Context, fx: real, fy: real, dist: real): real
  {
    m.sqrt(Radicand(c.lambda, fx, fy)) * (c.k * dist)
  }

  /** The transfer kernel exp(i sval). */
  function Kernel(m: Elementary, c: FieldContext.Context, fx: real, fy: real, dist: real): Complex
  {
    Phasor(m, KernelPhase(m, c, fx, fy, dist))
  }

  /** u_frequency of pixel i: kernel * input inside the band, and the
      default-constructed zero outside it. */
  function Contribution(m: Elementary, c: FieldContext.Context, u: Complex, i: int, dist: real): Complex
    requires FieldContext.Valid(c)
  {
    if Propagates(c.k, Fxx(c, i), Fyy(c, i)) then Mul(Kernel(m, c, Fxx(c, i), Fyy(c, i), dist), u) else Zero
  }

  /** complex_H after one plane input at distance dist has been added. */
  function Accumulated(m: Elementary, c: FieldContext.Context, h: seq<Complex>, input: seq<Complex>, dist: real): (r: seq<Complex>)
    requires FieldContext.Valid(c)
    requires |h| == FieldContext.PixelCount(c) && |input| == |h|
    ensures |r| == |h|
  {
    seq(|h|, i requires 0 <= i < |h| => Add(h[i], Contribution(m, c, input[i], i, dist)))
  }

  /** Pixel by pixel: a pixel outside the band keeps its accumulated value,
      a pixel inside it gains kernel * input and keeps what it had. */
  lemma {:induction false} AccumulatedAt(m: Elementary, c: FieldContext.Context, h: seq<Complex>, input: seq<Complex>, dist: real, i: int)
    requires FieldContext.Valid(c)
    requires |h| == FieldContext.PixelCount(c) && |input| == |h|
    requires 0 <= i < |h|
    ensures !Propagates(c.k, Fxx(c, i), Fyy(c, i)) ==> Accumulated(m, c, h, input, dist)[i] == h[i]
    ensures Propagates(c.k, Fxx(c, i), Fyy(c, i)) ==>
      Accumulated(m, c, h, input, dist)[i].re - h[i].re == Mul(Kernel(m, c, Fxx(c, i), Fyy(c, i), dist), input[i]).re &&
      Accumulated(m, c, h, input, dist)[i].im - h[i].im == Mul(Kernel(m, c, Fxx(c, i), Fyy(c, i), dist), input[i]).im
  {
    AddZeroRight(h[i]);
  }

  /** The order in which depth planes are accumulated does not matter. */
  lemma {:induction false} AccumulationCommutes(m: Elementary, c: FieldContext.Context, h: seq<Complex>,
                                                 u1: seq<Complex>, d1: real, u2: seq<Complex>, d2: real)
    requires FieldContext.Valid(c)
    requires |h| == FieldContext.PixelCount(c) && |u1| == |h| && |u2| == |h|
    ensures Accumulated(m, c, Accumulated(m, c, h, u1, d1), u2, d2) ==
            Accumulated(m, c, Accumulated(m, c, h, u2, d2), u1, d1)
  {
    var a := Accumulated(m, c, Accumulated(m, c, h, u1, d1), u2, d2);
    var b := Accumulated(m, c, Accumulated(m, c, h, u2, d2), u1, d1);
    forall i | 0 <= i < |h| ensures a[i] == b[i] {
      var p := Contribution(m, c, u1[i], i, d1);
      var q := Contribution(m, c, u2[i], i, d2);
      assert a[i] == Add(Add(h[i], p), q);
      assert b[i] == Add(Add(h[i], q), p);
    }
  }

  /** At distance zero the kernel is 1, so every propagating pixel gains
      exactly its input sample. */
  lemma {:induction false} AccumulatedAtZeroDistance(m: Elementary, c: FieldContext.Context, h: seq<Complex>, input: seq<Complex>, i: int)
    requires FieldContext.Valid(c) && ZeroLaws(m)
    requires |h| == FieldContext.PixelCount(c) && |input| == |h|
    requires 0 <= i < |h|
    ensures Accumulated(m, c, h, input, 0.0)[i] ==
      if Propagates(c.k, Fxx(c, i), Fyy(c, i)) then Add(h[i], input[i]) else h[i]
  {
    assert KernelPhase(m, c, Fxx(c, i), Fyy(c, i), 0.0) == 0.0;
    PhasorAtZero(m);
    MulOneLeft(input[i]);
    AddZeroRight(h[i]);
  }

  /** Along a row the horizontal frequency depends on the column only, and
      the vertical frequency on the row only. */
  lemma {:induction false} PixelFrequencies(c: FieldContext.Context, row: int, col: int)
    requires FieldContext.Valid(c)
    requires 0 <= row && 0 <= col < c.nx
    ensures Fxx(c, Flat(row, col, c.nx)) == (-1.0 / (2.0 * c.ppx)) + (1.0 / c.ssx) * (col as real)
    ensures Fyy(c, Flat(row, col, c.nx)) == (1.0 / (2.0 * c.ppy)) - (1.0 / c.ssy) - (1.0 / c.ssy) * (row as real)
  {
    FlatSplit(row, col, c.nx);
  }

  /** The mask does not keep the square root real: with k = 2 pi / lambda,
      the frequency (2 / lambda, 0) passes fx^2 + fy^2 < k^2, yet its
      radicand is 1 - 4 = -3. */
  lemma {:induction false} MaskAdmitsNegativeRadicand(lambda: real, k: real)
    requires lambda > 0.0 && k * lambda == 2.0 * Pi
    ensures Propagates(k, 2.0 / lambda, 0.0)
    ensures Radicand(lambda, 2.0 / lambda, 0.0) == -3.0
  {
    var fx := 2.0 / lambda;
    assert lambda * fx == 2.0;
    assert k == 2.0 * Pi / lambda;
    assert k - fx == (2.0 * Pi - 2.0) / lambda;
    Encoders.SquareGap(k, fx);
  }

  /** propagationAngularSpectrum for the single-wavelength build: one pass
      over the pnX * pnY pixels adding each plane contribution into
      complex_H. The input is read through its value before the call, so
      the loop is also correct when input and complex_H are one buffer. */
  method PropagationAngularSpectrum(m: Elementary, c: FieldContext.Context,
                                    complexH: array<Complex>, input: array<Complex>, dist: real)
    requires FieldContext.Valid(c)
    requires complexH.Length == FieldContext.PixelCount(c) && input.Length >= complexH.Length
    modifies complexH
    ensures complexH[..] == Accumulated(m, c, old(complexH[..]), old(input[..complexH.Length]), dist)
  {
    var n := c.nx * c.ny;
    ghost var h0 := complexH[..];
    ghost var u0 := input[..n];
    ghost var target := Accumulated(m, c, h0, u0, dist);
    var i := 0;
    while i < n
      invariant 0 <= i <= n
      invariant forall j :: 0 <= j < n ==> complexH[j] == if j < i then target[j] else h0[j]
      invariant forall j :: i <= j < n ==> input[j] == u0[j]
    {
      complexH[i] := AddContribution(m, c, complexH[i], input[i], i, dist);
      i := i + 1;
    }
  }

  /** One pass of the loop: the kernel at pixel i, the masked product
      u_frequency, and its sum with complex_H[i]. */
  method AddContribution(m: Elementary, c: FieldContext.Context, h: Complex, u: Complex, i: int, dist: real)
    returns (r: Complex)
    requires FieldContext.Valid(c)
    ensures r == Add(h, Contribution(m, c, u, i, dist))
  {
    var fxx := Fxx(c, i);
    var fyy := Fyy(c, i);
    var kernel := Kernel(m, c, fxx, fyy, dist);
    var uFrequency := Zero;
    if Propagates(c.k, fxx, fyy) {
      uFrequency := Mul(kernel, u);
    }
    r := Add(h, uFrequency);
  }
}
