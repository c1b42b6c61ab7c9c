/** Signal-location cropping and shift-phase demodulation, shared by
    encodeSideBand / encodeSideBand_CPU and encodeSymmetrization. The signal
    location is a pair of flags (x, y); a zero flag keeps the whole axis, any
    other value keeps a window half the axis wide. */
module SideBand {
  import opened Complex
  import opened Grid
  import opened Fourier
  import opened Wrappers
  import FieldContext

  /** Signal-location flags, sig_location[0] and sig_location[1]. */
  datatype SigLocation = SigLocation(x: int, y: int)

  /** Inclusive 0-based crop bounds of one axis. */
  datatype Bounds = Bounds(lo: int, hi: int)

  datatype CropBox = CropBox(x: Bounds, y: Bounds)

  /** The bounds encodeSideBand computes for an axis of n pixels: half widths
      are taken as (int)floor((Real)n / 2), the 1-based bounds are then
      shifted down by one. */
  function SideBandAxis(n: nat, flag: int): Bounds
  {
    if flag == 0 then Bounds(1 - 1, n - 1)
    else
      var c := ((n as real) / 2.0).Floor;
      var lo := c - ((c as real) / 2.0).Floor;
      Bounds(lo - 1, lo + c - 1 - 1)
  }

  /** The bounds encodeSymmetrization computes for the same axis, with the
      halving done in integer arithmetic. */
  function SymmetrizationAxis(n: nat, flag: int): Bounds
  {
    if flag == 0 then Bounds(1 - 1, n - 1)
    else
      var c := n / 2;
      var lo := c - c / 2;
      Bounds(lo - 1, lo + c - 1 - 1)
  }

  lemma {:induction false} FloorHalf(n: int)
    ensures ((n as real) / 2.0).Floor == n / 2
  {
    var q := n / 2;
    assert n == 2 * q + n % 2;
    assert (q as real) <= (n as real) / 2.0 < (q as real) + 1.0;
  }

  /** Both crop sites compute the same bounds for every axis length and flag. */
  lemma {:induction false} CropSitesAgree(n: nat, flag: int)
    ensures SideBandAxis(n, flag) == SymmetrizationAxis(n, flag)
  {
    if flag != 0 {
      FloorHalf(n);
      FloorHalf(n / 2);
    }
  }

  /** A zero flag keeps the whole axis [0, n-1]; a non-zero flag keeps the
      window [c - c/2 - 1, 2c - c/2 - 2] with c = n/2, which for n >= 2 lies
      inside the axis and is c pixels wide. */
  lemma {:induction false} AxisWindow(n: nat, flag: int)
    ensures flag == 0 ==> SymmetrizationAxis(n, flag) == Bounds(0, n - 1)
    ensures flag != 0 ==>
      var c := n / 2;
      SymmetrizationAxis(n, flag) == Bounds(c - c / 2 - 1, 2 * c - c / 2 - 2)
    ensures flag != 0 && n >= 2 ==>
      var b := SymmetrizationAxis(n, flag);
      0 <= b.lo <= b.hi <= n - 1 && b.hi - b.lo + 1 == n / 2
    ensures flag != 0 && n < 2 ==> SymmetrizationAxis(n, flag).hi < SymmetrizationAxis(n, flag).lo
  {
  }

  function SideBandBox(pnx: nat, pny: nat, sig: SigLocation): CropBox
  {
    CropBox(SideBandAxis(pnx, sig.x), SideBandAxis(pny, sig.y))
  }

  function SymmetrizationBox(pnx: nat, pny: nat, sig: SigLocation): CropBox
  {
    CropBox(SymmetrizationAxis(pnx, sig.x), SymmetrizationAxis(pny, sig.y))
  }

  predicate InBounds(v: int, b: Bounds)
  {
    b.lo <= v <= b.hi
  }

  /** Pixel p of a pnx-wide buffer lies in the crop box. */
  predicate InWindow(p: int, pnx: nat, box: CropBox)
    requires pnx > 0
  {
    InBounds(p % pnx, box.x) && InBounds(p / pnx, box.y)
  }

  /** The cropped buffer h_crop: the field inside the window, zero outside. */
  function Cropped(field: seq<Complex>, pnx: nat, pny: nat, box: CropBox): (r: seq<Complex>)
    requires pnx > 0 && |field| >= pnx * pny
    ensures |r| == pnx * pny
  {
    seq(pnx * pny, p requires 0 <= p < pnx * pny => if InWindow(p, pnx, box) then field[p] else Zero)
  }

  /** In (row, column) terms: the sample at column x of row y is kept exactly
      when x and y both lie in the box, and is zero otherwise. */
  lemma {:induction false} CroppedAt(field: seq<Complex>, pnx: nat, pny: nat, box: CropBox, x: int, y: int)
    requires pnx > 0 && |field| >= pnx * pny
    requires 0 <= x < pnx && 0 <= y < pny
    ensures Flat(y, x, pnx) < pnx * pny
    ensures Cropped(field, pnx, pny, box)[Flat(y, x, pnx)] ==
      if InBounds(x, box.x) && InBounds(y, box.y) then field[Flat(y, x, pnx)] else Zero
  {
    FlatInside(y, x, pnx, pny);
    FlatSplit(y, x, pnx);
  }

  /** With both flags zero nothing is cropped. */
  lemma {:induction false} NoFlagsKeepsAll(field: seq<Complex>, pnx: nat, pny: nat)
    requires pnx > 0 && |field| == pnx * pny
    ensures Cropped(field, pnx, pny, SymmetrizationBox(pnx, pny, SigLocation(0, 0))) == field
  {
    var box := SymmetrizationBox(pnx, pny, SigLocation(0, 0));
    forall p | 0 <= p < pnx * pny
      ensures Cropped(field, pnx, pny, box)[p] == field[p]
    {
      FlatBounds(p, pnx, pny);
    }
  }

  /** The crop loop: h_crop is zero-allocated, then every pixel inside the box
      is copied from the field. */
  method Crop(field: array<Complex>, pnx: nat, pny: nat, box: CropBox) returns (hCrop: array<Complex>)
    requires pnx > 0 && field.Length >= pnx * pny
    ensures hCrop.Length == pnx * pny
    ensures hCrop[..] == Cropped(field[..], pnx, pny, box)
  {
    hCrop := new Complex[pnx * pny](_ => Zero);
    var p := 0;
    while p < pnx * pny
      invariant 0 <= p <= pnx * pny
      invariant forall q :: 0 <= q < p ==> hCrop[q] == if InWindow(q, pnx, box) then field[q] else Zero
      invariant forall q :: p <= q < pnx * pny ==> hCrop[q] == Zero
    {
      var x := p % pnx;
      var y := p / pnx;
      if x >= box.x.lo && x <= box.x.hi && y >= box.y.lo && y <= box.y.hi {
        hCrop[p] := field[p];
      }
      p := p + 1;
    }
  }

  /** The y-axis phase angle of getShiftPhaseValue for a pixel in row r:
      yy = ssy/2 - ppy*r - ppy, angle 2*pi*(+-yy)/(4*ppy), positive only for
      a flag equal to 1. */
  function ShiftAngleY(c: FieldContext.Context, r: int, flag: int): real
    requires c.ppy != 0.0
  {
    var yy := YCoord(c, r);
    if flag == 1 then 2.0 * Pi * (yy / (4.0 * c.ppy)) else 2.0 * Pi * (-yy / (4.0 * c.ppy))
  }
  /** Neighbouring pixels are a quarter turn apart: one column step turns
      the x angle by -pi/2 (by pi/2 for flag -1), one row step turns the y
      angle by -pi/2 for flag 1 (by pi/2 otherwise), and the two choices of
      each flag give opposite angles. */
  lemma {:induction false} ShiftAngleSteps(c: FieldContext.Context, col: int, r: int, flag: int)
    requires c.ppx > 0.0 && c.ppy > 0.0
    ensures ShiftAngleX(c, col + 1, flag) == ShiftAngleX(c, col, flag) + (if flag == -1 then Pi / 2.0 else -Pi / 2.0)
    ensures ShiftAngleY(c, r + 1, flag) == ShiftAngleY(c, r, flag) + (if flag == 1 then -Pi / 2.0 else Pi / 2.0)
    ensures ShiftAngleX(c, col, -1) == -ShiftAngleX(c, col, 1)
    ensures ShiftAngleY(c, r, 1) == -ShiftAngleY(c, r, 0)
  {
    ColumnStep(c, col, flag);
    RowStep(c, r, flag);
  }

  lemma {:induction false} ColumnStep(c: FieldContext.Context, col: int, flag: int)
    requires c.ppx > 0.0
    ensures ShiftAngleX(c, col + 1, flag) == ShiftAngleX(c, col, flag) + (if flag == -1 then Pi / 2.0 else -Pi / 2.0)
    ensures ShiftAngleX(c, col, -1) == -ShiftAngleX(c, col, 1)
  {
    var p := c.ppx;
    var xx, xx1 := XCoord(c, col), XCoord(c, col + 1);
    assert xx1 == xx - p by {
      assert p * ((col + 1) as real) == p * (col as real) + p;
    }
    QuarterStep(xx, p);
    assert ShiftAngleX(c, col, -1) == 2.0 * Pi * (-xx / (4.0 * p));
    assert ShiftAngleX(c, col, 1) == 2.0 * Pi * (xx / (4.0 * p));
    if flag == -1 {
      assert ShiftAngleX(c, col + 1, flag) == 2.0 * Pi * (-xx1 / (4.0 * p));
    } else {
      assert ShiftAngleX(c, col, flag) == 2.0 * Pi * (xx / (4.0 * p));
      assert ShiftAngleX(c, col + 1, flag) == 2.0 * Pi * (xx1 / (4.0 * p));
    }
  }

  lemma {:induction false} RowStep(c: FieldContext.Context, r: int, flag: int)
    requires c.ppy > 0.0
    ensures ShiftAngleY(c, r + 1, flag) == ShiftAngleY(c, r, flag) + (if flag == 1 then -Pi / 2.0 else Pi / 2.0)
    ensures ShiftAngleY(c, r, 1) == -ShiftAngleY(c, r, 0)
  {
    var p := c.ppy;
    var yy, yy1 := YCoord(c, r), YCoord(c, r + 1);
    assert yy1 == yy - p by {
      assert p * ((r + 1) as real) == p * (r as real) + p;
    }
    QuarterStep(yy, p);
    assert ShiftAngleY(c, r, 1) == 2.0 * Pi * (yy / (4.0 * p));
    assert ShiftAngleY(c, r, 0) == 2.0 * Pi * (-yy / (4.0 * p));
    if flag == 1 {
      assert ShiftAngleY(c, r + 1, flag) == 2.0 * Pi * (yy1 / (4.0 * p));
    } else {
      assert ShiftAngleY(c, r, flag) == 2.0 * Pi * (-yy / (4.0 * p));
      assert ShiftAngleY(c, r + 1, flag) == 2.0 * Pi * (-yy1 / (4.0 * p));
    }
  }

  /** Moving one pitch along an axis turns 2 pi (v / (4 p)) by a quarter. */
  lemma QuarterStep(v: real, p: real)
    requires p > 0.0
    ensures 2.0 * Pi * ((v - p) / (4.0 * p)) == 2.0 * Pi * (v / (4.0 * p)) - Pi / 2.0
    ensures 2.0 * Pi * (-(v - p) / (4.0 * p)) == 2.0 * Pi * (-v / (4.0 * p)) + Pi / 2.0
    ensures 2.0 * Pi * (-v / (4.0 * p)) == -(2.0 * Pi * (v / (4.0 * p)))
  {
    var q := 4.0 * p;
    assert p / q == 1.0 / 4.0;
    assert (v - p) / q == v / q - p / q;
    assert -(v - p) / q == (-v) / q + p / q;
  }


  /** The x coordinate of column col in getShiftPhaseValue:
      xx = -ssx/2 - ppx*col - ppx. */
  function XCoord(c: FieldContext.Context, col: int): real
  {
    (-c.ssx / 2.0) - c.ppx * (col as real) - c.ppx
  }

  /** The y coordinate of row r: yy = ssy/2 - ppy*r - ppy. */
  function YCoord(c: FieldContext.Context, r: int): real
  {
    (c.ssy / 2.0) - c.ppy * (r as real) - c.ppy
  }

  /** The x-axis phase angle for a pixel in column col: xx = -ssx/2 - ppx*col
      - ppx, angle 2*pi*(+-xx)/(4*ppx), negative only for a flag equal to -1. */
  function ShiftAngleX(c: FieldContext.Context, col: int, flag: int): real
    requires c.ppx != 0.0
  {
    var xx := XCoord(c, col);
    if flag == -1 then 2.0 * Pi * (-xx / (4.0 * c.ppx)) else 2.0 * Pi * (xx / (4.0 * c.ppx))
  }

  /** getShiftPhaseValue: starting from 1 + 0i, multiply by exp(i * angle)
      for the y axis when its flag is non-zero, then for the x axis when its
      flag is non-zero. */
  function ShiftPhaseValue(m: Elementary, c: FieldContext.Context, idx: nat, sig: SigLocation): Complex
    requires FieldContext.Valid(c)
  {
    var afterY := if sig.y != 0 then Mul(One, Phasor(m, ShiftAngleY(c, idx / c.nx, sig.y))) else One;
    if sig.x != 0 then Mul(afterY, Phasor(m, ShiftAngleX(c, idx % c.nx, sig.x))) else afterY
  }

  /** The flag logic: with both flags zero the correction is exactly 1; a y
      flag alone contributes one phasor that depends only on the pixel's row,
      an x flag alone one that depends only on its column; every y flag other
      than 1 acts like -1 and every x flag other than -1 acts like 1. */
  lemma {:induction false} ShiftPhaseFlags(m: Elementary, c: FieldContext.Context, idx: nat, fx: int, fy: int)
    requires FieldContext.Valid(c)
    ensures ShiftPhaseValue(m, c, idx, SigLocation(0, 0)) == One
    ensures fy != 0 ==>
      ShiftPhaseValue(m, c, idx, SigLocation(0, fy)) == Phasor(m, ShiftAngleY(c, idx / c.nx, fy))
    ensures fx != 0 ==>
      ShiftPhaseValue(m, c, idx, SigLocation(fx, 0)) == Phasor(m, ShiftAngleX(c, idx % c.nx, fx))
    ensures fy != 0 && fy != 1 ==>
      ShiftPhaseValue(m, c, idx, SigLocation(fx, fy)) == ShiftPhaseValue(m, c, idx, SigLocation(fx, -1))
    ensures fx != 0 && fx != -1 ==>
      ShiftPhaseValue(m, c, idx, SigLocation(fx, fy)) == ShiftPhaseValue(m, c, idx, SigLocation(1, fy))
  {
    MulOneLeft(Phasor(m, ShiftAngleY(c, idx / c.nx, fy)));
    MulOneLeft(Phasor(m, ShiftAngleX(c, idx % c.nx, fx)));
  }

  /** Pixels of one row share the y-only correction; pixels of one column
      share the x-only correction. */
  lemma {:induction false} ShiftPhaseSeparable(m: Elementary, c: FieldContext.Context, i: nat, j: nat, sig: SigLocation)
    requires FieldContext.Valid(c)
    ensures sig.x == 0 && i / c.nx == j / c.nx ==> ShiftPhaseValue(m, c, i, sig) == ShiftPhaseValue(m, c, j, sig)
    ensures sig.y == 0 && i % c.nx == j % c.nx ==> ShiftPhaseValue(m, c, i, sig) == ShiftPhaseValue(m, c, j, sig)
  {
  }

  /** The demodulated output: the real part of each transformed sample times
      its shift-phase correction. */
  function Demodulated(m: Elementary, c: FieldContext.Context, shifted: seq<Complex>, sig: SigLocation): (r: seq<real>)
    requires FieldContext.Valid(c)
    ensures |r| == |shifted|
  {
    seq(|shifted|, i requires 0 <= i < |shifted| => Mul(shifted[i], ShiftPhaseValue(m, c, i, sig)).re)
  }

  /** The phase-correction loop of both crop sites: encoded[i] =
      (h_crop[i] * shift_phase).real() for every pixel. */
  method Demodulate(m: Elementary, c: FieldContext.Context, shifted: seq<Complex>, encoded: array<real>, sig: SigLocation)
    requires FieldContext.Valid(c)
    requires |shifted| == FieldContext.PixelCount(c) <= encoded.Length
    modifies encoded
    ensures encoded[..|shifted|] == Demodulated(m, c, shifted, sig)
    ensures encoded[|shifted|..] == old(encoded[|shifted|..])
  {
    var i := 0;
    while i < |shifted|
      invariant 0 <= i <= |shifted|
      invariant forall j :: 0 <= j < i ==> encoded[j] == Demodulated(m, c, shifted, sig)[j]
      invariant encoded[|shifted|..] == old(encoded[|shifted|..])
    {
      var shiftPhase := ShiftPhaseValue(m, c, i, sig);
      encoded[i] := Mul(shifted[i], shiftPhase).re;
      i := i + 1;
    }
  }

  /** The full-size transform both crop sites apply to h_crop in place. */
  function CropTransform(f: Fourier, c: FieldContext.Context, hCrop: seq<Complex>, dir: Direction): seq<Complex>
  {
    f.shift(hCrop, ShiftCall(c.nx, c.ny, dir, Some(true)))
  }

  /** encodeSideBand_CPU: crop, backward transform with centering, zero the
      encoded buffer, demodulate. */
  method EncodeSideBandCpu(m: Elementary, f: Fourier, c: FieldContext.Context,
                           field: array<Complex>, encoded: array<real>, box: CropBox, sig: SigLocation)
    requires FieldContext.Valid(c) && Lawful(f)
    requires field.Length >= FieldContext.PixelCount(c) && encoded.Length >= FieldContext.PixelCount(c)
    modifies encoded
    ensures var n := FieldContext.PixelCount(c);
      encoded[..n] == Demodulated(m, c, CropTransform(f, c, Cropped(field[..], c.nx, c.ny, box), OphBackward), sig)
    ensures encoded[FieldContext.PixelCount(c)..] == old(encoded[FieldContext.PixelCount(c)..])
  {
    var n := c.nx * c.ny;
    ghost var fieldBefore := field[..];
    var hCrop := Crop(field, c.nx, c.ny, box);
    var cropped := hCrop[..];
    var shifted := CropTransform(f, c, cropped, OphBackward);
    forall i | 0 <= i < n {
      encoded[i] := 0.0;
    }
    Demodulate(m, c, shifted, encoded, sig);
    assert field[..] == fieldBefore;
  }

  /** encodeSymmetrization: integer-halved crop bounds, then the same crop
      and demodulation; its in-place fftwShift passes the literal direction
      -1 rather than a named constant. */
  method EncodeSymmetrization(m: Elementary, f: Fourier, c: FieldContext.Context,
                              holo: array<Complex>, encoded: array<real>, sig: SigLocation)
    requires FieldContext.Valid(c) && Lawful(f)
    requires holo.Length >= FieldContext.PixelCount(c) && encoded.Length >= FieldContext.PixelCount(c)
    modifies encoded
    ensures var n := FieldContext.PixelCount(c);
      var box := SymmetrizationBox(c.nx, c.ny, sig);
      encoded[..n] == Demodulated(m, c, CropTransform(f, c, Cropped(holo[..], c.nx, c.ny, box), Literal(-1)), sig)
    ensures encoded[FieldContext.PixelCount(c)..] == old(encoded[FieldContext.PixelCount(c)..])
  {
    var box := SymmetrizationBox(c.nx, c.ny, sig);
    var hCrop := Crop(holo, c.nx, c.ny, box);
    var cropped := hCrop[..];
    var shifted := CropTransform(f, c, cropped, Literal(-1));
    Demodulate(m, c, shifted, encoded, sig);
  }
}
