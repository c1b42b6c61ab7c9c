/** The carrier wave of waveCarry: a spatial-frequency grid with steps
    1/(ppx nx) and 1/(ppy ny), a linear phase d tan(ax) fx + d tan(ay) fy per
    sample, and an in-place multiplication of the field by exp(i phase).
    The grid loop visits 2 floor(ny/2) rows of 2 floor(nx/2) columns, so
    for an odd dimension the tail of the nx * ny grid buffers is never
    written and the multiplication reads whatever they held. */
module Carrier {
  import opened Complex
  import opened Grid
  import FieldContext

  /** Columns visited by idxFx = -nx/2 .. nx/2 - 1. */
  function GridWidth(n: nat): nat
  {
    2 * (n / 2)
  }

  /** Number of grid samples the loop writes. */
  function GridCount(c: FieldContext.Context): nat
  {
    GridWidth(c.ny) * GridWidth(c.nx)
  }

  function Dfx(c: FieldContext.Context): real
    requires FieldContext.Valid(c)
  {
    1.0 / c.ppx / (c.nx as real)
  }

  function Dfy(c: FieldContext.Context): real
    requires FieldContext.Valid(c)
  {
    1.0 / c.ppy / (c.ny as real)
  }

  /** fx of grid sample i: idxFx = column - nx/2. */
  function CarrierFx(c: FieldContext.Context, i: int): real
    requires FieldContext.Valid(c) && GridWidth(c.nx) > 0
  {
    ((i % GridWidth(c.nx)) - c.nx / 2) as real * Dfx(c)
  }

  /** fy of grid sample i: idxFy = ny/2 - row, counting down. */
  function CarrierFy(c: FieldContext.Context, i: int): real
    requires FieldContext.Valid(c) && GridWidth(c.nx) > 0
  {
    (c.ny / 2 - i / GridWidth(c.nx)) as real * Dfy(c)
  }

  /** fx and fy are nx * ny buffers whose first GridCount entries hold the
      carrier grid; the rest is unconstrained. */
  ghost predicate GridAgrees(c: FieldContext.Context, fx: seq<real>, fy: seq<real>)
    requires FieldContext.Valid(c)
  {
    |fx| == FieldContext.PixelCount(c) && |fy| == FieldContext.PixelCount(c) &&
    GridCount(c) <= FieldContext.PixelCount(c) &&
    (GridCount(c) > 0 ==> (GridWidth(c.nx) > 0 &&
      forall i :: 0 <= i < GridCount(c) ==> fx[i] == CarrierFx(c, i) && fy[i] == CarrierFy(c, i)))
  }

  /** The carrier phase d tan(ax) fx + d tan(ay) fy. */
  function CarrierPhase(m: Elementary, d: real, ax: real, ay: real, fx: real, fy: real): real
  {
    d * m.tan(ax) * fx + d * m.tan(ay) * fy
  }

  /** The field after multiplication by the carrier sampled on fx, fy. */
  function Carried(m: Elementary, h: seq<Complex>, d: real, ax: real, ay: real, fx: seq<real>, fy: seq<real>): (r: seq<Complex>)
    requires |fx| == |h| && |fy| == |h|
    ensures |r| == |h|
  {
    seq(|h|, i requires 0 <= i < |h| => Mul(h[i], Phasor(m, CarrierPhase(m, d, ax, ay, fx[i], fy[i]))))
  }

  lemma {:induction false} HalfBounds(n: nat)
    ensures GridWidth(n) <= n
    ensures GridWidth(n) == n <==> n % 2 == 0
  {
  }

  /** The grid covers every pixel exactly when both pixel counts are even;
      it never covers more. */
  lemma {:induction false} GridCoversField(c: FieldContext.Context)
    requires FieldContext.Valid(c)
    ensures GridCount(c) <= FieldContext.PixelCount(c)
    ensures GridCount(c) == FieldContext.PixelCount(c) <==> c.nx % 2 == 0 && c.ny % 2 == 0
  {
    HalfBounds(c.nx);
    HalfBounds(c.ny);
    var w, h := GridWidth(c.nx), GridWidth(c.ny);
    assert FieldContext.PixelCount(c) == c.nx * c.ny;
    assert GridCount(c) == h * w;
    ProductBounds(h, c.ny, w, c.nx);
  }

  /** A product of two factors each at most its bound is at most the
      product of the bounds, and equal to it only when both factors are. */
  lemma {:induction false} ProductBounds(h: nat, ny: nat, w: nat, nx: nat)
    requires h <= ny && w <= nx && 0 < nx && 0 < ny
    ensures h * w <= nx * ny
    ensures h * w == nx * ny <==> h == ny && w == nx
  {
    if w > 0 {
      MulMonotone(h, ny, w);
    }
    assert ny * w <= ny * nx by { MulMonotone(w, nx, ny); }
    if w < nx {
      MulMonotone(w + 1, nx, ny);
      assert h * w < nx * ny;
    } else if h < ny {
      MulMonotone(h + 1, ny, w);
      assert h * w < ny * w;
    }
  }

  /** With both pixel counts even the grid buffers are fully determined. */
  lemma {:induction false} EvenGridDetermined(c: FieldContext.Context, fx: seq<real>, fy: seq<real>, gx: seq<real>, gy: seq<real>)
    requires FieldContext.Valid(c) && c.nx % 2 == 0 && c.ny % 2 == 0
    requires GridAgrees(c, fx, fy) && GridAgrees(c, gx, gy)
    ensures fx == gx && fy == gy
  {
    GridCoversField(c);
    assert FieldContext.PixelCount(c) == c.nx * c.ny;
    assert GridCount(c) > 0;
  }

  /** The grid starts at (-(nx/2) dfx, (ny/2) dfy), the column nx/2 has
      fx = 0, the row ny/2 has fy = 0, and neighbouring columns differ by
      dfx. */
  lemma {:induction false} CarrierGridCentred(c: FieldContext.Context, row: int, col: int)
    requires FieldContext.Valid(c) && c.nx >= 2 && c.ny >= 2
    requires 0 <= row < GridWidth(c.ny) && 0 <= col && col + 1 < GridWidth(c.nx)
    ensures CarrierFx(c, 0) == -((c.nx / 2) as real) * Dfx(c)
    ensures CarrierFy(c, 0) == (c.ny / 2) as real * Dfy(c)
    ensures CarrierFx(c, Flat(row, c.nx / 2, GridWidth(c.nx))) == 0.0
    ensures CarrierFy(c, Flat(c.ny / 2, col, GridWidth(c.nx))) == 0.0
    ensures CarrierFx(c, Flat(row, col + 1, GridWidth(c.nx))) - CarrierFx(c, Flat(row, col, GridWidth(c.nx))) == Dfx(c)
  {
    var w := GridWidth(c.nx);
    FlatSplit(row, c.nx / 2, w);
    FlatSplit(c.ny / 2, col, w);
    FlatSplit(row, col, w);
    FlatSplit(row, col + 1, w);
    assert ((col + 1 - c.nx / 2) as real) * Dfx(c) - ((col - c.nx / 2) as real) * Dfx(c) == Dfx(c);
  }

  /** At distance zero the carrier is 1 everywhere, whatever the grid. */
  lemma {:induction false} CarrierAtZeroDistance(m: Elementary, h: seq<Complex>, ax: real, ay: real, fx: seq<real>, fy: seq<real>)
    requires ZeroLaws(m) && |fx| == |h| && |fy| == |h|
    ensures Carried(m, h, 0.0, ax, ay, fx, fy) == h
  {
    forall i | 0 <= i < |h| ensures Carried(m, h, 0.0, ax, ay, fx, fy)[i] == h[i] {
      assert CarrierPhase(m, 0.0, ax, ay, fx[i], fy[i]) == 0.0;
      PhasorAtZero(m);
      MulOneRight(h[i]);
    }
  }

  /** The grid loop: idxFy from ny/2 down to -(ny/2) + 1, idxFx from
      -(nx/2) to nx/2 - 1, one flat counter i; fx and fy are nx * ny
      buffers allocated without initialisation. */
  method CarrierGrid(c: FieldContext.Context) returns (fx: array<real>, fy: array<real>)
    requires FieldContext.Valid(c)
    ensures fresh(fx) && fresh(fy)
    ensures GridAgrees(c, fx[..], fy[..])
  {
    var n := c.nx * c.ny;
    fx := new real[n];
    fy := new real[n];
    GridCoversField(c);
    if GridWidth(c.ny) * GridWidth(c.nx) == 0 {
      return;
    }
    FillGrid(c, fx, fy);
  }

  /** The two grid loops over buffers that hold the whole grid. */
  method FillGrid(c: FieldContext.Context, fx: array<real>, fy: array<real>)
    requires FieldContext.Valid(c) && GridWidth(c.nx) > 0 && GridWidth(c.ny) > 0
    requires fx != fy && fx.Length == fy.Length && GridCount(c) <= fx.Length
    modifies fx, fy
    ensures forall k :: 0 <= k < GridCount(c) ==> fx[k] == CarrierFx(c, k) && fy[k] == CarrierFy(c, k)
  {
    var w, h := GridWidth(c.nx), GridWidth(c.ny);
    var i := 0;
    var idxFy: int := c.ny / 2;
    ghost var row := 0;
    while idxFy > -(c.ny / 2)
      invariant -(c.ny / 2) <= idxFy <= c.ny / 2 && row == c.ny / 2 - idxFy
      invariant i == row * w <= h * w
      invariant forall k :: 0 <= k < i ==> fx[k] == CarrierFx(c, k) && fy[k] == CarrierFy(c, k)
    {
      NextRow(row, h, w);
      i := FillGridRow(c, fx, fy, idxFy, i);
      idxFy := idxFy - 1;
      row := row + 1;
    }
  }

  /** The next row starts w samples further on, still inside the grid. */
  lemma {:induction false} NextRow(row: int, h: int, w: int)
    requires 0 <= row < h && 0 < w
    ensures (row + 1) * w == row * w + w && (row + 1) * w <= h * w
  {
    MulMonotone(row + 1, h, w);
  }

  /** One pass of the inner grid loop: the row idxFy, starting at flat
      index i0, gets its GridWidth(nx) samples. */
  method FillGridRow(c: FieldContext.Context, fx: array<real>, fy: array<real>, idxFy: int, i0: nat) returns (i: nat)
    requires FieldContext.Valid(c) && GridWidth(c.nx) > 0
    requires fx != fy && fx.Length == fy.Length
    requires -(c.ny / 2) < idxFy <= c.ny / 2
    requires i0 == (c.ny / 2 - idxFy) * GridWidth(c.nx) && i0 + GridWidth(c.nx) <= fx.Length
    modifies fx, fy
    ensures i == i0 + GridWidth(c.nx)
    ensures forall k :: 0 <= k < i0 ==> fx[k] == old(fx[k]) && fy[k] == old(fy[k])
    ensures forall k :: i0 <= k < i ==> fx[k] == CarrierFx(c, k) && fy[k] == CarrierFy(c, k)
  {
    var w := GridWidth(c.nx);
    var row := c.ny / 2 - idxFy;
    var dfx := 1.0 / c.ppx / (c.nx as real);
    var dfy := 1.0 / c.ppy / (c.ny as real);
    i := i0;
    var idxFx: int := -(c.nx / 2);
    while idxFx < c.nx / 2
      invariant -(c.nx / 2) <= idxFx <= c.nx / 2
      invariant i == i0 + (idxFx + c.nx / 2)
      invariant forall k :: 0 <= k < i0 ==> fx[k] == old(fx[k]) && fy[k] == old(fy[k])
      invariant forall k :: i0 <= k < i ==> fx[k] == CarrierFx(c, k) && fy[k] == CarrierFy(c, k)
    {
      FlatSplit(row, idxFx + c.nx / 2, w);
      assert i % w - c.nx / 2 == idxFx && c.ny / 2 - i / w == idxFy;
      fx[i] := idxFx as real * dfx;
      fy[i] := idxFy as real * dfy;
      i := i + 1;
      idxFx := idxFx + 1;
    }
  }

  /** The multiplication loop of waveCarry over all nx * ny pixels. */
  method ModulateCarrier(m: Elementary, c: FieldContext.Context, complexH: array<Complex>, ax: real, ay: real, d: real)
    requires FieldContext.Valid(c) && complexH.Length == FieldContext.PixelCount(c)
    modifies complexH
    ensures exists fx: seq<real>, fy: seq<real> :: (GridAgrees(c, fx, fy) &&
      complexH[..] == Carried(m, old(complexH[..]), d, ax, ay, fx, fy))
  {
    var fx, fy := CarrierGrid(c);
    var n := c.nx * c.ny;
    ghost var h0 := complexH[..];
    ghost var grid := (fx[..], fy[..]);
    var i := 0;
    while i < n
      invariant 0 <= i <= n
      invariant (fx[..], fy[..]) == grid
      invariant forall k :: 0 <= k < n ==>
        complexH[k] == if k < i then Carried(m, h0, d, ax, ay, grid.0, grid.1)[k] else h0[k]
    {
      var carrier := Complex(0.0, CarrierPhase(m, d, ax, ay, fx[i], fy[i]));
      complexH[i] := Mul(complexH[i], Exp(m, carrier));
      i := i + 1;
    }
    assert complexH[..] == Carried(m, h0, d, ax, ay, grid.0, grid.1);
  }
}
