/** Fresnel propagation by zero padding: the nX-by-nY field is placed in the
    middle of a zeroed 2nX-by-2nY buffer, transformed, multiplied by the
    Fresnel transfer function sampled on the padded frequency grid,
    transformed back, and the same middle block is read out. */
module Fresnel {
  import opened Complex
  import opened Grid
  import opened Fourier
  import opened Wrappers

  // ---------------------------------------------------------------------
  // Geometry of the centred block

  /** Does flat index p of the 2nX-wide padded buffer fall in the block of
      rows nY/2 .. nY + nY/2 - 1 and columns nX/2 .. nX + nX/2 - 1? */
  predicate InBlock(nX: nat, nY: nat, p: int)
  {
    nX > 0 && 0 <= p &&
    nY / 2 <= p / (2 * nX) < nY + nY / 2 && nX / 2 <= p % (2 * nX) < nX + nX / 2
  }

  /** Where sample k of the field goes in the padded buffer. */
  function BlockIndex(nX: nat, nY: nat, k: int): int
    requires nX > 0
  {
    Flat(nY / 2 + k / nX, nX / 2 + k % nX, 2 * nX)
  }

  /** Which sample of the field a block position holds. */
  function Rank(nX: nat, nY: nat, p: int): int
    requires nX > 0
  {
    Flat(p / (2 * nX) - nY / 2, p % (2 * nX) - nX / 2, nX)
  }

  /** Sample k lands inside the padded buffer, inside the block, and the
      block position gives k back. */
  lemma {:induction false} BlockIndexFacts(nX: nat, nY: nat, k: int)
    requires 0 <= k < nX * nY
    ensures nX > 0
    ensures 0 <= BlockIndex(nX, nY, k) < 4 * nX * nY
    ensures InBlock(nX, nY, BlockIndex(nX, nY, k))
    ensures Rank(nX, nY, BlockIndex(nX, nY, k)) == k
  {
    assert nX > 0;
    FlatBounds(k, nX, nY);
    var q, r := k / nX, k % nX;
    var row, col := nY / 2 + q, nX / 2 + r;
    var p := BlockIndex(nX, nY, k);
    assert p == Flat(row, col, 2 * nX);
    FlatSplit(row, col, 2 * nX);
    assert p / (2 * nX) == row && p % (2 * nX) == col;
    assert Rank(nX, nY, p) == Flat(q, r, nX);
    FlatInside(row, col, 2 * nX, 2 * nY);
    QuadrupleArea(nX, nY);
  }

  lemma QuadrupleArea(nX: nat, nY: nat)
    ensures (2 * nY) * (2 * nX) == 4 * nX * nY
  {
  }

  /** Every block position holds a sample of the field, and that sample is
      placed back at the same position. */
  lemma {:induction false} RankFacts(nX: nat, nY: nat, p: int)
    requires InBlock(nX, nY, p)
    ensures 0 <= Rank(nX, nY, p) < nX * nY
    ensures BlockIndex(nX, nY, Rank(nX, nY, p)) == p
  {
    var w := 2 * nX;
    var r, c := p / w - nY / 2, p % w - nX / 2;
    FlatInside(r, c, nX, nY);
    FlatSplit(r, c, nX);
    assert p == Flat(p / w, p % w, w);
  }

  /** Distinct samples go to distinct positions. */
  lemma {:induction false} BlockIndexInjective(nX: nat, nY: nat, k1: int, k2: int)
    requires 0 <= k1 < nX * nY && 0 <= k2 < nX * nY && k1 != k2
    ensures BlockIndex(nX, nY, k1) != BlockIndex(nX, nY, k2)
  {
    BlockIndexFacts(nX, nY, k1);
    BlockIndexFacts(nX, nY, k2);
  }

  // ---------------------------------------------------------------------
  // Padding and extraction

  /** The padded buffer at p: the field sample it holds inside the block,
      zero elsewhere. */
  function PadValue(field: seq<Complex>, nX: nat, nY: nat, p: int): Complex
    requires |field| == nX * nY
  {
    if InBlock(nX, nY, p) then
      RankFacts(nX, nY, p);
      field[Rank(nX, nY, p)]
    else Zero
  }

  /** The 4 nX nY padded buffer. */
  function Padded(field: seq<Complex>, nX: nat, nY: nat): (r: seq<Complex>)
    requires |field| == nX * nY
    ensures |r| == 4 * nX * nY
  {
    seq(4 * nX * nY, p requires 0 <= p < 4 * nX * nY => PadValue(field, nX, nY, p))
  }

  /** The middle block of a padded buffer, in row-major order. */
  function Extracted(buf: seq<Complex>, nX: nat, nY: nat): (r: seq<Complex>)
    requires |buf| == 4 * nX * nY
    ensures |r| == nX * nY
  {
    seq(nX * nY, k requires 0 <= k < nX * nY =>
      BlockIndexFacts(nX, nY, k);
      buf[BlockIndex(nX, nY, k)])
  }

  /** The padded buffer is zero outside the block and holds sample k at
      BlockIndex(k). */
  lemma {:induction false} PadPlacement(field: seq<Complex>, nX: nat, nY: nat)
    requires |field| == nX * nY
    ensures forall p :: 0 <= p < 4 * nX * nY && !InBlock(nX, nY, p) ==> Padded(field, nX, nY)[p] == Zero
    ensures forall k :: 0 < nX && 0 <= k < nX * nY ==>
      0 <= BlockIndex(nX, nY, k) < 4 * nX * nY && Padded(field, nX, nY)[BlockIndex(nX, nY, k)] == field[k]
  {
    forall k | 0 < nX && 0 <= k < nX * nY
      ensures 0 <= BlockIndex(nX, nY, k) < 4 * nX * nY && Padded(field, nX, nY)[BlockIndex(nX, nY, k)] == field[k]
    {
      BlockIndexFacts(nX, nY, k);
    }
  }

  /** Extracting the block of a padded field gives the field back. */
  lemma {:induction false} ExtractPadded(field: seq<Complex>, nX: nat, nY: nat)
    requires |field| == nX * nY
    ensures Extracted(Padded(field, nX, nY), nX, nY) == field
  {
    forall k | 0 <= k < nX * nY
      ensures Extracted(Padded(field, nX, nY), nX, nY)[k] == field[k]
    {
      BlockIndexFacts(nX, nY, k);
    }
  }

  /** Positions before row `row` of the padded buffer that the block does
      not contain, and the two column margins of row `row`. */
  lemma {:induction false} OutsideRows(nX: nat, nY: nat, p: int)
    requires nX > 0 && 0 <= p
    requires p < (nY / 2) * (2 * nX) || (nY + nY / 2) * (2 * nX) <= p
    ensures !InBlock(nX, nY, p)
  {
    var w := 2 * nX;
    var q := p / w;
    assert p == q * w + p % w && 0 <= p % w < w;
    if p < (nY / 2) * w {
      if q >= nY / 2 {
        MulMonotone(nY / 2, q, w);
      }
    } else if q < nY + nY / 2 {
      MulMonotone(q + 1, nY + nY / 2, w);
    }
  }

  /** Inside row `row` the padded position is (row, p - row * 2nX). */
  lemma {:induction false} InRow(nX: nat, row: nat, p: int)
    requires nX > 0 && row * (2 * nX) <= p < row * (2 * nX) + 2 * nX
    ensures p / (2 * nX) == row && p % (2 * nX) == p - row * (2 * nX)
  {
    FlatSplit(row, p - row * (2 * nX), 2 * nX);
  }

  /** The padding loop: a zeroed 4 nX nY buffer, filled row by row over the
      block with a running input counter. */
  method PadCentered(input: array<Complex>, nX: nat, nY: nat) returns (in2x: array<Complex>)
    requires nX * nY <= input.Length
    ensures fresh(in2x)
    ensures in2x[..] == Padded(input[..nX * nY], nX, nY)
  {
    ghost var field := input[..nX * nY];
    var size := 4 * nX * nY;
    in2x := new Complex[size](_ => Zero);
    if nX == 0 {
      return;
    }
    assert (2 * nY) * (2 * nX) == size;
    forall p | 0 <= p < size && p < (nY / 2) * (2 * nX) ensures !InBlock(nX, nY, p) {
      OutsideRows(nX, nY, p);
    }
    var idxIn := 0;
    var row := nY / 2;
    while row < nY + nY / 2
      invariant nY / 2 <= row <= nY + nY / 2
      invariant idxIn == (row - nY / 2) * nX
      invariant forall p :: 0 <= p < size ==>
        in2x[p] == if p < row * (2 * nX) then PadValue(field, nX, nY, p) else Zero
    {
      forall p | row * (2 * nX) <= p < row * (2 * nX) + 2 * nX
        ensures p / (2 * nX) == row && p % (2 * nX) == p - row * (2 * nX)
      {
        InRow(nX, row, p);
      }
      idxIn := PadRow(input, in2x, field, nX, nY, row, idxIn);
      assert (row + 1) * (2 * nX) == row * (2 * nX) + 2 * nX;
      assert (row + 1 - nY / 2) * nX == (row - nY / 2) * nX + nX;
      row := row + 1;
    }
    forall p | 0 <= p < size && row * (2 * nX) <= p ensures !InBlock(nX, nY, p) {
      OutsideRows(nX, nY, p);
    }
    assert in2x[..] == Padded(field, nX, nY);
  }

  /** One pass of the inner copy loop: the block columns of row `row`
      receive the next nX field samples, starting at idxIn0. */
  method PadRow(input: array<Complex>, in2x: array<Complex>, ghost field: seq<Complex>,
                nX: nat, nY: nat, row: nat, idxIn0: nat) returns (idxIn: nat)
    requires nX > 0 && in2x != input && in2x.Length == 4 * nX * nY
    requires nX * nY <= input.Length && field == input[..nX * nY]
    requires nY / 2 <= row < nY + nY / 2 && idxIn0 == (row - nY / 2) * nX
    modifies in2x
    ensures idxIn == idxIn0 + nX
    ensures forall p :: 0 <= p < in2x.Length ==>
      in2x[p] == if row * (2 * nX) + nX / 2 <= p < row * (2 * nX) + nX / 2 + nX
                 then PadValue(field, nX, nY, p) else old(in2x[p])
  {
    QuadrupleArea(nX, nY);
    idxIn := idxIn0;
    var col := nX / 2;
    while col < nX + nX / 2
      invariant nX / 2 <= col <= nX + nX / 2
      invariant idxIn == idxIn0 + (col - nX / 2)
      invariant forall p :: 0 <= p < in2x.Length ==>
        in2x[p] == if row * (2 * nX) + nX / 2 <= p < row * (2 * nX) + col
                   then PadValue(field, nX, nY, p) else old(in2x[p])
    {
      FlatInside(row, col, 2 * nX, 2 * nY);
      FlatSplit(row, col, 2 * nX);
      assert Rank(nX, nY, Flat(row, col, 2 * nX)) == idxIn;
      RankFacts(nX, nY, Flat(row, col, 2 * nX));
      DoubleWidth(row, nX);
      in2x[row * nX * 2 + col] := input[idxIn];
      idxIn := idxIn + 1;
      col := col + 1;
    }
  }

  /** The extraction loop: out[k] receives the block sample k, for
      k < nX nY; the rest of out is kept. */
  method ExtractCentered(temp3: array<Complex>, out: array<Complex>, nX: nat, nY: nat)
    requires temp3.Length == 4 * nX * nY && nX * nY <= out.Length && temp3 != out
    modifies out
    ensures out[..nX * nY] == Extracted(temp3[..], nX, nY)
    ensures out[nX * nY..] == old(out[nX * nY..])
  {
    if nX == 0 {
      return;
    }
    ghost var block := Extracted(temp3[..], nX, nY);
    var n := nX * nY;
    var idxOut := 0;
    var row := nY / 2;
    while row < nY + nY / 2
      invariant nY / 2 <= row <= nY + nY / 2
      invariant idxOut == (row - nY / 2) * nX
      invariant idxOut <= n
      invariant forall k :: 0 <= k < idxOut ==> out[k] == block[k]
      invariant out[n..] == old(out[n..])
    {
      var col := nX / 2;
      while col < nX + nX / 2
        invariant nX / 2 <= col <= nX + nX / 2
        invariant idxOut == (row - nY / 2) * nX + (col - nX / 2)
        invariant idxOut <= n
        invariant forall k :: 0 <= k < idxOut ==> out[k] == block[k]
        invariant out[n..] == old(out[n..])
      {
        FlatInside(row - nY / 2, col - nX / 2, nX, nY);
        FlatSplit(row - nY / 2, col - nX / 2, nX);
        DoubleWidth(row, nX);
        assert BlockIndex(nX, nY, idxOut) == row * nX * 2 + col;
        BlockIndexFacts(nX, nY, idxOut);
        assert block[idxOut] == temp3[row * nX * 2 + col];
        out[idxOut] := temp3[row * nX * 2 + col];
        idxOut := idxOut + 1;
        col := col + 1;
      }
      assert (row + 1 - nY / 2) * nX == (row - nY / 2) * nX + nX;
      row := row + 1;
    }
    assert idxOut == n;
  }

  // ---------------------------------------------------------------------
  // Frequency grid and transfer function

  /** fx at flat position k of the padded grid: column k mod 2nX, counted
      from -nX, over the padded width 2 nX ppX. */
  function FreqX(nX: nat, ppX: real, k: int): real
    requires nX > 0 && ppX != 0.0
  {
    (k % (2 * nX) - nX) as real / ((2 * nX) as real * ppX)
  }

  /** fy at flat position k: row k div 2nX, counted from -nY. */
  function FreqY(nX: nat, nY: nat, ppY: real, k: int): real
    requires nX > 0 && nY > 0 && ppY != 0.0
  {
    (k / (2 * nX) - nY) as real / ((2 * nY) as real * ppY)
  }

  /** The grid is centred: column nX of every row has fx = 0, the first column
      has fx = -1/(2 ppX), and neighbouring columns are 1/(2 nX ppX) apart;
      likewise for rows and fy. */
  lemma {:induction false} FrequencyGridCentred(nX: nat, nY: nat, ppX: real, ppY: real, row: nat, col: nat)
    requires nX > 0 && nY > 0 && ppX != 0.0 && ppY != 0.0
    requires row < 2 * nY && col + 1 < 2 * nX
    ensures FreqX(nX, ppX, Flat(row, nX, 2 * nX)) == 0.0
    ensures FreqX(nX, ppX, Flat(row, 0, 2 * nX)) == -1.0 / (2.0 * ppX)
    ensures FreqX(nX, ppX, Flat(row, col + 1, 2 * nX)) - FreqX(nX, ppX, Flat(row, col, 2 * nX))
      == 1.0 / ((2 * nX) as real * ppX)
    ensures FreqY(nX, nY, ppY, Flat(nY, col, 2 * nX)) == 0.0
  {
    FlatSplit(row, nX, 2 * nX);
    FlatSplit(row, 0, 2 * nX);
    FlatSplit(row, col, 2 * nX);
    FlatSplit(row, col + 1, 2 * nX);
    FlatSplit(nY, col, 2 * nX);
    var d := (2 * nX) as real * ppX;
    assert d != 0.0;
    assert (-(nX as real)) / d == -1.0 / (2.0 * ppX) by {
      assert d == 2.0 * ppX * nX as real;
    }
    assert ((col + 1 - nX) as real) / d - ((col - nX) as real) / d == 1.0 / d;
  }

  /** The frequency loop: idxFy from -nY to nY - 1, idxFx from -nX to
      nX - 1, one flat counter for both grids. */
  method FrequencyGrid(nX: nat, nY: nat, ppX: real, ppY: real) returns (fx: array<real>, fy: array<real>)
    requires ppX != 0.0 && ppY != 0.0
    ensures fresh(fx) && fresh(fy)
    ensures fx.Length == fy.Length == 4 * nX * nY
    ensures nX > 0 && nY > 0 ==> forall k :: 0 <= k < fx.Length ==>
      fx[k] == FreqX(nX, ppX, k) && fy[k] == FreqY(nX, nY, ppY, k)
  {
    fx := new real[4 * nX * nY];
    fy := new real[4 * nX * nY];
    if nX == 0 || nY == 0 {
      return;
    }
    var size := 4 * nX * nY;
    assert (2 * nY) * (2 * nX) == size;
    var i := 0;
    var idxFy := -(nY as int);
    while idxFy < nY
      invariant -(nY as int) <= idxFy <= nY
      invariant i == (idxFy + nY) * (2 * nX) <= size
      invariant forall k :: 0 <= k < i ==> fx[k] == FreqX(nX, ppX, k) && fy[k] == FreqY(nX, nY, ppY, k)
    {
      assert (idxFy + 1 + nY) * (2 * nX) == i + 2 * nX;
      MulMonotone(idxFy + 1 + nY, 2 * nY, 2 * nX);
      i := FillFrequencyRow(nX, nY, ppX, ppY, fx, fy, idxFy, i);
      idxFy := idxFy + 1;
    }
  }

  /** One pass of the inner frequency loop: the row idxFy, starting at flat
      index i0, gets its 2 nX samples. */
  method FillFrequencyRow(nX: nat, nY: nat, ppX: real, ppY: real, fx: array<real>, fy: array<real>,
                          idxFy: int, i0: nat) returns (i: nat)
    requires nX > 0 && nY > 0 && ppX != 0.0 && ppY != 0.0
    requires fx != fy && fx.Length == fy.Length
    requires -(nY as int) <= idxFy < nY
    requires i0 == (idxFy + nY) * (2 * nX) && i0 + 2 * nX <= fx.Length
    modifies fx, fy
    ensures i == i0 + 2 * nX
    ensures forall k :: 0 <= k < i0 ==> fx[k] == old(fx[k]) && fy[k] == old(fy[k])
    ensures forall k :: i0 <= k < i ==> fx[k] == FreqX(nX, ppX, k) && fy[k] == FreqY(nX, nY, ppY, k)
  {
    i := i0;
    var idxFx := -(nX as int);
    while idxFx < nX
      invariant -(nX as int) <= idxFx <= nX
      invariant i == i0 + (idxFx + nX)
      invariant forall k :: 0 <= k < i0 ==> fx[k] == old(fx[k]) && fy[k] == old(fy[k])
      invariant forall k :: i0 <= k < i ==> fx[k] == FreqX(nX, ppX, k) && fy[k] == FreqY(nX, nY, ppY, k)
    {
      FlatSplit(idxFy + nY, idxFx + nX, 2 * nX);
      assert i % (2 * nX) - nX == idxFx && i / (2 * nX) - nY == idxFy;
      fx[i] := idxFx as real / ((2 * nX) as real * ppX);
      fy[i] := idxFy as real / ((2 * nY) as real * ppY);
      i := i + 1;
      idxFx := idxFx + 1;
    }
  }

  /** sqrt(1/lambda^2 - fx^2 - fy^2). */
  function SqrtPart(m: Elementary, lambda: real, fx: real, fy: real): real
    requires lambda != 0.0
  {
    m.sqrt(1.0 / (lambda * lambda) - fx * fx - fy * fy)
  }

  /** The phase 2 pi d sqrtPart of the transfer function. */
  function PropPhase(distance: real, sqrtPart: real): real
  {
    2.0 * Pi * distance * sqrtPart
  }

  /** exp(i 2 pi d sqrt(1/lambda^2 - fx^2 - fy^2)). */
  function Transfer(m: Elementary, lambda: real, distance: real, fx: real, fy: real): Complex
    requires lambda != 0.0
  {
    Exp(m, Complex(0.0, PropPhase(distance, SqrtPart(m, lambda, fx, fy))))
  }

  /** At distance zero the transfer function is 1 at every frequency, given
      exp(0) = 1, cos(0) = 1, sin(0) = 0. */
  lemma TransferAtZeroDistance(m: Elementary, lambda: real, fx: real, fy: real)
    requires lambda != 0.0 && ZeroLaws(m)
    ensures Transfer(m, lambda, 0.0, fx, fy) == One
  {
  }

  /** The propagation parameters of one call. */
  datatype Optics = Optics(nX: nat, nY: nat, ppX: real, ppY: real, lambda: real, distance: real)

  predicate Divisible(o: Optics)
  {
    o.ppX != 0.0 && o.ppY != 0.0 && o.lambda != 0.0
  }

  function Area(o: Optics): nat
  {
    4 * o.nX * o.nY
  }

  /** The spectrum multiplied by the transfer function at every grid point. */
  function Propagated(m: Elementary, o: Optics, spectrum: seq<Complex>): (r: seq<Complex>)
    requires Divisible(o) && |spectrum| == Area(o)
    ensures |r| == |spectrum|
  {
    if o.nX == 0 || o.nY == 0 then spectrum
    else
      seq(|spectrum|, k requires 0 <= k < |spectrum| =>
        Mul(spectrum[k], Transfer(m, o.lambda, o.distance, FreqX(o.nX, o.ppX, k), FreqY(o.nX, o.nY, o.ppY, k))))
  }

  /** At distance zero the propagation step leaves the spectrum unchanged. */
  lemma {:induction false} PropagatedAtZeroDistance(m: Elementary, o: Optics, spectrum: seq<Complex>)
    requires Divisible(o) && |spectrum| == Area(o) && ZeroLaws(m) && o.distance == 0.0
    ensures Propagated(m, o, spectrum) == spectrum
  {
    if o.nX > 0 && o.nY > 0 {
      forall k | 0 <= k < |spectrum| ensures Propagated(m, o, spectrum)[k] == spectrum[k] {
        TransferAtZeroDistance(m, o.lambda, FreqX(o.nX, o.ppX, k), FreqY(o.nX, o.nY, o.ppY, k));
        MulOneRight(spectrum[k]);
      }
    }
  }

  /** One step of the transfer loop: prop = (0, 2 pi d) scaled by sqrtPart
      in its imaginary part, then temp1[i] * exp(prop). */
  method TransferSample(m: Elementary, lambda: real, distance: real, sample: Complex, fx: real, fy: real)
    returns (r: Complex)
    requires lambda != 0.0
    ensures r == Mul(sample, Transfer(m, lambda, distance, fx, fy))
  {
    var sqrtPart := SqrtPart(m, lambda, fx, fy);
    var prop := Complex(0.0, 2.0 * Pi * distance);
    prop := Complex(prop.re, prop.im * sqrtPart);
    assert prop == Complex(0.0, PropPhase(distance, sqrtPart));
    r := Mul(sample, Exp(m, prop));
  }

  /** The transfer loop: temp2[i] = temp1[i] * exp(prop[i]) over the
      whole padded grid. */
  method ApplyTransfer(m: Elementary, o: Optics, temp1: array<Complex>) returns (temp2: array<Complex>)
    requires Divisible(o) && temp1.Length == Area(o)
    ensures fresh(temp2)
    ensures temp2[..] == Propagated(m, o, temp1[..])
  {
    var fx, fy := FrequencyGrid(o.nX, o.nY, o.ppX, o.ppY);
    var size := Area(o);
    temp2 := new Complex[size](_ => Zero);
    if o.nX == 0 || o.nY == 0 {
      assert size == 0;
      return;
    }
    TransferLoop(m, o, temp1, fx, fy, temp2);
  }

  /** The loop of ApplyTransfer over a grid the frequency loop filled. */
  method TransferLoop(m: Elementary, o: Optics, temp1: array<Complex>, fx: array<real>, fy: array<real>,
                      temp2: array<Complex>)
    requires Divisible(o) && o.nX > 0 && o.nY > 0
    requires temp1.Length == Area(o) && temp2.Length == Area(o) && fx.Length == Area(o) && fy.Length == Area(o)
    requires forall k :: 0 <= k < fx.Length ==> fx[k] == FreqX(o.nX, o.ppX, k) && fy[k] == FreqY(o.nX, o.nY, o.ppY, k)
    requires temp2 != temp1
    modifies temp2
    ensures temp2[..] == Propagated(m, o, temp1[..])
  {
    ghost var target := Propagated(m, o, temp1[..]);
    var i := 0;
    while i < temp2.Length
      invariant 0 <= i <= temp2.Length
      invariant forall k :: 0 <= k < i ==> temp2[k] == target[k]
    {
      temp2[i] := TransferSample(m, o.lambda, o.distance, temp1[i], fx[i], fy[i]);
      i := i + 1;
    }
  }

  // ---------------------------------------------------------------------
  // The whole propagation

  /** temp1 after the forward fftwShift: the shifted samples first, then the
      zeros that `new Complex<Real>[]` put in the part the shift does not
      fill. */
  function ZeroPadded(shifted: seq<Complex>, total: nat): (r: seq<Complex>)
    requires |shifted| <= total
    ensures |r| == total && r[..|shifted|] == shifted
    ensures forall i :: |shifted| <= i < total ==> r[i] == Zero
  {
    shifted + seq(total - |shifted|, _ => Zero)
  }

  /** The result of one propagation, given the two fftwShift calls. */
  function FresnelOutput(m: Elementary, f: Fourier, o: Optics, field: seq<Complex>,
                         fwd: ShiftCall, bwd: ShiftCall): (r: seq<Complex>)
    requires Lawful(f) && Divisible(o) && |field| == o.nX * o.nY
    requires fwd.width * fwd.height <= Area(o) && bwd.width * bwd.height == Area(o)
    ensures |r| == o.nX * o.nY
  {
    var temp1 := ZeroPadded(f.shift(Padded(field, o.nX, o.nY), fwd), Area(o));
    Extracted(f.shift(Propagated(m, o, temp1), bwd), o.nX, o.nY)
  }

  /** At distance zero the propagation is the forward-backward transform pair
      alone, read out of the middle block. */
  lemma {:induction false} FresnelAtZeroDistance(m: Elementary, f: Fourier, o: Optics, field: seq<Complex>,
                                                 fwd: ShiftCall, bwd: ShiftCall)
    requires Lawful(f) && Divisible(o) && |field| == o.nX * o.nY && ZeroLaws(m) && o.distance == 0.0
    requires fwd.width * fwd.height <= Area(o) && bwd.width * bwd.height == Area(o)
    ensures FresnelOutput(m, f, o, field, fwd, bwd) ==
      Extracted(f.shift(ZeroPadded(f.shift(Padded(field, o.nX, o.nY), fwd), Area(o)), bwd), o.nX, o.nY)
  {
    PropagatedAtZeroDistance(m, o, ZeroPadded(f.shift(Padded(field, o.nX, o.nY), fwd), Area(o)));
  }

  /** The transfer step keeps the unfilled part of temp1 at zero, whatever
      the distance: what the backward shift reads there is zero. */
  lemma {:induction false} UnfilledStaysZero(m: Elementary, o: Optics, shifted: seq<Complex>)
    requires Divisible(o) && |shifted| <= Area(o)
    ensures forall i :: |shifted| <= i < Area(o) ==> Propagated(m, o, ZeroPadded(shifted, Area(o)))[i] == Zero
  {
    var temp1 := ZeroPadded(shifted, Area(o));
    forall i | |shifted| <= i < Area(o)
      ensures Propagated(m, o, temp1)[i] == Zero
    {
      assert temp1[i] == Zero;
    }
  }

  /** The body shared by both fresnelPropagation overloads, parameterised by
      their fftwShift calls. The forward shift fills the first
      fwd.width * fwd.height samples of temp1; the rest holds the zeros of
      its allocation. The input is fully read before out is written, so in
      and out may be the same buffer. */
  method Propagate(m: Elementary, f: Fourier, o: Optics, input: array<Complex>, out: array<Complex>,
                   fwd: ShiftCall, bwd: ShiftCall)
    requires Lawful(f) && Divisible(o)
    requires o.nX * o.nY <= input.Length && o.nX * o.nY <= out.Length
    requires fwd.width * fwd.height <= Area(o) && bwd.width * bwd.height == Area(o)
    modifies out
    ensures out[..o.nX * o.nY] == FresnelOutput(m, f, o, old(input[..o.nX * o.nY]), fwd, bwd)
    ensures out[o.nX * o.nY..] == old(out[o.nX * o.nY..])
  {
    var n := o.nX * o.nY;
    ghost var field := input[..n];
    var in2x := PadCentered(input, o.nX, o.nY);
    var back := ShiftedTransfer(m, f, o, in2x[..], fwd, bwd);
    var temp3 := new Complex[Area(o)](i requires 0 <= i < Area(o) => back[i]);
    assert temp3[..] == back;
    ExtractCentered(temp3, out, o.nX, o.nY);
    assert out[..n] == Extracted(back, o.nX, o.nY);
    assert out[..n] == FresnelOutput(m, f, o, field, fwd, bwd);
  }

  /** From the padded field to the back-shifted result: the forward shift
      into the zero-initialised temp1, the transfer loop into temp2, and the
      backward shift. */
  method ShiftedTransfer(m: Elementary, f: Fourier, o: Optics, padded: seq<Complex>, fwd: ShiftCall, bwd: ShiftCall)
    returns (back: seq<Complex>)
    requires Lawful(f) && Divisible(o) && |padded| == Area(o)
    requires fwd.width * fwd.height <= Area(o) && bwd.width * bwd.height == Area(o)
    ensures |back| == Area(o)
    ensures back == f.shift(Propagated(m, o, ZeroPadded(f.shift(padded, fwd), Area(o))), bwd)
  {
    var shifted := f.shift(padded, fwd);
    var temp1 := new Complex[Area(o)](_ => Zero);
    forall i | 0 <= i < |shifted| {
      temp1[i] := shifted[i];
    }
    assert temp1[..] == ZeroPadded(shifted, Area(o));
    var temp2 := ApplyTransfer(m, o, temp1);
    back := f.shift(temp2[..], bwd);
  }

  /** fresnelPropagation(OphConfig, in, out, distance): its forward
      fftwShift is given Nx, Ny instead of the padded 2Nx, 2Ny, so only a
      quarter of temp1 is written; the other three quarters stay zero. */
  method PropagateWithConfig(m: Elementary, f: Fourier, o: Optics, input: array<Complex>, out: array<Complex>)
    requires Lawful(f) && Divisible(o)
    requires o.nX * o.nY <= input.Length && o.nX * o.nY <= out.Length
    modifies out
    ensures out[..o.nX * o.nY] == FresnelOutput(m, f, o, old(input[..o.nX * o.nY]),
      ConfigForward(o), PaddedShift(o, OphBackward, None))
    ensures out[o.nX * o.nY..] == old(out[o.nX * o.nY..])
  {
    Propagate(m, f, o, input, out, ConfigForward(o), PaddedShift(o, OphBackward, None));
  }

  /** The forward shift call of the OphConfig overload. */
  function ConfigForward(o: Optics): (c: ShiftCall)
    ensures c.width * c.height + 3 * o.nX * o.nY == Area(o)
  {
    ShiftCall(o.nX, o.nY, OphForward, None)
  }

  /** A shift call over the whole padded buffer. */
  function PaddedShift(o: Optics, dir: Direction, normalized: Option<bool>): (c: ShiftCall)
    ensures c.width * c.height == Area(o)
  {
    ShiftCall(2 * o.nX, 2 * o.nY, dir, normalized)
  }

  /** fresnelPropagation(in, out, distance): both shifts cover the padded
      buffer and are not normalised, so nothing unwritten is read. */
  method PropagateWithContext(m: Elementary, f: Fourier, o: Optics, input: array<Complex>, out: array<Complex>)
    requires Lawful(f) && Divisible(o)
    requires o.nX * o.nY <= input.Length && o.nX * o.nY <= out.Length
    modifies out
    ensures out[..o.nX * o.nY] == FresnelOutput(m, f, o, old(input[..o.nX * o.nY]),
      PaddedShift(o, OphForward, Some(false)), PaddedShift(o, OphBackward, Some(false)))
    ensures out[o.nX * o.nY..] == old(out[o.nX * o.nY..])
  {
    Propagate(m, f, o, input, out, PaddedShift(o, OphForward, Some(false)), PaddedShift(o, OphBackward, Some(false)));
  }
}
