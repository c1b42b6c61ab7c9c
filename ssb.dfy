/** Single-side-band encoding: forward transform with centering, zero one
    half-plane of the spectrum, backward transform, take the real part,
    normalise. The half-plane zeroing is the part modelled exactly. */
module SingleSideBand {
  import opened Complex
  import opened Grid
  import opened Fourier
  import opened Wrappers

  /** The passband selector; any value other than the four named ones
      leaves the spectrum untouched. */
  datatype Passband = SsbLeft | SsbRight | SsbTop | SsbBottom | Unrecognized

  /** Is spectrum sample p of an nx-wide, size-sample buffer zeroed for this
      passband? Left and right work by column, top and bottom by linear
      index. */
  predicate Zeroed(pb: Passband, nx: nat, size: nat, p: int)
  {
    match pb
    case SsbLeft => nx > 0 && p % nx >= nx / 2
    case SsbRight => nx > 0 && p % nx < nx / 2
    case SsbTop => p >= size / 2
    case SsbBottom => p < size / 2
    case Unrecognized => false
  }

  /** The spectrum after the passband switch. */
  function Masked(spectrum: seq<Complex>, nx: nat, ny: nat, pb: Passband): (r: seq<Complex>)
    requires |spectrum| == nx * ny
    ensures |r| == |spectrum|
  {
    seq(|spectrum|, p requires 0 <= p < |spectrum| =>
      if Zeroed(pb, nx, |spectrum|, p) then Zero else spectrum[p])
  }

  /** SSB_LEFT zeroes columns j >= X/2 of every row and keeps the others;
      SSB_RIGHT zeroes columns j < X/2 and keeps the others. */
  lemma {:induction false} MaskedColumns(spectrum: seq<Complex>, nx: nat, ny: nat, row: int, col: int)
    requires |spectrum| == nx * ny
    requires 0 <= row < ny && 0 <= col < nx
    ensures 0 <= Flat(row, col, nx) < |spectrum|
    ensures Masked(spectrum, nx, ny, SsbLeft)[Flat(row, col, nx)] ==
      if col >= nx / 2 then Zero else spectrum[Flat(row, col, nx)]
    ensures Masked(spectrum, nx, ny, SsbRight)[Flat(row, col, nx)] ==
      if col < nx / 2 then Zero else spectrum[Flat(row, col, nx)]
  {
    FlatInside(row, col, nx, ny);
    FlatSplit(row, col, nx);
  }

  /** SSB_TOP zeroes the linear indices >= size/2, SSB_BOTTOM those < size/2;
      an unrecognised passband changes nothing. */
  lemma {:induction false} MaskedHalves(spectrum: seq<Complex>, nx: nat, ny: nat, p: int)
    requires |spectrum| == nx * ny && 0 <= p < |spectrum|
    ensures Masked(spectrum, nx, ny, SsbTop)[p] == if p >= |spectrum| / 2 then Zero else spectrum[p]
    ensures Masked(spectrum, nx, ny, SsbBottom)[p] == if p < |spectrum| / 2 then Zero else spectrum[p]
    ensures Masked(spectrum, nx, ny, Unrecognized) == spectrum
  {
  }

  /** Opposite passbands are complementary: every sample is zeroed by exactly
      one of LEFT and RIGHT, and by exactly one of TOP and BOTTOM, so masking
      with both of a pair clears the whole spectrum. */
  lemma {:induction false} OppositeBandsClearAll(spectrum: seq<Complex>, nx: nat, ny: nat)
    requires |spectrum| == nx * ny
    ensures forall p :: 0 <= p < |spectrum| ==>
      (Zeroed(SsbLeft, nx, |spectrum|, p) <==> !Zeroed(SsbRight, nx, |spectrum|, p))
    ensures forall p :: 0 <= p < |spectrum| ==>
      (Zeroed(SsbTop, nx, |spectrum|, p) <==> !Zeroed(SsbBottom, nx, |spectrum|, p))
    ensures Masked(Masked(spectrum, nx, ny, SsbLeft), nx, ny, SsbRight) == seq(|spectrum|, _ => Zero)
    ensures Masked(Masked(spectrum, nx, ny, SsbTop), nx, ny, SsbBottom) == seq(|spectrum|, _ => Zero)
  {
  }

  /** Is column p % nx of the buffer in [lo, hi)? */
  predicate InColumns(p: int, nx: nat, lo: nat, hi: nat)
  {
    nx > 0 && lo <= p % nx < hi
  }

  /** Inside row i the column is the offset from the row start. */
  lemma {:induction false} RowOffset(i: nat, nx: nat, p: int)
    requires 0 < nx && i * nx <= p < i * nx + nx
    ensures p % nx == p - i * nx
  {
    FlatSplit(i, p - i * nx, nx);
  }

  /** Zero columns lo .. hi-1 of every row of an nx-wide, ny-high buffer. */
  method ZeroColumns(spectrum: array<Complex>, nx: nat, ny: nat, lo: nat, hi: nat)
    requires spectrum.Length == nx * ny && lo <= hi <= nx
    modifies spectrum
    ensures forall p :: 0 <= p < spectrum.Length ==>
      spectrum[p] == if InColumns(p, nx, lo, hi) then Zero else old(spectrum[p])
  {
    ghost var before := spectrum[..];
    var i := 0;
    while i < ny
      invariant 0 <= i <= ny
      invariant forall p :: 0 <= p < spectrum.Length ==>
        spectrum[p] == if p < i * nx && InColumns(p, nx, lo, hi) then Zero else before[p]
    {
      ZeroRowColumns(spectrum, nx, ny, i, lo, hi);
      assert (i + 1) * nx == i * nx + nx;
      i := i + 1;
    }
    assert ny * nx == spectrum.Length;
  }

  /** The inner loop of ZeroColumns: columns lo .. hi-1 of row i. */
  method ZeroRowColumns(spectrum: array<Complex>, nx: nat, ny: nat, i: nat, lo: nat, hi: nat)
    requires spectrum.Length == nx * ny && lo <= hi <= nx && i < ny
    modifies spectrum
    ensures forall p :: 0 <= p < spectrum.Length ==>
      spectrum[p] == if i * nx <= p < i * nx + nx && InColumns(p, nx, lo, hi) then Zero else old(spectrum[p])
  {
    var j := lo;
    while j < hi
      invariant lo <= j <= hi
      invariant forall p :: 0 <= p < spectrum.Length ==>
        spectrum[p] == if i * nx + lo <= p < i * nx + j then Zero else old(spectrum[p])
    {
      FlatInside(i, j, nx, ny);
      spectrum[i * nx + j] := Zero;
      j := j + 1;
    }
    if nx > 0 {
      forall p | i * nx <= p < i * nx + nx ensures p % nx == p - i * nx {
        RowOffset(i, nx, p);
      }
    }
  }

  /** Zero the linear indices lo .. hi-1. */
  method ZeroRange(spectrum: array<Complex>, lo: nat, hi: nat)
    requires lo <= hi <= spectrum.Length
    modifies spectrum
    ensures forall p :: 0 <= p < spectrum.Length ==>
      spectrum[p] == if lo <= p < hi then Zero else old(spectrum[p])
  {
    var i := lo;
    while i < hi
      invariant lo <= i <= hi
      invariant forall p :: 0 <= p < spectrum.Length ==>
        spectrum[p] == if lo <= p < i then Zero else old(spectrum[p])
    {
      spectrum[i] := Zero;
      i := i + 1;
    }
  }

  /** The passband switch of singleSideBand, in place on the spectrum AS. */
  method ZeroPassband(spectrum: array<Complex>, nx: nat, ny: nat, pb: Passband)
    requires spectrum.Length == nx * ny
    modifies spectrum
    ensures spectrum[..] == Masked(old(spectrum[..]), nx, ny, pb)
  {
    var size := nx * ny;
    match pb {
      case SsbLeft => ZeroColumns(spectrum, nx, ny, nx / 2, nx);
      case SsbRight => ZeroColumns(spectrum, nx, ny, 0, nx / 2);
      case SsbTop => ZeroRange(spectrum, size / 2, size);
      case SsbBottom => ZeroRange(spectrum, 0, size / 2);
      case Unrecognized =>
    }
  }

  /** The output of singleSideBand for an nx-by-ny field. */
  function SsbOutput(f: Fourier, holo: seq<Complex>, nx: nat, ny: nat, pb: Passband): (r: seq<real>)
    requires Lawful(f) && |holo| == nx * ny
    ensures |r| == nx * ny
  {
    var spectrum := f.shift(holo, ShiftCall(nx, ny, OphForward, Some(false)));
    var filtered := f.shift(Masked(spectrum, nx, ny, pb), ShiftCall(nx, ny, OphBackward, Some(false)));
    f.normalize(RealParts(filtered))
  }

  /** singleSideBand: the first nx * ny samples of encoded receive the
      normalised real part of the band-limited field; the rest is kept. */
  method SingleSideBandEncode(f: Fourier, holo: array<Complex>, encoded: array<real>, nx: nat, ny: nat, pb: Passband)
    requires Lawful(f)
    requires holo.Length >= nx * ny && encoded.Length >= nx * ny
    modifies encoded
    ensures encoded[..nx * ny] == SsbOutput(f, old(holo[..nx * ny]), nx, ny, pb)
    ensures encoded[nx * ny..] == old(encoded[nx * ny..])
  {
    var size := nx * ny;
    var spectrum := f.shift(holo[..size], ShiftCall(nx, ny, OphForward, Some(false)));
    var AS := new Complex[size](p requires 0 <= p < size => spectrum[p]);
    assert AS[..] == spectrum;
    ZeroPassband(AS, nx, ny, pb);
    var filtered := f.shift(AS[..], ShiftCall(nx, ny, OphBackward, Some(false)));
    var normalized := f.normalize(RealParts(filtered));
    forall i | 0 <= i < size {
      encoded[i] := normalized[i];
    }
  }
}
