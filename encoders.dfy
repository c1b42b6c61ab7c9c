/** The amplitude-only encoders of the generator: simple numerical
    interference, two-phase, Burckhardt, and the pointwise real-part, phase
    and amplitude encodings. Each turns `size` complex samples into real
    samples, one, two or three per input. */
module Encoders {
  import opened Complex
  import opened Fourier

  /** The largest element of a non-empty sequence (0 for the empty one, whose
      value no caller uses). */
  function MaxOf(s: seq<real>): (r: real)
    ensures forall i :: 0 <= i < |s| ==> s[i] <= r
    ensures |s| > 0 ==> exists i :: 0 <= i < |s| && s[i] == r
  {
    if |s| == 0 then 0.0
    else if |s| == 1 then s[0]
    else
      var rest := MaxOf(s[1..]);
      assert forall i :: 1 <= i < |s| ==> s[i] == s[1..][i - 1];
      if s[0] >= rest then s[0] else rest
  }

  /** |z| of every sample. */
  function Magnitudes(m: Elementary, s: seq<Complex>): (r: seq<real>)
    ensures |r| == |s|
  {
    seq(|s|, i requires 0 <= i < |s| => Magnitude(m, s[i]))
  }

  /** arg(z) of every sample. */
  function Phases(m: Elementary, s: seq<Complex>): (r: seq<real>)
    ensures |r| == |s|
  {
    seq(|s|, i requires 0 <= i < |s| => Phase(m, s[i]))
  }

  // ---------------------------------------------------------------------
  // Simple numerical interference

  /** The reference wave: the largest magnitude of the field. */
  function Reference(m: Elementary, holo: seq<Complex>): real
  {
    MaxOf(Magnitudes(m, holo))
  }

  /** |holo[i] + ref|^2 for every sample. */
  function Interference(m: Elementary, holo: seq<Complex>): (r: seq<real>)
    ensures |r| == |holo|
  {
    var ref := Reference(m, holo);
    seq(|holo|, i requires 0 <= i < |holo| =>
      Magnitude(m, AddReal(holo[i], ref)) * Magnitude(m, AddReal(holo[i], ref)))
  }

  /** The reference dominates: it is at least the magnitude of every sample
      and equals the magnitude of one of them. */
  lemma {:induction false} ReferenceIsMaxMagnitude(m: Elementary, holo: seq<Complex>)
    ensures forall i :: 0 <= i < |holo| ==> Magnitude(m, holo[i]) <= Reference(m, holo)
    ensures |holo| > 0 ==> exists i :: 0 <= i < |holo| && Magnitude(m, holo[i]) == Reference(m, holo)
  {
    var mags := Magnitudes(m, holo);
    assert forall i :: 0 <= i < |holo| ==> mags[i] == Magnitude(m, holo[i]);
    if |holo| > 0 {
      var j :| 0 <= j < |mags| && mags[j] == MaxOf(mags);
      assert Magnitude(m, holo[j]) == Reference(m, holo);
    }
  }

  /** With a true square root, each encoded value is the interference
      intensity |holo[i] + ref|^2 = (re + ref)^2 + im^2, free of the square
      root. */
  lemma {:induction false} InterferenceIntensity(m: Elementary, holo: seq<Complex>, i: int)
    requires SqrtLaw(m) && 0 <= i < |holo|
    ensures Interference(m, holo)[i] == NormSq(AddReal(holo[i], Reference(m, holo)))
  {
    var w := AddReal(holo[i], Reference(m, holo));
    assert Interference(m, holo)[i] == Magnitude(m, w) * Magnitude(m, w);
    MagnitudeSquared(m, w);
  }

  /** With a true square root, adding the reference makes every real part
      non-negative: the reference wave dominates the object wave. */
  lemma {:induction false} ReferenceDominates(m: Elementary, holo: seq<Complex>, i: int)
    requires SqrtLaw(m) && 0 <= i < |holo|
    ensures holo[i].re + Reference(m, holo) >= 0.0
  {
    ReferenceIsMaxMagnitude(m, holo);
    MagnitudeBoundsRe(m, holo[i]);
  }

  /** With a true square root, a real part is never below -|z|. */
  lemma {:induction false} MagnitudeBoundsRe(m: Elementary, z: Complex)
    requires SqrtLaw(m)
    ensures -Magnitude(m, z) <= z.re
  {
    MagnitudeSquared(m, z);
    RealPartBounded(z.re, z.im, Magnitude(m, z));
  }

  /** With a true square root, |z| is non-negative and squares to |z|^2. */
  lemma MagnitudeSquared(m: Elementary, z: Complex)
    requires SqrtLaw(m)
    ensures 0.0 <= Magnitude(m, z) && Magnitude(m, z) * Magnitude(m, z) == NormSq(z)
  {
    var x := NormSq(z);
    assert 0.0 <= z.re * z.re && 0.0 <= z.im * z.im;
    assert 0.0 <= x;
  }

  /** A real part is never below -|z|. */
  lemma RealPartBounded(re: real, im: real, s: real)
    requires 0.0 <= s && s * s == re * re + im * im
    ensures -s <= re
  {
    if re < -s {
      SquareGap(-re, s);
      assert false;
    }
  }

  /** Squaring is strictly monotone on the non-negative reals. */
  lemma SquareGap(a: real, s: real)
    requires 0.0 <= s < a
    ensures s * s < a * a
  {
    assert a * (a - s) > 0.0;
    assert s * (a - s) >= 0.0;
  }

  /** numericalInterference: encoded[i] = |holo[i] + max_j |holo[j]||^2 for
      i < size; the rest of encoded is kept. */
  method NumericalInterference(m: Elementary, holo: array<Complex>, encoded: array<real>, size: nat)
    requires size <= holo.Length && size <= encoded.Length
    modifies encoded
    ensures encoded[..size] == Interference(m, old(holo[..size]))
    ensures encoded[size..] == old(encoded[size..])
  {
    var field := holo[..size];
    var ref := MaxOf(Magnitudes(m, field));
    ghost var target := Interference(m, field);
    assert ref == Reference(m, field);
    var i := 0;
    while i < size
      invariant 0 <= i <= size
      invariant forall j :: 0 <= j < i ==> encoded[j] == target[j]
      invariant encoded[size..] == old(encoded[size..])
    {
      var magnitude := Magnitude(m, AddReal(holo[i], ref));
      InterferenceAt(m, field, i, magnitude);
      encoded[i] := magnitude * magnitude;
      i := i + 1;
    }
  }

  /** Sample i of the interference pattern is the square of |field[i] + ref|. */
  lemma {:induction false} InterferenceAt(m: Elementary, field: seq<Complex>, i: int, magnitude: real)
    requires 0 <= i < |field| && magnitude == Magnitude(m, AddReal(field[i], Reference(m, field)))
    ensures Interference(m, field)[i] == magnitude * magnitude
  {
  }

  // ---------------------------------------------------------------------
  // Two-phase encoding

  /** Interleave pairs: (pha[i] + del[i], pha[i] - del[i]) at 2i, 2i+1. */
  function PairLayout(pha: seq<real>, del: seq<real>): (r: seq<real>)
    requires |pha| == |del|
    ensures |r| == 2 * |pha|
  {
    seq(2 * |pha|, p requires 0 <= p < 2 * |pha| =>
      if p % 2 == 0 then pha[p / 2] + del[p / 2] else pha[p / 2] - del[p / 2])
  }

  /** The phases of the normalised field moved from (-pi, pi] up by pi. */
  function ShiftedPhases(m: Elementary, norm: seq<Complex>): (r: seq<real>)
    ensures |r| == |norm|
  {
    seq(|norm|, i requires 0 <= i < |norm| => Phase(m, norm[i]) + Pi)
  }

  /** acos of every element. */
  function Arccosines(m: Elementary, amp: seq<real>): (r: seq<real>)
    ensures |r| == |amp|
  {
    seq(|amp|, i requires 0 <= i < |amp| => m.acos(amp[i]))
  }

  /** The two-phase output for a field whose normalised copy is `norm`:
      pha = phase + pi and delPhase = acos(amp[i]), where the buffer `amp`
      is read without ever being written, so its contents are a parameter
      here. */
  function TwoPhaseLayout(m: Elementary, norm: seq<Complex>, amp: seq<real>): (r: seq<real>)
    requires |amp| == |norm|
    ensures |r| == 2 * |norm|
  {
    PairLayout(ShiftedPhases(m, norm), Arccosines(m, amp))
  }

  /** The pair at 2i, 2i+1 sums to twice the shifted phase and differs by
      twice acos(amp[i]); so the difference never depends on the field. */
  lemma {:induction false} TwoPhasePairs(m: Elementary, norm: seq<Complex>, amp: seq<real>, i: int)
    requires |amp| == |norm| && 0 <= i < |norm|
    ensures var r := TwoPhaseLayout(m, norm, amp);
      r[2 * i] + r[2 * i + 1] == 2.0 * (Phase(m, norm[i]) + Pi)
      && r[2 * i] - r[2 * i + 1] == 2.0 * m.acos(amp[i])
  {
    assert (2 * i) / 2 == i && (2 * i) % 2 == 0;
    assert (2 * i + 1) / 2 == i && (2 * i + 1) % 2 == 1;
  }

  /** Two fields with the same phases give the same two-phase output,
      whatever their amplitudes: amplitude reaches the layout only through
      the never-written buffer. */
  lemma {:induction false} TwoPhaseIgnoresAmplitude(m: Elementary, a: seq<Complex>, b: seq<Complex>, amp: seq<real>)
    requires |a| == |b| == |amp|
    requires Phases(m, a) == Phases(m, b)
    ensures TwoPhaseLayout(m, a, amp) == TwoPhaseLayout(m, b, amp)
  {
    assert forall i :: 0 <= i < |a| ==> Phases(m, a)[i] == Phase(m, a[i]) && Phases(m, b)[i] == Phase(m, b[i]);
    assert ShiftedPhases(m, a) == ShiftedPhases(m, b);
  }

  /** The pair loop of twoPhaseEncoding: every one of the 2 n slots is
      written. */
  method InterleavePairs(pha: array<real>, del: array<real>, encoded: array<real>)
    requires pha.Length == del.Length && 2 * pha.Length <= encoded.Length
    requires encoded != pha && encoded != del
    modifies encoded
    ensures encoded[..2 * pha.Length] == PairLayout(pha[..], del[..])
    ensures encoded[2 * pha.Length..] == old(encoded[2 * pha.Length..])
  {
    var n := pha.Length;
    var i := 0;
    while i < n
      invariant 0 <= i <= n
      invariant forall p :: 0 <= p < 2 * i ==> encoded[p] == PairLayout(pha[..], del[..])[p]
      invariant encoded[2 * n..] == old(encoded[2 * n..])
    {
      encoded[2 * i] := pha[i] + del[i];
      encoded[2 * i + 1] := pha[i] - del[i];
      i := i + 1;
    }
  }

  /** twoPhaseEncoding: normalise, write the amplitudes into encoded (where
      the pair loop later overwrites them), shift the phases by pi, take
      acos of the uninitialised `amp` buffer, and interleave the pairs into
      encoded[0 .. 2 size). */
  method TwoPhaseEncoding(m: Elementary, f: Fourier, holo: array<Complex>, encoded: array<real>, size: nat)
    requires Lawful(f)
    requires size <= holo.Length && 2 * size <= encoded.Length
    modifies encoded
    ensures exists amp: seq<real> :: (|amp| == size &&
      encoded[..2 * size] == TwoPhaseLayout(m, f.normalizeComplex(old(holo[..size])), amp))
    ensures encoded[2 * size..] == old(encoded[2 * size..])
  {
    var norm := f.normalizeComplex(holo[..size]);
    var amp := new real[size];
    // the amplitudes land in encoded, not in amp
    forall i | 0 <= i < size {
      encoded[i] := Magnitude(m, norm[i]);
    }
    var pha := new real[size](i requires 0 <= i < size => Phase(m, norm[i]));
    forall i | 0 <= i < size {
      pha[i] := pha[i] + Pi;
    }
    var delPhase := new real[size](i requires 0 <= i < size reads amp => m.acos(amp[i]));
    assert pha[..] == ShiftedPhases(m, norm);
    ghost var stale := amp[..];
    assert delPhase[..] == Arccosines(m, stale);
    InterleavePairs(pha, delPhase, encoded);
    assert encoded[..2 * size] == TwoPhaseLayout(m, norm, stale);
  }

  // ---------------------------------------------------------------------
  // Burckhardt encoding

  const TwoThirdsPi: real := 2.0 * Pi / 3.0
  const FourThirdsPi: real := 4.0 * Pi / 3.0

  datatype Triple = Triple(a1: real, a2: real, a3: real)

  /** The Burckhardt components of one sample of amplitude `ampl` and phase
      `phase`: a phase in one of the three 120-degree sectors of [0, 2 pi)
      drives the two components bounding that sector; a phase outside
      [0, 2 pi) leaves all three at zero. */
  function BurckhardtTriple(m: Elementary, ampl: real, phase: real): Triple
    requires m.sqrt(3.0) != 0.0
  {
    var s3 := m.sqrt(3.0);
    if 0.0 <= phase < TwoThirdsPi then
      Triple(ampl * (m.cos(phase) + m.sin(phase) / s3), 2.0 * m.sin(phase) / s3, 0.0)
    else if TwoThirdsPi <= phase < FourThirdsPi then
      var q := phase - TwoThirdsPi;
      Triple(0.0, ampl * (m.cos(q) + m.sin(q) / s3), 2.0 * m.sin(q) / s3)
    else if FourThirdsPi <= phase < 2.0 * Pi then
      var q := phase - FourThirdsPi;
      Triple(2.0 * m.sin(q) / s3, 0.0, ampl * (m.cos(q) + m.sin(q) / s3))
    else
      Triple(0.0, 0.0, 0.0)
  }

  /** The sector test: the component opposite the sector is zero, and all
      three are zero outside [0, 2 pi). */
  lemma SectorZeros(m: Elementary, ampl: real, phase: real)
    requires m.sqrt(3.0) != 0.0
    ensures 0.0 <= phase < TwoThirdsPi ==> BurckhardtTriple(m, ampl, phase).a3 == 0.0
    ensures TwoThirdsPi <= phase < FourThirdsPi ==> BurckhardtTriple(m, ampl, phase).a1 == 0.0
    ensures FourThirdsPi <= phase < 2.0 * Pi ==> BurckhardtTriple(m, ampl, phase).a2 == 0.0
    ensures (phase < 0.0 || 2.0 * Pi <= phase) ==> BurckhardtTriple(m, ampl, phase) == Triple(0.0, 0.0, 0.0)
  {
  }

  /** The second and third sectors are the first one rotated by 120 and 240
      degrees across the three components. */
  lemma {:induction false} SectorRotation(m: Elementary, ampl: real, phase: real)
    requires m.sqrt(3.0) != 0.0
    ensures TwoThirdsPi <= phase < FourThirdsPi ==>
      var t := BurckhardtTriple(m, ampl, phase - TwoThirdsPi);
      BurckhardtTriple(m, ampl, phase) == Triple(t.a3, t.a1, t.a2)
    ensures FourThirdsPi <= phase < 2.0 * Pi ==>
      var t := BurckhardtTriple(m, ampl, phase - FourThirdsPi);
      BurckhardtTriple(m, ampl, phase) == Triple(t.a2, t.a3, t.a1)
  {
    assert 0.0 < Pi;
  }

  /** The triple of every sample of the normalised field. */
  function Triples(m: Elementary, norm: seq<Complex>): (r: seq<Triple>)
    requires m.sqrt(3.0) != 0.0
    ensures |r| == |norm|
  {
    seq(|norm|, i requires 0 <= i < |norm| => BurckhardtTriple(m, Magnitude(m, norm[i]), Phase(m, norm[i])))
  }

  /** Interleave triples: A1, A2, A3 of triple i at 3i, 3i+1, 3i+2. */
  function TripleLayout(ts: seq<Triple>): (r: seq<real>)
    ensures |r| == 3 * |ts|
  {
    seq(3 * |ts|, p requires 0 <= p < 3 * |ts| =>
      if p % 3 == 0 then ts[p / 3].a1 else if p % 3 == 1 then ts[p / 3].a2 else ts[p / 3].a3)
  }

  /** The interleaved Burckhardt output of a field whose normalised copy is
      `norm`. */
  function BurckhardtLayout(m: Elementary, norm: seq<Complex>): (r: seq<real>)
    requires m.sqrt(3.0) != 0.0
    ensures |r| == 3 * |norm|
  {
    TripleLayout(Triples(m, norm))
  }

  /** Sample i owns slots 3i, 3i+1, 3i+2, which hold A1, A2, A3 of its
      triple. */
  lemma {:induction false} BurckhardtSlots(m: Elementary, norm: seq<Complex>, i: int)
    requires m.sqrt(3.0) != 0.0 && 0 <= i < |norm|
    ensures var t := BurckhardtTriple(m, Magnitude(m, norm[i]), Phase(m, norm[i]));
      var r := BurckhardtLayout(m, norm);
      r[3 * i] == t.a1 && r[3 * i + 1] == t.a2 && r[3 * i + 2] == t.a3
  {
    var ts := Triples(m, norm);
    assert ts[i] == BurckhardtTriple(m, Magnitude(m, norm[i]), Phase(m, norm[i]));
    TripleSlots(ts, i);
  }

  /** Triple i of an interleaved layout sits at 3i, 3i+1, 3i+2. */
  lemma {:induction false} TripleSlots(ts: seq<Triple>, i: int)
    requires 0 <= i < |ts|
    ensures var r := TripleLayout(ts);
      r[3 * i] == ts[i].a1 && r[3 * i + 1] == ts[i].a2 && r[3 * i + 2] == ts[i].a3
  {
    assert (3 * i) / 3 == i && (3 * i) % 3 == 0;
    assert (3 * i + 1) / 3 == i && (3 * i + 1) % 3 == 1;
    assert (3 * i + 2) / 3 == i && (3 * i + 2) % 3 == 2;
  }

  function Zip3(x: seq<real>, y: seq<real>, z: seq<real>): (r: seq<Triple>)
    requires |x| == |y| == |z|
    ensures |r| == |x|
  {
    seq(|x|, i requires 0 <= i < |x| => Triple(x[i], y[i], z[i]))
  }

  /** The interleave loop of burckhardt: every one of the 3 n slots is
      written. */
  method InterleaveTriples(a1: array<real>, a2: array<real>, a3: array<real>, encoded: array<real>)
    requires a1.Length == a2.Length == a3.Length && 3 * a1.Length <= encoded.Length
    requires encoded != a1 && encoded != a2 && encoded != a3
    modifies encoded
    ensures encoded[..3 * a1.Length] == TripleLayout(Zip3(a1[..], a2[..], a3[..]))
    ensures encoded[3 * a1.Length..] == old(encoded[3 * a1.Length..])
  {
    var n := a1.Length;
    ghost var ts := Zip3(a1[..], a2[..], a3[..]);
    var i := 0;
    while i < n
      invariant 0 <= i <= n
      invariant forall j :: 0 <= j < i ==> encoded[3 * j] == ts[j].a1 && encoded[3 * j + 1] == ts[j].a2 && encoded[3 * j + 2] == ts[j].a3
      invariant forall p :: 3 * n <= p < encoded.Length ==> encoded[p] == old(encoded[p])
    {
      assert ts[i] == Triple(a1[i], a2[i], a3[i]);
      encoded[3 * i] := a1[i];
      encoded[3 * i + 1] := a2[i];
      encoded[3 * i + 2] := a3[i];
      i := i + 1;
    }
    LayoutFromSlots(encoded[..3 * n], ts);
  }

  /** A sequence holding every triple at 3j, 3j+1, 3j+2 is the layout. */
  lemma {:induction false} LayoutFromSlots(e: seq<real>, ts: seq<Triple>)
    requires |e| == 3 * |ts|
    requires forall j :: 0 <= j < |ts| ==> e[3 * j] == ts[j].a1 && e[3 * j + 1] == ts[j].a2 && e[3 * j + 2] == ts[j].a3
    ensures e == TripleLayout(ts)
  {
    forall p | 0 <= p < |e|
      ensures e[p] == TripleLayout(ts)[p]
    {
      var j := p / 3;
      assert p == 3 * j + p % 3 && 0 <= p % 3 < 3;
      assert 0 <= j < |ts|;
    }
  }

  /** The sector loop of burckhardt: A1, A2, A3 start at zero and receive
      the triple of every sample. */
  method FillTriples(m: Elementary, norm: seq<Complex>) returns (a1: array<real>, a2: array<real>, a3: array<real>)
    requires m.sqrt(3.0) != 0.0
    ensures fresh(a1) && fresh(a2) && fresh(a3)
    ensures a1.Length == a2.Length == a3.Length == |norm|
    ensures Zip3(a1[..], a2[..], a3[..]) == Triples(m, norm)
  {
    var size := |norm|;
    ghost var ts := Triples(m, norm);
    a1 := new real[size](_ => 0.0);
    a2 := new real[size](_ => 0.0);
    a3 := new real[size](_ => 0.0);
    var i := 0;
    while i < size
      invariant 0 <= i <= size
      invariant forall j :: 0 <= j < i ==> Triple(a1[j], a2[j], a3[j]) == ts[j]
    {
      var t := BurckhardtTriple(m, Magnitude(m, norm[i]), Phase(m, norm[i]));
      assert t == ts[i];
      a1[i], a2[i], a3[i] := t.a1, t.a2, t.a3;
      assert Triple(a1[i], a2[i], a3[i]) == t;
      i := i + 1;
    }
    ZipComponents(a1[..], a2[..], a3[..], ts);
  }

  /** Three sequences holding the components of every triple zip back to
      those triples. */
  lemma ZipComponents(x: seq<real>, y: seq<real>, z: seq<real>, ts: seq<Triple>)
    requires |x| == |y| == |z| == |ts|
    requires forall j :: 0 <= j < |ts| ==> Triple(x[j], y[j], z[j]) == ts[j]
    ensures Zip3(x, y, z) == ts
  {
  }

  /** burckhardt: normalise, fill A1..A3 per sample by the sector test, then
      interleave them into encoded[0 .. 3 size). */
  method Burckhardt(m: Elementary, f: Fourier, holo: array<Complex>, encoded: array<real>, size: nat)
    requires Lawful(f) && m.sqrt(3.0) != 0.0
    requires size <= holo.Length && 3 * size <= encoded.Length
    modifies encoded
    ensures encoded[..3 * size] == BurckhardtLayout(m, f.normalizeComplex(old(holo[..size])))
    ensures encoded[3 * size..] == old(encoded[3 * size..])
  {
    var norm := f.normalizeComplex(holo[..size]);
    var a1, a2, a3 := FillTriples(m, norm);
    InterleaveTriples(a1, a2, a3, encoded);
  }

  // ---------------------------------------------------------------------
  // Pointwise encodings

  /** realPart, getPhase, getAmplitude: one real sample per complex one. */
  datatype Pointwise = RealOf | PhaseOf | AmplitudeOf

  function PointValue(m: Elementary, which: Pointwise, z: Complex): real
  {
    match which
    case RealOf => z.re
    case PhaseOf => Phase(m, z)
    case AmplitudeOf => Magnitude(m, z)
  }

  method PointwiseEncode(m: Elementary, which: Pointwise, holo: array<Complex>, encoded: array<real>, size: nat)
    requires size <= holo.Length && size <= encoded.Length
    modifies encoded
    ensures forall i :: 0 <= i < size ==> encoded[i] == PointValue(m, which, old(holo[i]))
    ensures encoded[size..] == old(encoded[size..])
  {
    forall i | 0 <= i < size {
      encoded[i] := PointValue(m, which, holo[i]);
    }
  }
}
