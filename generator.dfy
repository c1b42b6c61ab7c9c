/** The hologram generator object of the single-wavelength build: the
    complex field complex_H, the encoded and normalised hologram buffers
    and their size encode_size, the once-only carrier flag, and the
    operations that allocate, reset, encode and propagate through them. */
module Generator {
  import opened Complex
  import opened Fourier
  import opened Wrappers
  import FieldContext
  import Encoders
  import SingleSideBand
  import SideBand
  import Carrier
  import AngularSpectrum
  import Fresnel

  /** An 8-bit pixel of holo_normalized. */
  newtype uchar = x: int | 0 <= x < 256

  /** The ENCODE_* selector; any other value is EncodeUnknown. */
  datatype EncodeFlag =
    | EncodeSimpleNi | EncodeReal | EncodeBurckhardt | EncodeTwoPhase
    | EncodePhase | EncodeAmplitude | EncodeSsb | EncodeOffSsb
    | EncodeSymmetrization | EncodeUnknown

  /** encode_size[_X]: three samples per pixel for Burckhardt, two for
      two-phase, one otherwise. */
  function EncodeWidth(flag: EncodeFlag, nx: nat): nat
  {
    match flag
    case EncodeBurckhardt => 3 * nx
    case EncodeTwoPhase => 2 * nx
    case _ => nx
  }

  /** The flags the two-argument overload encodes itself. */
  predicate Basic(flag: EncodeFlag)
  {
    !(flag.EncodeSsb? || flag.EncodeOffSsb? || flag.EncodeUnknown?)
  }

  /** What the basic encodings leave in holo_encoded for the field holo;
      the two-phase result depends on the unwritten `amp` buffer, so it is
      fixed only up to that buffer. */
  ghost predicate EncodedBy(m: Elementary, f: Fourier, c: FieldContext.Context, flag: EncodeFlag,
                            holo: seq<Complex>, encoded: seq<real>)
    requires FieldContext.Valid(c) && Lawful(f) && |holo| == FieldContext.PixelCount(c)
  {
    match flag
    case EncodeSimpleNi => encoded == Encoders.Interference(m, holo)
    case EncodeReal => |encoded| == |holo| && forall i :: 0 <= i < |holo| ==>
      encoded[i] == Encoders.PointValue(m, Encoders.RealOf, holo[i])
    case EncodeBurckhardt => m.sqrt(3.0) != 0.0 && encoded == Encoders.BurckhardtLayout(m, f.normalizeComplex(holo))
    case EncodeTwoPhase => exists amp: seq<real> :: (|amp| == |holo| &&
      encoded == Encoders.TwoPhaseLayout(m, f.normalizeComplex(holo), amp))
    case EncodePhase => |encoded| == |holo| && forall i :: 0 <= i < |holo| ==>
      encoded[i] == Encoders.PointValue(m, Encoders.PhaseOf, holo[i])
    case EncodeAmplitude => |encoded| == |holo| && forall i :: 0 <= i < |holo| ==>
      encoded[i] == Encoders.PointValue(m, Encoders.AmplitudeOf, holo[i])
    case EncodeSymmetrization =>
      var box := SideBand.SymmetrizationBox(c.nx, c.ny, SideBand.SigLocation(0, 1));
      encoded == SideBand.Demodulated(m, c,
        SideBand.CropTransform(f, c, SideBand.Cropped(holo, c.nx, c.ny, box), Literal(-1)), SideBand.SigLocation(0, 1))
    case _ => forall i :: 0 <= i < |encoded| ==> encoded[i] == 0.0
  }

  /** Whatever a basic flag encodes, it fills exactly the encode_size
      buffer the overload allocated for it. */
  lemma {:induction false} EncodedFillsBuffer(m: Elementary, f: Fourier, c: FieldContext.Context, flag: EncodeFlag,
                                              holo: seq<Complex>, encoded: seq<real>)
    requires FieldContext.Valid(c) && Lawful(f) && |holo| == FieldContext.PixelCount(c)
    requires Basic(flag) && EncodedBy(m, f, c, flag, holo, encoded)
    ensures |encoded| == EncodeWidth(flag, c.nx) * c.ny
  {
    match flag {
      case EncodeSimpleNi =>
      case EncodeReal =>
      case EncodePhase =>
      case EncodeAmplitude =>
      case EncodeBurckhardt =>
        assert |encoded| == 3 * |holo|;
      case EncodeTwoPhase =>
        var amp :| |amp| == |holo| && encoded == Encoders.TwoPhaseLayout(m, f.normalizeComplex(holo), amp);
        assert |encoded| == 2 * |holo|;
      case EncodeSymmetrization =>
    }
  }

  /** A spectrum shifted as the off-axis branch shifts complex_H. */
  function OffAxis(f: Fourier, c: FieldContext.Context, field: seq<Complex>): (r: seq<Complex>)
    requires Lawful(f)
    ensures |r| == FieldContext.PixelCount(c)
  {
    FreqShift(f, field, c.nx, c.ny, 0, 100)
  }

  /** The memset of resetBuffer: the first n entries become v. */
  method ClearPrefix<T>(a: array<T>, n: nat, v: T)
    requires n <= a.Length
    modifies a
    ensures forall i :: 0 <= i < n ==> a[i] == v
    ensures a[n..] == old(a[n..])
  {
    forall i | 0 <= i < n {
      a[i] := v;
    }
  }

  /** What the passband overload leaves in holo_encoded for the field it
      encodes: the single-side-band output, or the zeroed buffer for any
      other flag. */
  function PassbandEncoded(f: Fourier, c: FieldContext.Context, flag: EncodeFlag,
                           passband: SingleSideBand.Passband, field: seq<Complex>): (r: seq<real>)
    requires Lawful(f) && |field| == FieldContext.PixelCount(c)
    ensures |r| == |field|
    ensures !(flag.EncodeSsb? || flag.EncodeOffSsb?) ==> forall i :: 0 <= i < |r| ==> r[i] == 0.0
  {
    if flag.EncodeSsb? || flag.EncodeOffSsb? then SingleSideBand.SsbOutput(f, field, c.nx, c.ny, passband)
    else seq(|field|, _ => 0.0)
  }

  /** The switch shared by the encoding overloads for the basic flags,
      into a holo_encoded just reallocated for the flag. */
  method EncodeField(m: Elementary, f: Fourier, c: FieldContext.Context, flag: EncodeFlag,
                     holo: array<Complex>, encoded: array<real>)
    requires Basic(flag) && FieldContext.Valid(c) && Lawful(f)
    requires flag.EncodeBurckhardt? ==> m.sqrt(3.0) != 0.0
    requires holo.Length >= FieldContext.PixelCount(c)
    requires encoded.Length == EncodeWidth(flag, c.nx) * c.ny
    modifies encoded
    ensures EncodedBy(m, f, c, flag, old(holo[..FieldContext.PixelCount(c)]), encoded[..])
  {
    if flag.EncodeBurckhardt? || flag.EncodeTwoPhase? {
      EncodeWide(m, f, c, flag, holo, encoded);
    } else if flag.EncodeSymmetrization? {
      EncodeSymmetric(m, f, c, holo, encoded);
    } else {
      EncodeNarrow(m, f, c, flag, holo, encoded);
    }
  }

  /** The one-sample-per-pixel encoders: interference, real part, phase,
      amplitude. */
  method EncodeNarrow(m: Elementary, f: Fourier, c: FieldContext.Context, flag: EncodeFlag,
                      holo: array<Complex>, encoded: array<real>)
    requires FieldContext.Valid(c) && Lawful(f)
    requires flag.EncodeSimpleNi? || flag.EncodeReal? || flag.EncodePhase? || flag.EncodeAmplitude?
    requires holo.Length >= FieldContext.PixelCount(c) && encoded.Length == FieldContext.PixelCount(c)
    modifies encoded
    ensures EncodedBy(m, f, c, flag, old(holo[..FieldContext.PixelCount(c)]), encoded[..])
  {
    var size := c.nx * c.ny;
    if flag.EncodeSimpleNi? {
      Encoders.NumericalInterference(m, holo, encoded, size);
      assert encoded[..] == encoded[..size];
    } else {
      var which := if flag.EncodeReal? then Encoders.RealOf
                   else if flag.EncodePhase? then Encoders.PhaseOf else Encoders.AmplitudeOf;
      Encoders.PointwiseEncode(m, which, holo, encoded, size);
    }
  }

  /** The encoders that write two or three samples per pixel. */
  method EncodeWide(m: Elementary, f: Fourier, c: FieldContext.Context, flag: EncodeFlag,
                    holo: array<Complex>, encoded: array<real>)
    requires FieldContext.Valid(c) && Lawful(f)
    requires flag.EncodeBurckhardt? || flag.EncodeTwoPhase?
    requires flag.EncodeBurckhardt? ==> m.sqrt(3.0) != 0.0
    requires holo.Length >= FieldContext.PixelCount(c)
    requires encoded.Length == EncodeWidth(flag, c.nx) * c.ny
    modifies encoded
    ensures EncodedBy(m, f, c, flag, old(holo[..FieldContext.PixelCount(c)]), encoded[..])
  {
    var size := c.nx * c.ny;
    if flag.EncodeBurckhardt? {
      assert encoded.Length == 3 * size;
      Encoders.Burckhardt(m, f, holo, encoded, size);
      assert encoded[..] == encoded[..3 * size];
    } else {
      assert encoded.Length == 2 * size;
      Encoders.TwoPhaseEncoding(m, f, holo, encoded, size);
      assert encoded[..] == encoded[..2 * size];
    }
  }

  /** freqShift(holo, holo, pixel_number, 0, 100) on a field buffer. */
  method ShiftInPlace(f: Fourier, c: FieldContext.Context, holo: array<Complex>)
    requires Lawful(f) && holo.Length == FieldContext.PixelCount(c)
    modifies holo
    ensures holo[..] == OffAxis(f, c, old(holo[..]))
  {
    var shifted := OffAxis(f, c, holo[..]);
    forall i | 0 <= i < holo.Length {
      holo[i] := shifted[i];
    }
  }

  /** The switch of the passband encoding: single-side-band of src (after
      the off-axis shift of complex_H for OFFSSB), nothing for any other
      flag. src may be complex_H itself. */
  method EncodePassbandBuffers(f: Fourier, c: FieldContext.Context, flag: EncodeFlag,
                               passband: SingleSideBand.Passband, field: array?<Complex>,
                               src: array<Complex>, encoded: array<real>)
    requires Lawful(f)
    requires flag.EncodeOffSsb? ==> field != null && field.Length == FieldContext.PixelCount(c)
    requires src.Length >= FieldContext.PixelCount(c) && encoded.Length == FieldContext.PixelCount(c)
    requires forall i :: 0 <= i < encoded.Length ==> encoded[i] == 0.0
    modifies field, encoded
    ensures flag.EncodeOffSsb? ==> field[..] == OffAxis(f, c, old(field[..]))
    ensures field != null && !flag.EncodeOffSsb? ==> field[..] == old(field[..])
    ensures src == field ==> encoded[..] == PassbandEncoded(f, c, flag, passband,
      if flag.EncodeOffSsb? then OffAxis(f, c, old(field[..])) else old(field[..FieldContext.PixelCount(c)]))
    ensures src != field ==> encoded[..] == PassbandEncoded(f, c, flag, passband, old(src[..FieldContext.PixelCount(c)]))
  {
    var n := c.nx * c.ny;
    ghost var input := src[..n];
    if flag.EncodeSsb? {
      SingleSideBand.SingleSideBandEncode(f, src, encoded, c.nx, c.ny, passband);
      assert encoded[..] == encoded[..n];
    } else if flag.EncodeOffSsb? {
      ghost var h0 := field[..];
      assert src == field ==> input == h0;
      ShiftInPlace(f, c, field);
      ghost var shifted := if src == field then OffAxis(f, c, h0) else input;
      assert src[..n] == shifted;
      SingleSideBand.SingleSideBandEncode(f, src, encoded, c.nx, c.ny, passband);
      assert encoded[..] == encoded[..n];
      assert encoded[..] == PassbandEncoded(f, c, flag, passband, shifted);
    } else {
      assert encoded[..] == seq(n, _ => 0.0);
    }
  }

  /** The switch of the member encoding on complex_H and a holo_encoded
      just reallocated, zeroed, for the flag: single-side-band (after the
      off-axis shift for OFFSSB), the in-place encoders, or nothing for an
      unknown flag. */
  method EncodeBuffers(m: Elementary, f: Fourier, c: FieldContext.Context, flag: EncodeFlag,
                       passband: SingleSideBand.Passband, holo: array<Complex>, encoded: array<real>)
    requires FieldContext.Valid(c) && Lawful(f) && holo.Length == FieldContext.PixelCount(c)
    requires flag.EncodeBurckhardt? ==> m.sqrt(3.0) != 0.0
    requires encoded.Length == EncodeWidth(flag, c.nx) * c.ny
    requires forall i :: 0 <= i < encoded.Length ==> encoded[i] == 0.0
    modifies holo, encoded
    ensures flag.EncodeOffSsb? ==> holo[..] == OffAxis(f, c, old(holo[..]))
    ensures !flag.EncodeOffSsb? ==> holo[..] == old(holo[..])
    ensures flag.EncodeSsb? || flag.EncodeOffSsb? ==>
      encoded[..] == SingleSideBand.SsbOutput(f, holo[..], c.nx, c.ny, passband)
    ensures !(flag.EncodeSsb? || flag.EncodeOffSsb?) ==> EncodedBy(m, f, c, flag, old(holo[..]), encoded[..])
  {
    var n := c.nx * c.ny;
    assert holo[..n] == holo[..];
    if flag.EncodeSsb? || flag.EncodeOffSsb? {
      if flag.EncodeOffSsb? {
        ShiftInPlace(f, c, holo);
      }
      SingleSideBand.SingleSideBandEncode(f, holo, encoded, c.nx, c.ny, passband);
      assert holo[..n] == holo[..];
      assert encoded[..] == encoded[..n];
    } else {
      EncodeOrSkip(m, f, c, flag, holo, encoded);
    }
  }

  /** The in-place encoders for a basic flag; any other flag leaves the
      zeroed holo_encoded as it is. */
  method EncodeOrSkip(m: Elementary, f: Fourier, c: FieldContext.Context, flag: EncodeFlag,
                      holo: array<Complex>, encoded: array<real>)
    requires FieldContext.Valid(c) && Lawful(f)
    requires flag.EncodeBurckhardt? ==> m.sqrt(3.0) != 0.0
    requires holo.Length >= FieldContext.PixelCount(c)
    requires encoded.Length == EncodeWidth(flag, c.nx) * c.ny
    requires forall i :: 0 <= i < encoded.Length ==> encoded[i] == 0.0
    modifies encoded
    ensures EncodedBy(m, f, c, flag, old(holo[..FieldContext.PixelCount(c)]), encoded[..])
  {
    if Basic(flag) {
      EncodeField(m, f, c, flag, holo, encoded);
    } else {
      assert encoded[..] == seq(encoded.Length, _ => 0.0);
    }
  }

  /** Symmetrization with the signal location (0, 1). */
  method EncodeSymmetric(m: Elementary, f: Fourier, c: FieldContext.Context,
                         holo: array<Complex>, encoded: array<real>)
    requires FieldContext.Valid(c) && Lawful(f)
    requires holo.Length >= FieldContext.PixelCount(c) && encoded.Length == FieldContext.PixelCount(c)
    modifies encoded
    ensures EncodedBy(m, f, c, EncodeSymmetrization, old(holo[..FieldContext.PixelCount(c)]), encoded[..])
  {
    var size := c.nx * c.ny;
    var sig := SideBand.SigLocation(0, 1);
    var box := SideBand.SymmetrizationBox(c.nx, c.ny, sig);
    assert SideBand.Cropped(holo[..], c.nx, c.ny, box) == SideBand.Cropped(holo[..size], c.nx, c.ny, box);
    SideBand.EncodeSymmetrization(m, f, c, holo, encoded, sig);
    assert encoded[..] == encoded[..size];
  }

  class Generator {
    var context: FieldContext.Context
    var complexH: array?<Complex>
    var holoEncoded: array?<real>
    var holoNormalized: array?<uchar>
    var encodeX: nat
    var encodeY: nat
    var bCarried: bool
    /** ENCODE_METHOD and SSB_PASSBAND, read by the no-argument encoding. */
    var encodeMethod: EncodeFlag
    var ssbPassband: SingleSideBand.Passband

    /** The constructor: no buffers yet and no carrier applied. */
    constructor (c: FieldContext.Context)
      ensures context == c
      ensures complexH == null && holoEncoded == null && holoNormalized == null
      ensures !bCarried
    {
      context := c;
      complexH := null;
      holoEncoded := null;
      holoNormalized := null;
      bCarried := false;
    }

    /** complex_H is allocated for the current pixel count. */
    predicate FieldReady()
      reads this
    {
      complexH != null && complexH.Length == FieldContext.PixelCount(context)
    }

    /** Both hologram buffers hold encode_size samples. */
    predicate HologramReady()
      reads this
    {
      holoEncoded != null && holoNormalized != null &&
      holoEncoded.Length == encodeX * encodeY && holoNormalized.Length == encodeX * encodeY
    }

    /** The buffers hold nothing yet: complex_H is zero, and so are both
        hologram buffers. */
    ghost predicate Cleared()
      reads this, complexH, holoEncoded, holoNormalized
    {
      FieldReady() && HologramReady() &&
      (forall i :: 0 <= i < complexH.Length ==> complexH[i] == Zero) &&
      (forall i :: 0 <= i < holoEncoded.Length ==> holoEncoded[i] == 0.0) &&
      (forall i :: 0 <= i < holoNormalized.Length ==> holoNormalized[i] == 0)
    }

    /** initialize: fresh zeroed complex_H, holo_encoded and holo_normalized
        of pnX * pnY samples, and encode_size = pixel count. */
    method Initialize()
      modifies this
      ensures context == old(context) && bCarried == old(bCarried)
      ensures encodeMethod == old(encodeMethod) && ssbPassband == old(ssbPassband)
      ensures fresh(complexH) && fresh(holoEncoded) && fresh(holoNormalized)
      ensures encodeX == context.nx && encodeY == context.ny
      ensures Cleared()
    {
      var n := context.nx * context.ny;
      complexH := new Complex[n](_ => Zero);
      holoEncoded := new real[n](_ => 0.0);
      holoNormalized := new uchar[n](_ => 0);
      encodeX, encodeY := context.nx, context.ny;
    }

    /** resetBuffer: zero the first pnX * pnY samples of complex_H and the
        first encode_size samples of the hologram buffers, each only when
        it is allocated. */
    method ResetBuffer()
      requires complexH != null ==> complexH.Length >= FieldContext.PixelCount(context)
      requires holoEncoded != null ==> holoEncoded.Length >= encodeX * encodeY
      requires holoNormalized != null ==> holoNormalized.Length >= encodeX * encodeY
      modifies complexH, holoEncoded, holoNormalized
      ensures complexH != null ==>
        (forall i :: 0 <= i < FieldContext.PixelCount(context) ==> complexH[i] == Zero) &&
        complexH[FieldContext.PixelCount(context)..] == old(complexH[FieldContext.PixelCount(context)..])
      ensures holoEncoded != null ==>
        (forall i :: 0 <= i < encodeX * encodeY ==> holoEncoded[i] == 0.0) &&
        holoEncoded[encodeX * encodeY..] == old(holoEncoded[encodeX * encodeY..])
      ensures holoNormalized != null ==>
        (forall i :: 0 <= i < encodeX * encodeY ==> holoNormalized[i] == 0) &&
        holoNormalized[encodeX * encodeY..] == old(holoNormalized[encodeX * encodeY..])
    {
      if complexH != null {
        ClearPrefix(complexH, FieldContext.PixelCount(context), Zero);
      }
      if holoEncoded != null {
        ClearPrefix(holoEncoded, encodeX * encodeY, 0.0);
      }
      if holoNormalized != null {
        ClearPrefix(holoNormalized, encodeX * encodeY, 0);
      }
    }

    /** setResolution: a new pixel count re-runs initialize; the same one
        changes nothing. */
    method SetResolution(nx: nat, ny: nat)
      modifies this
      ensures (old(context.nx), old(context.ny)) == (nx, ny) ==>
        context == old(context) && complexH == old(complexH) && holoEncoded == old(holoEncoded) &&
        holoNormalized == old(holoNormalized) && encodeX == old(encodeX) && encodeY == old(encodeY)
      ensures (old(context.nx), old(context.ny)) != (nx, ny) ==>
        context == old(context).(nx := nx, ny := ny) &&
        fresh(complexH) && fresh(holoEncoded) && fresh(holoNormalized) &&
        encodeX == nx && encodeY == ny && Cleared()
      ensures bCarried == old(bCarried)
      ensures encodeMethod == old(encodeMethod) && ssbPassband == old(ssbPassband)
    {
      if (context.nx, context.ny) != (nx, ny) {
        context := context.(nx := nx, ny := ny);
        Initialize();
      }
    }

    /** The reallocation every encoding overload starts with: fresh zeroed
        holo_encoded and holo_normalized of width * height samples. */
    method Reallocate(width: nat, height: nat)
      modifies this
      ensures context == old(context) && complexH == old(complexH) && bCarried == old(bCarried)
      ensures encodeMethod == old(encodeMethod) && ssbPassband == old(ssbPassband)
      ensures encodeX == width && encodeY == height
      ensures fresh(holoEncoded) && fresh(holoNormalized) && HologramReady()
      ensures forall i :: 0 <= i < holoEncoded.Length ==> holoEncoded[i] == 0.0
      ensures forall i :: 0 <= i < holoNormalized.Length ==> holoNormalized[i] == 0
    {
      encodeX, encodeY := width, height;
      holoEncoded := new real[width * height](_ => 0.0);
      holoNormalized := new uchar[width * height](_ => 0);
    }

    /** encoding(ENCODE_FLAG, holo): size the buffers for the flag,
        reallocate them zeroed, and encode the given field (complex_H when
        none is given); the side-band flags and unknown flags stop after
        the reallocation. */
    method Encoding(m: Elementary, f: Fourier, flag: EncodeFlag, holo: array?<Complex>)
      requires FieldContext.Valid(context) && Lawful(f)
      requires flag.EncodeBurckhardt? ==> m.sqrt(3.0) != 0.0
      requires holo == null ==> FieldReady()
      requires holo != null ==> holo.Length >= FieldContext.PixelCount(context)
      modifies this
      ensures context == old(context) && complexH == old(complexH) && bCarried == old(bCarried)
      ensures encodeMethod == old(encodeMethod) && ssbPassband == old(ssbPassband)
      ensures encodeX == EncodeWidth(flag, context.nx) && encodeY == context.ny
      ensures fresh(holoEncoded) && fresh(holoNormalized) && HologramReady()
      ensures forall i :: 0 <= i < holoNormalized.Length ==> holoNormalized[i] == 0
      ensures var src := if holo == null then complexH else holo;
        src != null &&
        EncodedBy(m, f, context, flag, src[..FieldContext.PixelCount(context)], holoEncoded[..])
    {
      var src := if holo == null then complexH else holo;
      Reallocate(EncodeWidth(flag, context.nx), context.ny);
      EncodeOrSkip(m, f, context, flag, src, holoEncoded);
    }

    /** encoding(ENCODE_FLAG, passband, holo): always pixel-count sized; the
        off-axis branch first frequency-shifts complex_H in place, but then
        encodes `holo`, which is complex_H only when no field is given. */
    method EncodingPassband(m: Elementary, f: Fourier, flag: EncodeFlag, passband: SingleSideBand.Passband,
                            holo: array?<Complex>)
      requires FieldContext.Valid(context) && Lawful(f)
      requires holo == null || flag.EncodeOffSsb? ==> FieldReady()
      requires holo != null ==> holo.Length >= FieldContext.PixelCount(context)
      modifies this, complexH
      ensures context == old(context) && complexH == old(complexH) && bCarried == old(bCarried)
      ensures encodeMethod == old(encodeMethod) && ssbPassband == old(ssbPassband)
      ensures encodeX == context.nx && encodeY == context.ny
      ensures fresh(holoEncoded) && fresh(holoNormalized) && HologramReady()
      ensures forall i :: 0 <= i < holoNormalized.Length ==> holoNormalized[i] == 0
      ensures flag.EncodeOffSsb? ==> complexH[..] == OffAxis(f, context, old(complexH[..]))
      ensures complexH != null && !flag.EncodeOffSsb? ==> complexH[..] == old(complexH[..])
      ensures holo == null || holo == complexH ==>
        holoEncoded[..] == PassbandEncoded(f, context, flag, passband,
          if flag.EncodeOffSsb? then OffAxis(f, context, old(complexH[..]))
          else old(complexH[..FieldContext.PixelCount(context)]))
      ensures holo != null && holo != complexH ==>
        holoEncoded[..] == PassbandEncoded(f, context, flag, passband, old(holo[..FieldContext.PixelCount(context)]))
    {
      var src := if holo == null then complexH else holo;
      Reallocate(context.nx, context.ny);
      EncodePassbandBuffers(f, context, flag, passband, complexH, src, holoEncoded);
    }

    /** freqShift(complex_H, complex_H, pixel_number, 0, 100), in place. */
    method ShiftField(f: Fourier)
      requires Lawful(f) && FieldReady()
      modifies complexH
      ensures complexH[..] == OffAxis(f, context, old(complexH[..]))
    {
      ShiftInPlace(f, context, complexH);
    }

    /** encoding(): ENCODE_METHOD on complex_H, with SSB_PASSBAND for the
        side-band schemes; the off-axis scheme shifts complex_H and then
        encodes the shifted field. */
    method EncodingMember(m: Elementary, f: Fourier)
      requires FieldContext.Valid(context) && Lawful(f) && FieldReady()
      requires encodeMethod.EncodeBurckhardt? ==> m.sqrt(3.0) != 0.0
      modifies this, complexH
      ensures context == old(context) && complexH == old(complexH) && bCarried == old(bCarried)
      ensures encodeMethod == old(encodeMethod) && ssbPassband == old(ssbPassband)
      ensures encodeX == EncodeWidth(encodeMethod, context.nx) && encodeY == context.ny
      ensures fresh(holoEncoded) && fresh(holoNormalized) && HologramReady()
      ensures forall i :: 0 <= i < holoNormalized.Length ==> holoNormalized[i] == 0
      ensures encodeMethod.EncodeOffSsb? ==> complexH[..] == OffAxis(f, context, old(complexH[..]))
      ensures !encodeMethod.EncodeOffSsb? ==> complexH[..] == old(complexH[..])
      ensures encodeMethod.EncodeSsb? || encodeMethod.EncodeOffSsb? ==>
        holoEncoded[..] == SingleSideBand.SsbOutput(f, complexH[..], context.nx, context.ny, ssbPassband)
      ensures !(encodeMethod.EncodeSsb? || encodeMethod.EncodeOffSsb?) ==>
        EncodedBy(m, f, context, encodeMethod, old(complexH[..]), holoEncoded[..])
    {
      Reallocate(EncodeWidth(encodeMethod, context.nx), context.ny);
      EncodeBuffers(m, f, context, encodeMethod, ssbPassband, complexH, holoEncoded);
    }

    /** waveCarry: the first call sets bCarried and multiplies complex_H by
        the carrier; every later call returns at once. */
    method WaveCarry(m: Elementary, ax: real, ay: real, d: real)
      requires FieldContext.Valid(context) && FieldReady()
      modifies this`bCarried, complexH
      ensures bCarried
      ensures old(bCarried) ==> complexH[..] == old(complexH[..])
      ensures !old(bCarried) ==> exists fx: seq<real>, fy: seq<real> :: (Carrier.GridAgrees(context, fx, fy) &&
        complexH[..] == Carrier.Carried(m, old(complexH[..]), d, ax, ay, fx, fy))
    {
      if !bCarried {
        bCarried := true;
      } else {
        return;
      }
      Carrier.ModulateCarrier(m, context, complexH, ax, ay, d);
    }

    /** propagationAngularSpectrum: add one depth plane into complex_H. */
    method PropagationAngularSpectrum(m: Elementary, input: array<Complex>, dist: real)
      requires FieldContext.Valid(context) && FieldReady()
      requires input.Length >= FieldContext.PixelCount(context)
      modifies complexH
      ensures complexH[..] == AngularSpectrum.Accumulated(m, context, old(complexH[..]),
        old(input[..FieldContext.PixelCount(context)]), dist)
    {
      AngularSpectrum.PropagationAngularSpectrum(m, context, complexH, input, dist);
    }

    /** encodeSideBand on the CPU: nothing without a field; otherwise the
        side-band crop box from the signal location, then the crop,
        transform and demodulation into holo_encoded. */
    method EncodeSideBand(m: Elementary, f: Fourier, sig: SideBand.SigLocation)
      requires FieldContext.Valid(context) && Lawful(f)
      requires complexH != null ==> complexH.Length >= FieldContext.PixelCount(context)
      requires holoEncoded != null && holoEncoded.Length >= FieldContext.PixelCount(context)
      modifies holoEncoded
      ensures complexH == null ==> holoEncoded[..] == old(holoEncoded[..])
      ensures complexH != null ==>
        var n := FieldContext.PixelCount(context);
        var box := SideBand.SideBandBox(context.nx, context.ny, sig);
        holoEncoded[..n] == SideBand.Demodulated(m, context,
          SideBand.CropTransform(f, context, SideBand.Cropped(complexH[..], context.nx, context.ny, box), OphBackward), sig) &&
        holoEncoded[n..] == old(holoEncoded[n..])
    {
      if complexH == null {
        return;
      }
      var box := SideBand.SideBandBox(context.nx, context.ny, sig);
      SideBand.EncodeSideBandCpu(m, f, context, complexH, holoEncoded, box, sig);
    }

    /** The member fresnelPropagation: the pixel count, pitch and wavelength
        come from the context. */
    method FresnelPropagation(m: Elementary, f: Fourier, input: array<Complex>, out: array<Complex>, distance: real)
      requires FieldContext.Valid(context) && Lawful(f)
      requires input.Length >= FieldContext.PixelCount(context) && out.Length >= FieldContext.PixelCount(context)
      modifies out
      ensures var o := Fresnel.Optics(context.nx, context.ny, context.ppx, context.ppy, context.lambda, distance);
        var n := FieldContext.PixelCount(context);
        out[..n] == Fresnel.FresnelOutput(m, f, o, old(input[..n]),
          Fresnel.PaddedShift(o, OphForward, Some(false)), Fresnel.PaddedShift(o, OphBackward, Some(false))) &&
        out[n..] == old(out[n..])
    {
      var o := Fresnel.Optics(context.nx, context.ny, context.ppx, context.ppy, context.lambda, distance);
      Fresnel.PropagateWithContext(m, f, o, input, out);
    }
  }
}
