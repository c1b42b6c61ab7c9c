/** The Fourier and array helpers that the generator calls but does not
    define (fft2 with fftwShift, circShift, oph::normalize). They are left
    uninterpreted: a `Fourier` value carries one function per helper, and
    `Lawful` states the only facts the model relies on, the sizes of the
    buffers they fill. */
module Fourier {
  import opened Complex
  import opened Wrappers

  /** The direction argument of a fftwShift call: one of the two named
      constants, or an integer literal written at the call site. */
  datatype Direction = OphForward | OphBackward | Literal(code: int)

  /** The arguments of one fftwShift call (which moves the zero frequency and
      runs the FFT planned by the preceding fft2 call): the width and height
      it is given, the direction, and the normalisation flag (None when the
      call leaves that parameter at its default). */
  datatype ShiftCall = ShiftCall(width: nat, height: nat, dir: Direction, normalized: Option<bool>)

  datatype Fourier = Fourier(
    /** fft2 followed by fftwShift(src, dst, width, height, dir, normalized) */
    shift: (seq<Complex>, ShiftCall) -> seq<Complex>,
    /** oph::circShift(src, dst, shiftX, shiftY, width, height) */
    circShift: (seq<Complex>, int, int, nat, nat) -> seq<Complex>,
    /** oph::normalize over a real buffer */
    normalize: seq<real> -> seq<real>,
    /** oph::normalize over a complex buffer */
    normalizeComplex: seq<Complex> -> seq<Complex>)

  /** fftwShift fills width * height samples; circShift fills width * height
      samples; both normalisations fill as many samples as they read. */
  ghost predicate Lawful(f: Fourier)
  {
    && (forall s, c :: |f.shift(s, c)| == c.width * c.height)
    && (forall s, x: int, y: int, w: nat, h: nat :: |f.circShift(s, x, y, w, h)| == w * h)
    && (forall s :: |f.normalize(s)| == |s|)
    && (forall s :: |f.normalizeComplex(s)| == |s|)
  }

  /** ophGen::freqShift: forward transform, circular shift of the spectrum by
      (shiftX, shiftY), backward transform. */
  function FreqShift(f: Fourier, src: seq<Complex>, nx: nat, ny: nat, shiftX: int, shiftY: int): (r: seq<Complex>)
    requires Lawful(f)
    ensures |r| == nx * ny
  {
    var spectrum := f.shift(src, ShiftCall(nx, ny, OphForward, None));
    var shifted := f.circShift(spectrum, shiftX, shiftY, nx, ny);
    f.shift(shifted, ShiftCall(nx, ny, OphBackward, None))
  }

  /** The real part of every sample (oph::realPart). */
  function RealParts(s: seq<Complex>): (r: seq<real>)
    ensures |r| == |s|
    ensures forall i :: 0 <= i < |s| ==> r[i] == s[i].re
  {
    seq(|s|, i requires 0 <= i < |s| => s[i].re)
  }
}
