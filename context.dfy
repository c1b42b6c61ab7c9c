/** The field context: pixel count, pixel pitch, wavelength and the two
    quantities derived from them, the sensor size ss = n * pitch and the wave
    number k = 2 * pi / lambda. */
module FieldContext {
  import opened Complex

  datatype Context = Context(
    nx: nat, ny: nat,        // pixel_number
    ppx: real, ppy: real,    // pixel_pitch
    lambda: real,            // wave_length[0]
    k: real,                 // wave number
    ssx: real, ssy: real)    // sensor size

  /** A context the propagation and encoding code can divide by: positive
      pixel counts, pitches, wavelength, sensor sizes and wave number. */
  predicate Valid(c: Context)
  {
    c.nx > 0 && c.ny > 0 && c.ppx > 0.0 && c.ppy > 0.0 && c.lambda > 0.0
    && c.k > 0.0 && c.ssx > 0.0 && c.ssy > 0.0
  }

  function PixelCount(c: Context): nat
  {
    c.nx * c.ny
  }

  /** The derivation every readConfig overload ends with. */
  function Derive(nx: nat, ny: nat, ppx: real, ppy: real, lambda: real): (c: Context)
    requires lambda != 0.0
    ensures c.k * lambda == 2.0 * Pi
    ensures c.ssx == nx as real * ppx && c.ssy == ny as real * ppy
    ensures c.nx == nx && c.ny == ny && c.ppx == ppx && c.ppy == ppy && c.lambda == lambda
    ensures nx > 0 && ny > 0 && ppx > 0.0 && ppy > 0.0 && lambda > 0.0 <==> Valid(c)
  {
    Context(nx, ny, ppx, ppy, lambda, (2.0 * Pi) / lambda, nx as real * ppx, ny as real * ppy)
  }
}
