/** The wave excitation of src/FDTD.hpp (class Source): a pure dispatch on the waveform kind. */
module Waveform {
  import opened Config

  const Pi: real := 3.14159265358979323846

  /**
   * The transcendental functions Source::value calls (std::exp, std::sin). They are
   * library code outside the model, so they are passed in rather than defined.
   */
  datatype Numerics = Numerics(exp: real -> real, sin: real -> real)

  /** A gaussian divides by its spread, so a gaussian source needs a non-zero spread. */
  predicate WellFormed(c: SourceConfig) {
    c.kind == "gaussian" ==> c.spread != 0.0
  }

  /** The exponent -((t - t0) / spread)^2 of a gaussian pulse. */
  function GaussianExponent(t: real, t0: real, spread: real): (e: real)
    requires spread != 0.0
    ensures e <= 0.0
  {
    var arg := (t - t0) / spread;
    -arg * arg
  }

  datatype Source = Source(conf: SourceConfig) {

    /** The excitation at step index t. */
    function Value(t: real, math: Numerics): (r: real)
      requires WellFormed(conf)
      ensures conf.kind == "static" ==> r == conf.amplitude
      ensures conf.kind !in {"gaussian", "cw", "static"} ==> r == 0.0
    {
      if conf.kind == "gaussian" then
        conf.amplitude * math.exp(GaussianExponent(t, conf.t0, conf.spread))
      else if conf.kind == "cw" then
        conf.amplitude * math.sin(2.0 * Pi * conf.freqHz * t)
      else if conf.kind == "static" then
        conf.amplitude
      else
        0.0
    }
  }

  /** A gaussian peaks at its centre step t0 with exactly its amplitude. */
  lemma GaussianPeak(s: Source, math: Numerics)
    requires s.conf.kind == "gaussian" && s.conf.spread != 0.0
    requires math.exp(0.0) == 1.0
    ensures s.Value(s.conf.t0, math) == s.conf.amplitude
  {
    assert GaussianExponent(s.conf.t0, s.conf.t0, s.conf.spread) == 0.0;
  }

  /** A gaussian is symmetric about its centre step, whatever exp is. */
  lemma GaussianSymmetric(s: Source, d: real, math: Numerics)
    requires s.conf.kind == "gaussian" && s.conf.spread != 0.0
    ensures s.Value(s.conf.t0 + d, math) == s.Value(s.conf.t0 - d, math)
  {
    var spread := s.conf.spread;
    var a, b := (s.conf.t0 + d - s.conf.t0) / spread, (s.conf.t0 - d - s.conf.t0) / spread;
    assert b == -a;
    assert GaussianExponent(s.conf.t0 + d, s.conf.t0, spread) == GaussianExponent(s.conf.t0 - d, s.conf.t0, spread);
  }
}
