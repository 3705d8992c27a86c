/** The configuration records the core consumes (src/Config.hpp). Loading them from JSON is not modelled. */
module Config {

  /** A wave excitation: waveform kind ("gaussian", "cw", "static" or anything else), cell, and shape. */
  datatype SourceConfig = SourceConfig(
    kind: string, x: int, y: int, amplitude: real, t0: real, spread: real, freqHz: real)

  /** A point dipole: cell, moment vector, strength and a label. */
  datatype MagnetConfig = MagnetConfig(
    x: int, y: int, momentX: real, momentY: real, strength: real, name: string)

  /** A rectangle of relative permittivity anchored at (x0, y0). */
  datatype MaterialBlock = MaterialBlock(x0: int, y0: int, w: int, h: int, epsR: real)
}
