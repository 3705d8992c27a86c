/**
 * The scalar-to-colour transfer function of src/Renderer.cpp (Renderer::mapValue): a value is
 * divided by the colour range, clamped to [-1, 1], and coloured by a near-zero cutoff and seven
 * bands chosen with strict `<` thresholds. Floats are reals here; every `unsigned char` cast is
 * the floor of a value proved to lie in [0, 256).
 */
module Colour {
  import opened StdMath

  type Byte = x: int | 0 <= x < 256

  datatype Color = Color(r: Byte, g: Byte, b: Byte, a: Byte)

  const Black: Color := Color(0, 0, 0, 255)
  const NearZeroColor: Color := Color(0, 48, 64, 255)
  /** The colour of n == 1: every value at or above the colour range. */
  const NorthPoleColor: Color := Color(255, 0, 32, 255)
  /** The colour of n == -1: every value at or below minus the colour range. */
  const SouthPoleColor: Color := Color(64, 0, 255, 255)

  const NearZeroCutoff: real := 0.01

  /** static_cast<unsigned char> of a non-negative value below 256: truncation toward zero. */
  function ToByte(x: real): (b: Byte)
    requires 0.0 <= x < 256.0
    ensures b as real <= x < b as real + 1.0
  {
    x.Floor
  }

  datatype Band = SouthPole | SouthStrong | SouthMedium | Neutral | NorthMedium | NorthStrong | NorthPole

  /** The band the chain of strict `<` tests selects for a normalised value. */
  function BandOf(n: real): (b: Band)
    ensures b == SouthPole <==> n < -0.8
    ensures b == SouthStrong <==> -0.8 <= n < -0.4
    ensures b == SouthMedium <==> -0.4 <= n < -0.1
    ensures b == Neutral <==> -0.1 <= n < 0.1
    ensures b == NorthMedium <==> 0.1 <= n < 0.4
    ensures b == NorthStrong <==> 0.4 <= n < 0.8
    ensures b == NorthPole <==> 0.8 <= n
  {
    if n < -0.8 then SouthPole
    else if n < -0.4 then SouthStrong
    else if n < -0.1 then SouthMedium
    else if n < 0.1 then Neutral
    else if n < 0.4 then NorthMedium
    else if n < 0.8 then NorthStrong
    else NorthPole
  }

  /** Where |n| sits inside its band, from 0 at the band's inner edge to 1 at its outer edge. */
  function BandParameter(n: real): (t: real)
    requires -1.0 <= n <= 1.0
    ensures 0.0 <= t <= 1.0
  {
    var m := Abs(n);
    match BandOf(n)
    case SouthPole => (m - 0.8) / 0.2
    case SouthStrong => (m - 0.4) / 0.4
    case SouthMedium => (m - 0.1) / 0.3
    case Neutral => m / 0.1
    case NorthMedium => (m - 0.1) / 0.3
    case NorthStrong => (m - 0.4) / 0.4
    case NorthPole => (m - 0.8) / 0.2
  }

  /**
   * The per-band colour formula at parameter t. Every channel formula stays inside [0, 255];
   * the south bands are blue (blue at least 128), the north bands carry almost no blue, and
   * the neutral band has no red.
   */
  function Shade(band: Band, t: real): (c: Color)
    requires 0.0 <= t <= 1.0
    ensures c.a == 255
    ensures band in {SouthPole, SouthStrong, SouthMedium} ==> c.b >= 128 && c.r <= 64
    ensures band in {NorthMedium, NorthStrong, NorthPole} ==> c.b <= 32 && c.g <= 255
    ensures band == Neutral ==> c.r == 0 && 64 <= c.g <= 160
  {
    match band
    case SouthPole => Color(ToByte(64.0 * t), 0, 255, 255)
    case SouthStrong => Color(0, 0, ToByte(128.0 + 127.0 * t), 255)
    case SouthMedium => Color(0, ToByte(64.0 + 128.0 * t), 255, 255)
    case Neutral => Color(0, ToByte(64.0 + 96.0 * t), ToByte(64.0 * (1.0 - t)), 255)
    case NorthMedium => Color(ToByte(128.0 * t), ToByte(160.0 + 95.0 * t), 0, 255)
    case NorthStrong => Color(ToByte(128.0 + 127.0 * t), ToByte(255.0 * (1.0 - 0.3 * t)), 0, 255)
    case NorthPole => Color(255, ToByte(180.0 * (1.0 - t)), ToByte(32.0 * t), 255)
  }

  /**
   * v divided by the colour range and clamped to [-1, 1]. A zero range divides by zero in
   * floating point: a negative v gives -inf, which clamps to -1; a positive v gives +inf and
   * 0/0 gives NaN, and both end at 1, because std::min(1, NaN) returns its first argument.
   */
  function Normalize(v: real, range: real): (n: real)
    ensures -1.0 <= n <= 1.0
    ensures range != 0.0 && -1.0 <= v / range <= 1.0 ==> n == v / range
    ensures range != 0.0 && v / range >= 1.0 ==> n == 1.0
    ensures range != 0.0 && v / range <= -1.0 ==> n == -1.0
    ensures range == 0.0 ==> (n == -1.0 <==> v < 0.0) && (n == 1.0 <==> v >= 0.0)
  {
    if range == 0.0 then (if v < 0.0 then -1.0 else 1.0)
    else Clamp(-1.0, 1.0, v / range)
  }

  /** The colour of an already normalised value. */
  function MapNormalized(n: real): (c: Color)
    requires -1.0 <= n <= 1.0
    ensures c.a == 255
    ensures Abs(n) < NearZeroCutoff ==> c == NearZeroColor
    ensures n == 1.0 ==> c == NorthPoleColor
    ensures n == -1.0 ==> c == SouthPoleColor
  {
    if Abs(n) < NearZeroCutoff then NearZeroColor else Shade(BandOf(n), BandParameter(n))
  }

  /** Renderer::mapValue: the colour of field value v under colour range `range`. */
  function MapValue(v: real, range: real): (c: Color)
    ensures c.a == 255
    ensures range != 0.0 && Abs(v / range) < NearZeroCutoff ==> c == NearZeroColor
    ensures range != 0.0 && v / range >= 1.0 ==> c == NorthPoleColor
    ensures range != 0.0 && v / range <= -1.0 ==> c == SouthPoleColor
    ensures range == 0.0 ==> c == if v < 0.0 then SouthPoleColor else NorthPoleColor
  {
    MapNormalized(Normalize(v, range))
  }

  /** With a positive range, everything at or beyond the range saturates to a pole colour. */
  lemma Saturation(v: real, range: real)
    requires range > 0.0
    ensures v >= range ==> MapValue(v, range) == NorthPoleColor
    ensures v <= -range ==> MapValue(v, range) == SouthPoleColor
  {
    var q := v / range;
    assert q * range == v;
    if v >= range && q < 1.0 {
      PositiveRealProduct(1.0 - q, range);
    }
    if v <= -range && q > -1.0 {
      PositiveRealProduct(q + 1.0, range);
    }
  }

  lemma PositiveRealProduct(a: real, b: real)
    requires a > 0.0 && b > 0.0
    ensures a * b > 0.0
  {
  }

  /**
   * The colour depends on v only through v / range: scaling both by c changes nothing. With
   * c = -1 this says that a negative range shows the field with its colours inverted.
   */
  lemma ScaleInvariant(v: real, range: real, c: real)
    requires range != 0.0 && c != 0.0
    ensures c * range != 0.0
    ensures MapValue(c * v, c * range) == MapValue(v, range)
  {
    CancelFactor(v, range, c);
    assert Normalize(c * v, c * range) == Normalize(v, range);
  }

  lemma CancelFactor(v: real, range: real, c: real)
    requires range != 0.0 && c != 0.0
    ensures c * range != 0.0
    ensures (c * v) / (c * range) == v / range
  {
    var q := v / range;
    assert q * range == v;
    assert q * (c * range) == c * v;
  }

  /** In the neutral band the colour depends only on |n|: n and -n look the same. */
  lemma NeutralSymmetric(n: real)
    requires NearZeroCutoff <= Abs(n) < 0.1
    ensures MapNormalized(n) == MapNormalized(-n)
  {
    assert BandOf(n) == Neutral && BandOf(-n) == Neutral;
  }

  /**
   * The bands do not join up everywhere: at -0.4 green leaps from 0 to 192, at -0.1 blue drops
   * from 255 to 0, and green goes 178 -> 180 -> falling again around 0.8.
   */
  lemma BandJumps()
    ensures forall n :: -0.8 <= n < -0.4 ==> MapNormalized(n).g == 0
    ensures MapNormalized(-0.4) == Color(0, 192, 255, 255)
    ensures forall n :: -0.4 <= n < -0.1 ==> MapNormalized(n).b == 255
    ensures MapNormalized(-0.1) == Color(0, 160, 0, 255)
    ensures MapNormalized(0.799).g == 178 && MapNormalized(0.8).g == 180
  {
    assert BandParameter(-0.4) == 1.0;
    assert BandParameter(-0.1) == 1.0;
    assert BandParameter(0.8) == 0.0;
    assert BandParameter(0.799) == 0.9975;
  }
}
