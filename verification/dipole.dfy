/**
 * The one-shot dipole field synthesis performed by FDTD::step, stated as pure functions:
 * every cell receives the clamped sum of one contribution per magnet. The method that
 * fills the buffer in place (Simulation.Fdtd.Step) is proved against Synthesize.
 */
module Dipole {
  import opened StdMath
  import opened RowMajor
  import opened Config

  /** Cells with squared offset at most this use the pole branch (r <= 2 grid units). */
  const NearThreshold: int := 4
  /** Magnitude of the pole indicator value. */
  const PoleMagnitude: real := 3.0
  /** Visualisation scale applied to far-field magnitudes. */
  const FieldScale: real := 60.0
  /** Every synthesised cell lies in [-FieldClamp, FieldClamp]. */
  const FieldClamp: real := 4.0

  function SquaredDistance(dx: int, dy: int): (r2: int)
    ensures r2 >= 0
  {
    dx * dx + dy * dy
  }

  /**
   * The source tests r > 2 with r = sqrt(dx^2 + dy^2) on integer offsets; since sqrt is
   * monotone and sqrt(4) == 2 exactly, that is dx^2 + dy^2 > 4.
   */
  predicate InNearField(dx: int, dy: int) {
    SquaredDistance(dx, dy) <= NearThreshold
  }

  /**
   * |B|^2 for the dipole field B = (3(m.r)r - m)/|r|^3 at integer offset d = (dx, dy),
   * r the unit vector along d. Multiplying through by |d|^5 gives
   * B = (3(m.d)d - m|d|^2)/|d|^5, so |B|^2 is a rational function of the offset.
   */
  function FieldSquared(m: MagnetConfig, dx: int, dy: int): (b2: real)
    requires SquaredDistance(dx, dy) > 0
    ensures b2 >= 0.0
  {
    NormSquared(ScaledField(m, dx, dy)) / Power(SquaredDistance(dx, dy), 5) as real
  }

  /** The field vector times |d|^5: 3(m.d)d - m|d|^2. */
  function ScaledField(m: MagnetConfig, dx: int, dy: int): (real, real) {
    var r2 := SquaredDistance(dx, dy) as real;
    var dot := m.momentX * dx as real + m.momentY * dy as real;
    (3.0 * dot * dx as real - m.momentX * r2, 3.0 * dot * dy as real - m.momentY * r2)
  }

  function NormSquared(f: (real, real)): (n: real)
    ensures n >= 0.0
  {
    Sq(f.0) + Sq(f.1)
  }

  function Sq(x: real): (s: real)
    ensures s >= 0.0
  {
    x * x
  }

  function Power(b: int, e: nat): (p: int)
    ensures b > 0 ==> p > 0
  {
    if e == 0 then 1
    else
      var q := Power(b, e - 1);
      assert b > 0 ==> b * q > 0 by {
        if b > 0 {
          PositiveProduct(b, q);
        }
      }
      b * q
  }

  lemma SqNegate(x: real)
    ensures Sq(-x) == Sq(x)
  {
    assert (-x) * (-x) == x * x;
  }

  lemma PositiveProduct(a: int, b: int)
    requires a > 0 && b > 0
    ensures a * b > 0
  {
  }

  /**
   * The pole indicator: +3 or -3 following the sign of moment_y, unless |moment_x| is
   * strictly larger, in which case it follows moment_x. A zero component counts as negative.
   */
  function PoleValue(m: MagnetConfig): (p: real)
    ensures p == PoleMagnitude || p == -PoleMagnitude
    ensures Abs(m.momentX) > Abs(m.momentY) ==> (p > 0.0 <==> m.momentX > 0.0)
    ensures Abs(m.momentX) <= Abs(m.momentY) ==> (p > 0.0 <==> m.momentY > 0.0)
  {
    var byY := if m.momentY > 0.0 then PoleMagnitude else -PoleMagnitude;
    if Abs(m.momentX) > Abs(m.momentY) then
      (if m.momentX > 0.0 then PoleMagnitude else -PoleMagnitude)
    else
      byY
  }

  /**
   * One magnet's contribution at offset (dx, dy) from it: the pole value in the near
   * field, otherwise strength * |B| * 60, where sqrt stands for std::sqrt.
   */
  function Contribution(m: MagnetConfig, dx: int, dy: int, sqrt: real -> real): (c: real)
    ensures InNearField(dx, dy) ==> c == m.strength * PoleMagnitude || c == -m.strength * PoleMagnitude
  {
    if SquaredDistance(dx, dy) > NearThreshold then
      m.strength * sqrt(FieldSquared(m, dx, dy)) * FieldScale
    else
      m.strength * PoleValue(m)
  }

  /** The unclamped total at cell (i, j), summed over the magnets in list order; magnets of zero strength add nothing. */
  function Superpose(ms: seq<MagnetConfig>, i: int, j: int, sqrt: real -> real): (total: real)
    ensures (forall m :: m in ms ==> m.strength == 0.0) ==> total == 0.0
    decreases |ms|
  {
    if ms == [] then 0.0
    else
      var m := ms[|ms| - 1];
      Superpose(ms[..|ms| - 1], i, j, sqrt) + Contribution(m, i - m.x, j - m.y, sqrt)
  }

  /** The value stored in cell (i, j): the superposition, clamped to [-4, 4]. */
  function CellField(ms: seq<MagnetConfig>, i: int, j: int, sqrt: real -> real): (v: real)
    ensures -FieldClamp <= v <= FieldClamp
    ensures -FieldClamp <= Superpose(ms, i, j, sqrt) <= FieldClamp ==> v == Superpose(ms, i, j, sqrt)
  {
    Clamp(-FieldClamp, FieldClamp, Superpose(ms, i, j, sqrt))
  }

  /** The whole synthesised buffer, in row-major order. */
  function Synthesize(nx: int, ny: int, ms: seq<MagnetConfig>, sqrt: real -> real): (g: seq<real>)
    requires 0 <= nx && 0 <= ny
    ensures |g| == nx * ny
    ensures forall k :: 0 <= k < |g| ==> -FieldClamp <= g[k] <= FieldClamp
  {
    seq(nx * ny, k requires 0 <= k < nx * ny =>
      HasColumns(nx, ny, k);
      CellField(ms, Col(nx, k), Row(nx, k), sqrt))
  }

  /** The pattern used when no magnet is configured: a north pole flanked by two south poles. */
  function DefaultMagnets(nx: int, ny: int): (ms: seq<MagnetConfig>)
    requires 0 <= nx && 0 <= ny
    ensures |ms| == 3
    ensures forall k :: 0 <= k < |ms| ==> ms[k].y == ny / 2 && ms[k].momentX == 0.0 && ms[k].strength > 0.0
    ensures 0 <= ms[1].x <= ms[0].x <= ms[2].x <= nx
    ensures ms[0].momentY > 0.0 && ms[1].momentY < 0.0 && ms[2].momentY < 0.0
  {
    [ MagnetConfig(nx / 2, ny / 2, 0.0, 1.0, 2.0, "center_north"),
      MagnetConfig(nx / 3, ny / 2, 0.0, -1.0, 1.5, "left_south"),
      MagnetConfig(2 * nx / 3, ny / 2, 0.0, -1.0, 1.5, "right_south") ]
  }

  ghost predicate NonNegativeRoot(sqrt: real -> real) {
    forall x :: 0.0 <= x ==> 0.0 <= sqrt(x)
  }

  // ---------------------------------------------------------------------------------------
  // Properties of the synthesis

  /** Cell (i, j) of the synthesised buffer holds CellField(i, j). */
  lemma SynthesizeCell(nx: int, ny: int, ms: seq<MagnetConfig>, sqrt: real -> real, i: int, j: int)
    requires InGrid(nx, ny, i, j)
    ensures 0 <= Idx(nx, i, j) < |Synthesize(nx, ny, ms, sqrt)|
    ensures Synthesize(nx, ny, ms, sqrt)[Idx(nx, i, j)] == CellField(ms, i, j, sqrt)
  {
    IdxInRange(nx, ny, i, j);
    CellOfIdx(nx, i, j);
  }

  /** A single far-field contribution has the sign of the magnet's strength. */
  lemma FarContributionSign(m: MagnetConfig, dx: int, dy: int, sqrt: real -> real)
    requires NonNegativeRoot(sqrt)
    requires m.strength >= 0.0 && !InNearField(dx, dy)
    ensures Contribution(m, dx, dy, sqrt) >= 0.0
  {
    assert sqrt(FieldSquared(m, dx, dy)) >= 0.0;
  }

  /**
   * The far field contributes a magnitude, never a signed component: at a cell that no
   * magnet has in its near field, non-negative strengths give a non-negative total.
   */
  lemma {:induction false} FarFieldIsMagnitude(ms: seq<MagnetConfig>, i: int, j: int, sqrt: real -> real)
    requires NonNegativeRoot(sqrt)
    requires forall m :: m in ms ==> m.strength >= 0.0 && !InNearField(i - m.x, j - m.y)
    ensures Superpose(ms, i, j, sqrt) >= 0.0
    decreases |ms|
  {
    if ms != [] {
      var m := ms[|ms| - 1];
      assert m in ms;
      FarContributionSign(m, i - m.x, j - m.y, sqrt);
      var init := ms[..|ms| - 1];
      assert forall n :: n in init ==> n in ms;
      FarFieldIsMagnitude(init, i, j, sqrt);
    }
  }

  /** A moment along y gives a field magnitude that is mirror-symmetric in x. */
  lemma FieldSquaredMirror(m: MagnetConfig, dx: int, dy: int)
    requires m.momentX == 0.0 && SquaredDistance(dx, dy) > 0
    ensures SquaredDistance(-dx, dy) == SquaredDistance(dx, dy)
    ensures FieldSquared(m, -dx, dy) == FieldSquared(m, dx, dy)
  {
    assert (-dx) * (-dx) == dx * dx;
    assert (-dx) as real == -(dx as real);
    var f, f' := ScaledField(m, dx, dy), ScaledField(m, -dx, dy);
    assert f'.0 == -f.0 && f'.1 == f.1;
    SqNegate(f.0);
    assert NormSquared(f') == NormSquared(f);
  }

  /** Mirroring the offset of a y-moment magnet leaves its contribution unchanged. */
  lemma ContributionMirror(m: MagnetConfig, dx: int, dy: int, sqrt: real -> real)
    requires m.momentX == 0.0
    ensures Contribution(m, -dx, dy, sqrt) == Contribution(m, dx, dy, sqrt)
  {
    assert SquaredDistance(-dx, dy) == SquaredDistance(dx, dy);
    if SquaredDistance(dx, dy) > NearThreshold {
      FieldSquaredMirror(m, dx, dy);
    }
  }

  /** One step of the mirror argument: if the earlier magnets agree at the two mirrored cells, so do all of them. */
  lemma MirrorStep(ms: seq<MagnetConfig>, c: int, a: int, j: int, sqrt: real -> real)
    requires ms != [] && ms[|ms| - 1].x == c && ms[|ms| - 1].momentX == 0.0
    requires Superpose(ms[..|ms| - 1], c + a, j, sqrt) == Superpose(ms[..|ms| - 1], c - a, j, sqrt)
    ensures Superpose(ms, c + a, j, sqrt) == Superpose(ms, c - a, j, sqrt)
  {
    var m := ms[|ms| - 1];
    ContributionMirror(m, c + a - m.x, j - m.y, sqrt);
    assert c - a - m.x == -(c + a - m.x);
  }

  /**
   * Magnets whose moments point along y and that all sit on the column x == c produce a
   * field that is symmetric under reflection across that column.
   */
  lemma {:induction false} MirrorSymmetry(ms: seq<MagnetConfig>, c: int, a: int, j: int, sqrt: real -> real)
    requires forall m :: m in ms ==> m.x == c && m.momentX == 0.0
    ensures Superpose(ms, c + a, j, sqrt) == Superpose(ms, c - a, j, sqrt)
    ensures CellField(ms, c + a, j, sqrt) == CellField(ms, c - a, j, sqrt)
    decreases |ms|
  {
    if ms != [] {
      var init := ms[..|ms| - 1];
      assert ms[|ms| - 1] in ms;
      assert forall n :: n in init ==> n in ms;
      MirrorSymmetry(init, c, a, j, sqrt);
      MirrorStep(ms, c, a, j, sqrt);
    }
  }

  /**
   * The three fallback magnets are centred to within one cell: the left and right south
   * poles sit at distances from the north pole that differ by at most one.
   */
  lemma FallbackNearlySymmetric(nx: int, ny: int)
    requires 0 <= nx && 0 <= ny
    ensures var ms := DefaultMagnets(nx, ny);
      ms[1].x <= ms[0].x <= ms[2].x &&
      -1 <= (ms[0].x - ms[1].x) - (ms[2].x - ms[0].x) <= 1
  {
    var q, r := nx / 6, nx % 6;
    assert nx == 6 * q + r;
    assert nx / 2 == 3 * q + r / 2;
    assert nx / 3 == 2 * q + r / 3;
    assert 2 * nx / 3 == 4 * q + 2 * r / 3;
  }

  /** The fallback is not exactly symmetric: on a 512-wide grid the gaps are 86 and 85 cells. */
  lemma FallbackAsymmetricAt512()
    ensures var ms := DefaultMagnets(512, 512);
      ms[0].x - ms[1].x == 86 && ms[2].x - ms[0].x == 85
  {
  }

  /**
   * A single dipole at (4, 4) with moment (0, 1). Its own cell shows the pole value +3.
   * On its axis, four rows away at (4, 0), B = 2m/r^3 runs along the moment and the cell
   * shows 60 * 1/32 = 1.875. Broadside, four columns away at (8, 4), B = -m/r^3 points
   * against the moment, yet the cell shows +0.9375 = 60 * 1/64: the far field is a magnitude.
   */
  lemma SingleDipoleScenario(sqrt: real -> real)
    requires sqrt(1.0 / 1024.0) == 1.0 / 32.0 && sqrt(1.0 / 4096.0) == 1.0 / 64.0
    ensures var m := MagnetConfig(4, 4, 0.0, 1.0, 1.0, "magnet");
      CellField([m], 4, 4, sqrt) == 3.0 && CellField([m], 4, 0, sqrt) == 1.875 && CellField([m], 8, 4, sqrt) == 0.9375
    ensures var m := MagnetConfig(4, 4, 0.0, 1.0, 1.0, "magnet");
      ScaledField(m, 0, -4).1 > 0.0 && ScaledField(m, 4, 0).1 < 0.0
  {
    var m := MagnetConfig(4, 4, 0.0, 1.0, 1.0, "magnet");
    assert [m][..0] == [];
    assert ScaledField(m, 0, -4) == (0.0, 32.0);
    assert ScaledField(m, 4, 0) == (0.0, -16.0);
    assert Power(16, 5) == 1048576;
    assert FieldSquared(m, 0, -4) == 1.0 / 1024.0;
    assert FieldSquared(m, 4, 0) == 1.0 / 4096.0;
  }
}
