/**
 * The simulation object of src/FDTD.hpp / src/FDTD.cpp: four row-major nx*ny buffers
 * that its methods update in place, two append-only lists, and the one-shot synthesis
 * guarded by a process-wide latch.
 */
module Simulation {
  import opened RowMajor
  import opened Config
  import opened Waveform
  import opened Dipole

  function Filled(n: nat, v: real): (s: seq<real>)
    ensures |s| == n && forall k :: 0 <= k < n ==> s[k] == v
  {
    seq(n, _ => v)
  }

  /** std::fill over a whole buffer. */
  method Fill(a: array<real>, v: real)
    modifies a
    ensures a[..] == Filled(a.Length, v)
  {
    var k := 0;
    while k < a.Length
      invariant 0 <= k <= a.Length
      invariant forall n :: 0 <= n < k ==> a[n] == v
    {
      a[k] := v;
      k := k + 1;
    }
  }

  // ---------------------------------------------------------------------------------------
  // Material blocks

  /** Whether cell (i, j) lies in the w-by-h rectangle anchored at (x0, y0). */
  predicate InBlock(i: int, j: int, x0: int, y0: int, w: int, h: int) {
    x0 <= i < x0 + w && y0 <= j < y0 + h
  }

  /** The permittivity buffer after writing er over the rectangle, clipped to the grid. */
  function PaintBlock(eps: seq<real>, nx: int, x0: int, y0: int, w: int, h: int, er: real): (p: seq<real>)
    requires nx > 0 || |eps| == 0
    ensures |p| == |eps|
  {
    seq(|eps|, k requires 0 <= k < |eps| =>
      if InBlock(Col(nx, k), Row(nx, k), x0, y0, w, h) then er else eps[k])
  }

  /**
   * Cell (i, j) of the grid receives er exactly when max(0, x0) <= i < min(x0 + w, nx)
   * and max(0, y0) <= j < min(y0 + h, ny); every other cell keeps its value.
   */
  lemma PaintBlockCell(eps: seq<real>, nx: int, ny: int, x0: int, y0: int, w: int, h: int, er: real, i: int, j: int)
    requires 0 <= nx && 0 <= ny && |eps| == nx * ny && InGrid(nx, ny, i, j)
    ensures 0 <= Idx(nx, i, j) < |eps|
    ensures PaintBlock(eps, nx, x0, y0, w, h, er)[Idx(nx, i, j)] ==
      if (if x0 > 0 then x0 else 0) <= i < (if x0 + w < nx then x0 + w else nx) &&
         (if y0 > 0 then y0 else 0) <= j < (if y0 + h < ny then y0 + h else ny)
      then er else eps[Idx(nx, i, j)]
  {
    IdxInRange(nx, ny, i, j);
    CellOfIdx(nx, i, j);
  }

  /** The buffer part-way through the painting loops: cells before row j, or in row j before column i, done. */
  ghost function PaintedBefore(eps: seq<real>, nx: int, x0: int, y0: int, w: int, h: int, er: real, j: int, i: int): (p: seq<real>)
    requires nx > 0 || |eps| == 0
    ensures |p| == |eps|
  {
    seq(|eps|, k requires 0 <= k < |eps| =>
      if InBlock(Col(nx, k), Row(nx, k), x0, y0, w, h) &&
         (Row(nx, k) < j || (Row(nx, k) == j && Col(nx, k) < i))
      then er else eps[k])
  }

  lemma PaintNothingYet(eps: seq<real>, nx: int, ny: int, x0: int, y0: int, w: int, h: int, er: real)
    requires 0 <= nx && 0 <= ny && |eps| == nx * ny
    ensures nx > 0 || |eps| == 0
    ensures PaintedBefore(eps, nx, x0, y0, w, h, er, y0, x0) == eps
  {
    if |eps| > 0 {
      HasColumns(nx, ny, 0);
    }
  }

  lemma PaintCell(eps: seq<real>, nx: int, ny: int, x0: int, y0: int, w: int, h: int, er: real, i: int, j: int)
    requires 0 <= nx && 0 <= ny && |eps| == nx * ny
    requires InGrid(nx, ny, i, j) && InBlock(i, j, x0, y0, w, h)
    ensures nx > 0 && 0 <= Idx(nx, i, j) < |eps|
    ensures PaintedBefore(eps, nx, x0, y0, w, h, er, j, i)[Idx(nx, i, j) := er] ==
            PaintedBefore(eps, nx, x0, y0, w, h, er, j, i + 1)
  {
    IdxInRange(nx, ny, i, j);
    CellOfIdx(nx, i, j);
    forall k | 0 <= k < |eps| && k != Idx(nx, i, j)
      ensures Row(nx, k) != j || Col(nx, k) != i
    {
      IdxOfCell(nx, ny, k);
    }
  }

  lemma PaintOffGrid(eps: seq<real>, nx: int, ny: int, x0: int, y0: int, w: int, h: int, er: real, i: int, j: int)
    requires 0 <= nx && 0 <= ny && |eps| == nx * ny && (nx > 0 || |eps| == 0)
    requires i < 0 || j < 0
    ensures PaintedBefore(eps, nx, x0, y0, w, h, er, j, i) == PaintedBefore(eps, nx, x0, y0, w, h, er, j, i + 1)
  {
    forall k | 0 <= k < |eps|
      ensures 0 <= Row(nx, k) && 0 <= Col(nx, k)
    {
      IdxOfCell(nx, ny, k);
    }
  }

  lemma PaintRowDone(eps: seq<real>, nx: int, ny: int, x0: int, y0: int, w: int, h: int, er: real, i: int, j: int)
    requires 0 <= nx && 0 <= ny && |eps| == nx * ny && (nx > 0 || |eps| == 0)
    requires x0 <= i && (i >= x0 + w || i >= nx)
    ensures PaintedBefore(eps, nx, x0, y0, w, h, er, j, i) == PaintedBefore(eps, nx, x0, y0, w, h, er, j + 1, x0)
  {
    forall k | 0 <= k < |eps|
      ensures Col(nx, k) < nx
    {
      IdxOfCell(nx, ny, k);
    }
  }

  lemma PaintAllDone(eps: seq<real>, nx: int, ny: int, x0: int, y0: int, w: int, h: int, er: real, j: int)
    requires 0 <= nx && 0 <= ny && |eps| == nx * ny && (nx > 0 || |eps| == 0)
    requires j >= y0 + h || j >= ny
    ensures PaintedBefore(eps, nx, x0, y0, w, h, er, j, x0) == PaintBlock(eps, nx, x0, y0, w, h, er)
  {
    forall k | 0 <= k < |eps|
      ensures Row(nx, k) < ny
    {
      IdxOfCell(nx, ny, k);
    }
  }

  /** Block b's rectangle contains the cell stored at address k. */
  predicate Covers(b: MaterialBlock, nx: int, k: int)
    requires nx > 0
  {
    InBlock(Col(nx, k), Row(nx, k), b.x0, b.y0, b.w, b.h)
  }

  /**
   * Painting a list of blocks one after the other, as the configuration lists them: a cell no
   * block covers keeps its value, and a cell the last block covers holds that block's value.
   */
  function PaintAll(eps: seq<real>, nx: int, blocks: seq<MaterialBlock>): (p: seq<real>)
    requires nx > 0 || |eps| == 0
    ensures |p| == |eps|
    ensures forall k :: 0 <= k < |eps| && (forall b :: b in blocks ==> !Covers(b, nx, k)) ==> p[k] == eps[k]
    ensures blocks != [] ==>
      forall k :: 0 <= k < |eps| && Covers(blocks[|blocks| - 1], nx, k) ==> p[k] == blocks[|blocks| - 1].epsR
    decreases |blocks|
  {
    if blocks == [] then eps
    else
      var b := blocks[|blocks| - 1];
      var earlier := blocks[..|blocks| - 1];
      assert b in blocks && forall x :: x in earlier ==> x in blocks;
      PaintBlock(PaintAll(eps, nx, earlier), nx, b.x0, b.y0, b.w, b.h, b.epsR)
  }

  // ---------------------------------------------------------------------------------------
  // Source injection

  /** Source s sits on a grid cell whose address is k. */
  predicate Hosts(s: Source, nx: int, ny: int, k: int) {
    InGrid(nx, ny, s.conf.x, s.conf.y) && Idx(nx, s.conf.x, s.conf.y) == k
  }

  predicate AllWellFormed(srcs: seq<Source>) {
    forall s :: s in srcs ==> WellFormed(s.conf)
  }

  /**
   * What the sources of srcs add to cell k at step t: the sum over the in-grid sources sitting
   * on k. A cell that hosts no in-grid source receives nothing.
   */
  function Deposit(srcs: seq<Source>, nx: int, ny: int, k: int, t: real, math: Numerics): (d: real)
    requires AllWellFormed(srcs)
    ensures (forall s :: s in srcs ==> !Hosts(s, nx, ny, k)) ==> d == 0.0
    decreases |srcs|
  {
    if srcs == [] then 0.0
    else
      var s := srcs[|srcs| - 1];
      assert s in srcs;
      Deposit(srcs[..|srcs| - 1], nx, ny, k, t, math) + (if Hosts(s, nx, ny, k) then s.Value(t, math) else 0.0)
  }

  /** Two in-grid sources on the same cell both land there: their values add up. */
  lemma CoLocatedAccumulate(s1: Source, s2: Source, nx: int, ny: int, t: real, math: Numerics)
    requires WellFormed(s1.conf) && WellFormed(s2.conf)
    requires InGrid(nx, ny, s1.conf.x, s1.conf.y) && s2.conf.x == s1.conf.x && s2.conf.y == s1.conf.y
    ensures AllWellFormed([s1, s2])
    ensures Deposit([s1, s2], nx, ny, Idx(nx, s1.conf.x, s1.conf.y), t, math) == s1.Value(t, math) + s2.Value(t, math)
  {
    var k := Idx(nx, s1.conf.x, s1.conf.y);
    assert [s1, s2][..1] == [s1] && [s1][..0] == [];
    assert Hosts(s1, nx, ny, k) && Hosts(s2, nx, ny, k);
    assert Deposit([s1], nx, ny, k, t, math) == s1.Value(t, math);
  }

  /** A source outside the grid contributes to no cell, wherever it stands in the list. */
  lemma {:induction false} DepositSkipsOutside(a: seq<Source>, s: Source, b: seq<Source>, nx: int, ny: int, k: int, t: real, math: Numerics)
    requires AllWellFormed(a + [s] + b)
    requires !InGrid(nx, ny, s.conf.x, s.conf.y)
    ensures AllWellFormed(a + b)
    ensures Deposit(a + [s] + b, nx, ny, k, t, math) == Deposit(a + b, nx, ny, k, t, math)
    decreases |b|
  {
    assert forall x :: x in a + b ==> x in a + [s] + b;
    if b == [] {
      assert a + [s] + b == a + [s];
      assert (a + [s])[..|a|] == a;
      assert a + b == a;
    } else {
      var last := b[|b| - 1];
      var b' := b[..|b| - 1];
      assert a + [s] + b == (a + [s] + b') + [last];
      assert a + b == (a + b') + [last];
      assert forall x :: x in a + [s] + b' ==> x in a + [s] + b;
      DepositSkipsOutside(a, s, b', nx, ny, k, t, math);
      assert (a + [s] + b)[..|a + [s] + b| - 1] == a + [s] + b';
      assert (a + b)[..|a + b| - 1] == a + b';
    }
  }

  /** The innermost loop of the synthesis: the unclamped sum of every magnet's contribution at (i, j). */
  method SuperposeAt(ms: seq<MagnetConfig>, i: int, j: int, sqrt: real -> real) returns (total: real)
    ensures total == Superpose(ms, i, j, sqrt)
  {
    total := 0.0;
    var m := 0;
    while m < |ms|
      invariant 0 <= m <= |ms|
      invariant total == Superpose(ms[..m], i, j, sqrt)
    {
      var mag := ms[m];
      assert ms[..m + 1][..m] == ms[..m] && ms[..m + 1][m] == mag;
      total := total + Contribution(mag, i - mag.x, j - mag.y, sqrt);
      m := m + 1;
    }
    assert ms[..|ms|] == ms;
  }

  // ---------------------------------------------------------------------------------------
  // The simulation object

  /** The function-local `static bool initialized` of FDTD::step: one flag for the whole process. */
  class StepLatch {
    var initialized: bool

    constructor ()
      ensures !initialized
    {
      initialized := false;
    }
  }

  class Fdtd {
    const nx: int
    const ny: int
    const dx: real
    const dy: real
    const ez: array<real>
    const hx: array<real>
    const hy: array<real>
    const epsR: array<real>
    var sources: seq<Source>
    var magnets: seq<MagnetConfig>

    /** The four buffers are distinct and each holds one value per grid cell. */
    ghost predicate Valid() {
      0 <= nx && 0 <= ny &&
      ez.Length == nx * ny && hx.Length == nx * ny && hy.Length == nx * ny && epsR.Length == nx * ny &&
      ez != hx && ez != hy && ez != epsR && hx != hy && hx != epsR && hy != epsR
    }

    constructor (nx: int, ny: int, dx: real, dy: real)
      requires 0 <= nx && 0 <= ny
      ensures Valid()
      ensures this.nx == nx && this.ny == ny && this.dx == dx && this.dy == dy
      ensures ez[..] == Filled(nx * ny, 0.0) && hx[..] == Filled(nx * ny, 0.0) && hy[..] == Filled(nx * ny, 0.0)
      ensures epsR[..] == Filled(nx * ny, 1.0)
      ensures sources == [] && magnets == []
      ensures fresh(ez) && fresh(hx) && fresh(hy) && fresh(epsR)
    {
      this.nx, this.ny, this.dx, this.dy := nx, ny, dx, dy;
      ez := new real[nx * ny](_ => 0.0);
      hx := new real[nx * ny](_ => 0.0);
      hy := new real[nx * ny](_ => 0.0);
      epsR := new real[nx * ny](_ => 1.0);
      sources, magnets := [], [];
    }

    /** Zeroes the three field buffers; the permittivity and both lists are kept. */
    method Reset()
      requires Valid()
      modifies ez, hx, hy
      ensures ez[..] == Filled(nx * ny, 0.0) && hx[..] == Filled(nx * ny, 0.0) && hy[..] == Filled(nx * ny, 0.0)
      ensures unchanged(epsR) && sources == old(sources) && magnets == old(magnets)
    {
      Fill(ez, 0.0);
      Fill(hx, 0.0);
      Fill(hy, 0.0);
      // Source::reset has an empty body: the sources are left as they are.
    }

    /** Writes er into every grid cell of the rectangle; cells outside it are untouched. */
    method AddMaterialBlock(x0: int, y0: int, w: int, h: int, er: real)
      requires Valid()
      modifies epsR
      ensures epsR[..] == PaintBlock(old(epsR[..]), nx, x0, y0, w, h, er)
    {
      ghost var e := epsR[..];
      PaintNothingYet(e, nx, ny, x0, y0, w, h, er);
      var j := y0;
      while j < y0 + h && j < ny
        invariant y0 <= j
        invariant epsR[..] == PaintedBefore(e, nx, x0, y0, w, h, er, j, x0)
        decreases ny - j
      {
        var i := x0;
        while i < x0 + w && i < nx
          invariant x0 <= i
          invariant epsR[..] == PaintedBefore(e, nx, x0, y0, w, h, er, j, i)
          decreases nx - i
        {
          if i >= 0 && j >= 0 {
            PaintCell(e, nx, ny, x0, y0, w, h, er, i, j);
            epsR[Idx(nx, i, j)] := er;
          } else {
            PaintOffGrid(e, nx, ny, x0, y0, w, h, er, i, j);
          }
          i := i + 1;
        }
        PaintRowDone(e, nx, ny, x0, y0, w, h, er, i, j);
        j := j + 1;
      }
      PaintAllDone(e, nx, ny, x0, y0, w, h, er, j);
    }

    method AddSource(conf: SourceConfig)
      modifies this`sources
      ensures sources == old(sources) + [Source(conf)]
    {
      sources := sources + [Source(conf)];
    }

    method AddMagnet(conf: MagnetConfig)
      modifies this`magnets
      ensures magnets == old(magnets) + [conf]
    {
      magnets := magnets + [conf];
    }

    /** Adds each in-grid source's value at step nstep to the cell it sits on. */
    method ApplySources(nstep: int, math: Numerics)
      requires Valid() && AllWellFormed(sources)
      modifies ez
      ensures forall k :: 0 <= k < ez.Length ==>
        ez[k] == old(ez[k]) + Deposit(sources, nx, ny, k, nstep as real, math)
    {
      var n := 0;
      assert sources[..0] == [];
      ghost var t := nstep as real;
      assert forall k :: 0 <= k < ez.Length ==> Deposit(sources[..0], nx, ny, k, t, math) == 0.0;
      while n < |sources|
        invariant 0 <= n <= |sources|
        invariant AllWellFormed(sources[..n])
        invariant forall k :: 0 <= k < ez.Length ==>
          ez[k] == old(ez[k]) + Deposit(sources[..n], nx, ny, k, nstep as real, math)
      {
        var s := sources[n];
        assert sources[..n + 1][..n] == sources[..n] && sources[..n + 1][n] == s;
        var i, j := s.conf.x, s.conf.y;
        if !(i < 0 || i >= nx || j < 0 || j >= ny) {
          assert s in sources;
          var val := s.Value(nstep as real, math);
          IdxInRange(nx, ny, i, j);
          ez[Idx(nx, i, j)] := ez[Idx(nx, i, j)] + val;
        }
        n := n + 1;
      }
      assert sources[..|sources|] == sources;
    }

    /**
     * The first call in the process synthesises the dipole field into ez (substituting the
     * fallback magnets when none are configured) and closes the latch; later calls, on
     * this or any other object, change nothing.
     */
    method Step(latch: StepLatch, sqrt: real -> real)
      requires Valid()
      modifies this`magnets, ez, latch
      ensures latch.initialized
      ensures old(latch.initialized) ==> magnets == old(magnets) && ez[..] == old(ez[..])
      ensures !old(latch.initialized) ==>
        magnets == (if old(magnets) == [] then DefaultMagnets(nx, ny) else old(magnets)) &&
        ez[..] == Synthesize(nx, ny, magnets, sqrt)
      ensures forall k :: 0 <= k < ez.Length ==> !old(latch.initialized) ==> -FieldClamp <= ez[k] <= FieldClamp
    {
      if !latch.initialized {
        Fill(ez, 0.0);
        if magnets == [] {
          magnets := DefaultMagnets(nx, ny);
        }
        SynthesizeInPlace(sqrt);
        latch.initialized := true;
      }
    }

    /** The body of the first step: every cell gets the clamped superposition of all magnets. */
    method SynthesizeInPlace(sqrt: real -> real)
      requires Valid()
      modifies ez
      ensures ez[..] == Synthesize(nx, ny, magnets, sqrt)
    {
      ghost var g := Synthesize(nx, ny, magnets, sqrt);
      var j := 0;
      while j < ny
        invariant 0 <= j <= ny
        invariant forall k :: 0 <= k < ez.Length && k < j * nx ==> ez[k] == g[k]
      {
        var i := 0;
        while i < nx
          invariant 0 <= i <= nx
          invariant forall k :: 0 <= k < ez.Length && k < j * nx + i ==> ez[k] == g[k]
        {
          var total := SuperposeAt(magnets, i, j, sqrt);
          total := StdMath.Clamp(-FieldClamp, FieldClamp, total);
          SynthesizeCell(nx, ny, magnets, sqrt, i, j);
          ez[Idx(nx, i, j)] := total;
          i := i + 1;
        }
        MulSucc(j, nx);
        j := j + 1;
      }
      assert ez[..] == g;
    }

    /** The synthesised field, read without changing anything. */
    method GetEz() returns (field: seq<real>)
      ensures field == ez[..]
    {
      field := ez[..];
    }
  }
}
