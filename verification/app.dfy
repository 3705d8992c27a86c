/**
 * The parts of src/main.cpp that drive the model: building the simulation and renderer from the
 * configuration, the single sim.step() before the window loop, the default colour range captured
 * from the configuration, and the per-frame key handling followed by a redraw.
 */
module App {
  import opened Config
  import opened Waveform
  import opened Dipole
  import opened Simulation
  import opened Colour
  import opened Display
  import opened RangeControl

  /** The source objects addSource builds from the configured records, in order. */
  function Wrap(confs: seq<SourceConfig>): (srcs: seq<Source>)
    ensures |srcs| == |confs| && forall k :: 0 <= k < |confs| ==> srcs[k].conf == confs[k]
  {
    seq(|confs|, k requires 0 <= k < |confs| => Source(confs[k]))
  }

  /**
   * Everything main() does before the window loop: the grid with its material blocks, sources and
   * magnets, the renderer at the configured range, the one synthesis step, and the default range.
   */
  method Startup(nx: int, ny: int, dx: real, dy: real, materials: seq<MaterialBlock>,
                 sourceConfs: seq<SourceConfig>, magnetConfs: seq<MagnetConfig>, colorRange: real,
                 latch: StepLatch, sqrt: real -> real)
    returns (sim: Fdtd, renderer: Renderer, defaultRange: real)
    requires 0 <= nx && 0 <= ny && !latch.initialized
    modifies latch
    ensures sim.Valid() && sim.nx == nx && sim.ny == ny
    ensures nx > 0 || nx * ny == 0
    ensures sim.epsR[..] == PaintAll(Filled(nx * ny, 1.0), nx, materials)
    ensures sim.sources == Wrap(sourceConfs)
    ensures sim.magnets == if magnetConfs == [] then DefaultMagnets(nx, ny) else magnetConfs
    ensures sim.ez[..] == Synthesize(nx, ny, sim.magnets, sqrt)
    ensures latch.initialized
    ensures renderer.Valid() && renderer.nx == nx && renderer.ny == ny && renderer.colorRange == colorRange
    ensures defaultRange == colorRange
    ensures fresh(sim) && fresh(sim.ez) && fresh(sim.epsR) && fresh(renderer) && fresh(renderer.image)
  {
    sim := new Fdtd(nx, ny, dx, dy);
    var n := 0;
    while n < |materials|
      invariant 0 <= n <= |materials|
      invariant sim.epsR[..] == PaintAll(Filled(nx * ny, 1.0), nx, materials[..n])
      invariant sim.sources == [] && sim.magnets == []
      modifies sim.epsR
    {
      var m := materials[n];
      assert materials[..n + 1][..n] == materials[..n] && materials[..n + 1][n] == m;
      sim.AddMaterialBlock(m.x0, m.y0, m.w, m.h, m.epsR);
      n := n + 1;
    }
    assert materials[..|materials|] == materials;
    n := 0;
    while n < |sourceConfs|
      invariant 0 <= n <= |sourceConfs|
      invariant sim.sources == Wrap(sourceConfs[..n]) && sim.magnets == []
      invariant sim.epsR[..] == PaintAll(Filled(nx * ny, 1.0), nx, materials)
      modifies sim`sources
    {
      sim.AddSource(sourceConfs[n]);
      assert Wrap(sourceConfs[..n + 1]) == Wrap(sourceConfs[..n]) + [Source(sourceConfs[n])];
      n := n + 1;
    }
    assert sourceConfs[..|sourceConfs|] == sourceConfs;
    n := 0;
    while n < |magnetConfs|
      invariant 0 <= n <= |magnetConfs|
      invariant sim.magnets == magnetConfs[..n] && sim.sources == Wrap(sourceConfs)
      invariant sim.epsR[..] == PaintAll(Filled(nx * ny, 1.0), nx, materials)
      modifies sim`magnets
    {
      sim.AddMagnet(magnetConfs[n]);
      assert magnetConfs[..n + 1] == magnetConfs[..n] + [magnetConfs[n]];
      n := n + 1;
    }
    assert magnetConfs[..|magnetConfs|] == magnetConfs;
    renderer := new Renderer(nx, ny, colorRange);
    sim.Step(latch, sqrt);
    defaultRange := colorRange;
  }

  /** Once the first step has run, resetting and stepping again leaves a zero field: nothing is re-synthesised. */
  method ResetThenStep(sim: Fdtd, latch: StepLatch, sqrt: real -> real)
    requires sim.Valid() && latch.initialized
    modifies sim`magnets, sim.ez, sim.hx, sim.hy, latch
    ensures sim.ez[..] == Filled(sim.nx * sim.ny, 0.0)
    ensures sim.magnets == old(sim.magnets) && sim.sources == old(sim.sources) && unchanged(sim.epsR)
  {
    sim.Reset();
    sim.Step(latch, sqrt);
  }

  /**
   * One pass of the window loop: the range keys, setColorRange only when a key was handled, then
   * the redraw. The configured range is used as it comes, so nothing here needs it positive; a
   * positive range and default do stay positive.
   */
  method Frame(sim: Fdtd, renderer: Renderer, keys: Keys, defaultRange: real) returns (legend: seq<Color>)
    requires sim.Valid() && renderer.Valid() && renderer.nx == sim.nx && renderer.ny == sim.ny
    modifies renderer`colorRange, renderer.image
    ensures renderer.colorRange == FrameRange(old(renderer.colorRange), keys, defaultRange)
    ensures !AnyKey(keys) ==> renderer.colorRange == old(renderer.colorRange)
    ensures old(renderer.colorRange) > 0.0 && defaultRange > 0.0 ==> renderer.colorRange > 0.0
    ensures renderer.image[..] == Colorize(sim.ez[..], renderer.colorRange)
    ensures legend == Legend(renderer.colorRange)
  {
    var current := renderer.GetColorRange();
    var range, changed := AdjustRange(current, keys, defaultRange);
    if changed {
      renderer.SetColorRange(range);
    }
    if current > 0.0 && defaultRange > 0.0 {
      FramePositive(current, keys, defaultRange);
    }
    var field := sim.GetEz();
    legend := renderer.Render(field);
  }

  /**
   * The window loop over a sequence of frames, ending where ESC or closing the window would end
   * it. When both the starting range and the default are at least 0.1, so is the final range.
   */
  method Session(sim: Fdtd, renderer: Renderer, frames: seq<Keys>, defaultRange: real)
    requires sim.Valid() && renderer.Valid() && renderer.nx == sim.nx && renderer.ny == sim.ny
    modifies renderer`colorRange, renderer.image
    ensures renderer.colorRange == RunFrames(old(renderer.colorRange), frames, defaultRange)
    ensures old(renderer.colorRange) >= MinRange && defaultRange >= MinRange ==> renderer.colorRange >= MinRange
    ensures frames != [] ==> renderer.image[..] == Colorize(sim.ez[..], renderer.colorRange)
  {
    ghost var start := renderer.colorRange;
    var n := 0;
    while n < |frames|
      invariant 0 <= n <= |frames|
      invariant renderer.colorRange == RunFrames(start, frames[..n], defaultRange)
      invariant n > 0 ==> renderer.image[..] == Colorize(sim.ez[..], renderer.colorRange)
    {
      var _ := Frame(sim, renderer, frames[n], defaultRange);
      assert frames[..n + 1][..n] == frames[..n];
      n := n + 1;
    }
    assert frames[..|frames|] == frames;
    if start >= MinRange && defaultRange >= MinRange {
      SessionKeepsFloor(start, frames, defaultRange);
    }
  }
}
