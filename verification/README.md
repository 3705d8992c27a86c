# EM2D_sim in Dafny

This project models the core of EM2D_sim, a 2-D magnetic-field visualiser. The C++ program does four things:

- It keeps a grid simulation object (`FDTD`). The object holds four row-major `nx*ny` buffers (`Ez`, `Hx`, `Hy`, `eps_r`) and two append-only lists (sources and magnets).
- On its first `step()` it synthesises a static dipole field into `Ez` and then latches itself off.
- The renderer maps each field value to a colour through a banded transfer function (`mapValue`). It paints one pixel per cell and draws a 400-sample legend.
- The main loop lets the user widen, narrow or reset the colour range with the arrow keys and R.

Modules, one per concern:

| file | module | models |
|---|---|---|
| stdmath.dfy | `StdMath` | `std::abs`, `std::min`, `std::max` and the clamp idiom over reals |
| rowmajor.dfy | `RowMajor` | `FDTD::idx` and its inverse (column `k % nx`, row `k / nx`) |
| config.dfy | `Config` | the records of src/Config.hpp |
| waveform.dfy | `Waveform` | `Source::value` |
| dipole.dfy | `Dipole` | the dipole synthesis of `FDTD::step` as pure functions |
| fdtd.dfy | `Simulation` | class `Fdtd` and the process-wide `initialized` latch (`StepLatch`) |
| colormap.dfy | `Colour` | `Renderer::mapValue` |
| renderer.dfy | `Display` | class `Renderer`: colour range, pixel loop, legend loop |
| rangecontrol.dfy | `RangeControl` | the per-frame key handling of src/main.cpp |
| app.dfy | `App` | program start-up, the single `sim.step()`, one frame, and the window loop |

How the source is rendered in Dafny:

- **Floats are reals.** A `static_cast<unsigned char>` becomes the floor of a value proved to lie in `[0, 256)`.
- **Maths functions are parameters.**
  - `std::sqrt` in the far field is a parameter `sqrt: real -> real`.
  - `std::exp` and `std::sin` are fields of a `Numerics` value.
  - Everything proved holds for every choice of these functions, except where a lemma states its own assumption (`exp(0) == 1`, a non-negative root, one concrete root).
- **The far field needs no roots.** The squared field strength |B|² is computed exactly, as |3(m·d)d − m|d|²|² / |d|¹⁰ on the integer offset d.
- **The near/far split is an integer test.** The source tests `r > 2`. On integer offsets that is exactly `dx² + dy² > 4`.
- **The latch is its own object.** `static bool initialized` in `FDTD::step` is shared by the whole process, so it is a separate `StepLatch` object that `Step` reads and sets. `Reset` does not touch it.
- **In-place code stays in place.**
  - The buffers are arrays that the methods update with loops.
  - Each method is proved against a pure function of the old state: `PaintBlock`, `Deposit`, `Synthesize`, `Colorize`, `Legend` and `FrameRange`.

Behaviour of the code that a reader might not expect. The model follows the code in each case:

- **The far field is a magnitude.**
  - The far branch adds `strength · |B| · 60`, which is never negative for a non-negative strength (`Dipole.FarFieldIsMagnitude`).
  - Beside a magnet with an upward moment (same row, four columns away), B = −m/|d|³ points against the moment, yet the cell shows a positive value, the same sign as on the magnet's axis (`Dipole.SingleDipoleScenario`).
  - For non-negative strengths, only the pole branch (|d|² ≤ 4) can produce a negative value.
- **The colour bands do not all join up** (`Colour.BandJumps`).
  - At −0.4 green jumps from 0 to 192.
  - At −0.1 blue drops from 255 to 0.
  - Near 0.8 green falls to 178 and then jumps back to 180.
- **The fallback magnets are centred only to within one cell.** On a 512-wide grid the two gaps are 86 and 85 cells.
- **The 0.1 floor on the colour range holds only for an arrow-only frame.**
  - Pressing R restores the configured default, whatever that is.
  - So the floor holds across a session only when the default is itself at least 0.1 (`RangeControl.SessionKeepsFloor`).
- **A zero colour range does not divide by zero in a way that shows.** The float quotient is ±infinity or NaN, and the clamp turns infinity into ±1 and NaN (from 0/0) into 1. So every negative value gets the south-pole colour and every other value the north-pole colour, and the whole legend shows the north-pole colour (`Colour.MapValue`, `Display.LegendAtZeroRange`).
- **A negative colour range inverts the colours.** The colour depends only on v/range (`Colour.ScaleInvariant`), so the range −c shows v as range c shows −v.
- **`FDTD::applySources` is never called.** It is private, and `step` does not call it. It is modelled anyway, as `Simulation.Fdtd.ApplySources`.

## Model

| member | source | states |
|---|---|---|
| StdMath.Abs | src/FDTD.cpp:135 | `std::abs` is non-negative and is x or −x |
| StdMath.Min | src/FDTD.cpp:143 | `std::min` is at most both arguments and is one of them |
| StdMath.Max | src/FDTD.cpp:143 | `std::max` is at least both arguments and is one of them |
| StdMath.Clamp | src/FDTD.cpp:143 | the clamp `max(lo, min(hi, x))` lies in [lo, hi]; it is x inside the range, lo below it and hi above it |
| RowMajor.Idx | src/FDTD.hpp:69 | for 0 ≤ i < nx, cell (i, j) lies among the nx addresses of row j, starting at j*nx |
| RowMajor.IdxInRange | src/FDTD.hpp:69 | for 0 ≤ i < nx and 0 ≤ j < ny, `j*nx + i` lies in [0, nx*ny) |
| RowMajor.IdxInjective | src/FDTD.hpp:69 | two in-grid cells with the same index are the same cell |
| RowMajor.CellOfIdx | src/FDTD.hpp:69 | column `k % nx` and row `k / nx` recover (i, j) from `j*nx + i` |
| RowMajor.IdxOfCell | src/FDTD.hpp:69 | every k in [0, nx*ny) is the index of exactly the in-grid cell (k % nx, k / nx) |
| Waveform.GaussianExponent | src/FDTD.hpp:26-27 | the gaussian exponent −((t − t0)/spread)² is never positive |
| Waveform.Source.Value | src/FDTD.hpp:22-36 | a "static" source returns its amplitude at every step; a kind other than gaussian, cw or static returns 0 |
| Waveform.GaussianPeak | src/FDTD.hpp:24-27 | when exp(0) = 1, a gaussian returns exactly its amplitude at t = t0 |
| Waveform.GaussianSymmetric | src/FDTD.hpp:24-27 | a gaussian takes the same value at t0 + d and t0 − d, for any exp |
| Dipole.SquaredDistance | src/FDTD.cpp:106-108 | the squared offset is non-negative |
| Dipole.FieldSquared | src/FDTD.cpp:113-129 | the squared far-field magnitude is non-negative |
| Dipole.PoleValue | src/FDTD.cpp:134-137 | the pole value is ±3; its sign follows moment_x when \|moment_x\| > \|moment_y\| and moment_y otherwise, so a tie goes to moment_y, and a moment_y ≤ 0 there gives −3 |
| Dipole.Contribution | src/FDTD.cpp:106-139 | within squared distance 4 a magnet contributes exactly strength·3 or strength·(−3) |
| Dipole.Superpose | src/FDTD.cpp:103-140 | the unclamped sum over the magnets is 0 when every magnet has strength 0 |
| Dipole.CellField | src/FDTD.cpp:102-143 | a cell's value lies in [−4, 4] and equals the raw sum over magnets whenever that sum is already in range |
| Dipole.Synthesize | src/FDTD.cpp:100-146 | the synthesised field has nx*ny cells, all in [−4, 4] |
| Dipole.SynthesizeCell | src/FDTD.cpp:144 | cell (i, j) of the synthesised field, at index `j*nx + i`, holds that cell's clamped sum |
| Dipole.DefaultMagnets | src/FDTD.cpp:83-92 | the fallback is three magnets on row ny/2 with vertical moments and positive strengths: a north pole flanked by two south poles, ordered left to right within the grid |
| Dipole.FarContributionSign | src/FDTD.cpp:129-130 | with a non-negative root and strength, a far magnet never contributes a negative value |
| Dipole.FarFieldIsMagnitude | src/FDTD.cpp:105-131 | if every magnet is far from the cell and non-negative in strength, the sum at that cell is non-negative |
| Dipole.FieldSquaredMirror | src/FDTD.cpp:113-129 | for a vertical moment, \|B\|² is unchanged when the offset is mirrored left to right |
| Dipole.ContributionMirror | src/FDTD.cpp:106-139 | for a vertical moment, mirroring the offset left to right leaves the contribution unchanged |
| Dipole.MirrorSymmetry | src/FDTD.cpp:100-143 | magnets stacked on one column with vertical moments give a field that is mirror-symmetric about that column |
| Dipole.FallbackNearlySymmetric | src/FDTD.cpp:86-90 | the two fallback south poles are ordered around the north pole, at distances differing by at most one cell |
| Dipole.FallbackAsymmetricAt512 | src/FDTD.cpp:86-90 | at nx = 512 those distances are 86 and 85 |
| Dipole.SingleDipoleScenario | src/FDTD.cpp:100-143 | a single magnet with an upward moment shows +3 on its own cell, +1.875 on its axis four rows away (B along the moment) and +0.9375 four columns to the side (B against the moment) |
| Simulation.Fill | src/FDTD.cpp:81 | `std::fill` leaves every element equal to v |
| Simulation.PaintBlock | src/FDTD.cpp:36-44 | painting a block keeps the buffer's length; `PaintBlockCell` gives its cell-by-cell meaning |
| Simulation.PaintBlockCell | src/FDTD.cpp:36-44 | cell (i, j) gets er exactly when max(0, x0) ≤ i < min(x0+w, nx) and max(0, y0) ≤ j < min(y0+h, ny), and keeps its value otherwise |
| Simulation.PaintAll | src/main.cpp:38-40 | painting the configured blocks in order keeps the buffer's length; a cell that no block covers keeps its value; a cell that the last block covers gets that block's permittivity |
| Simulation.Deposit | src/FDTD.cpp:59-72 | a cell on which no in-grid source sits receives nothing |
| Simulation.CoLocatedAccumulate | src/FDTD.cpp:60-65 | two in-grid sources on one cell deposit the sum of their values |
| Simulation.DepositSkipsOutside | src/FDTD.cpp:63 | an off-grid source changes no cell, wherever it stands in the list |
| Simulation.SuperposeAt | src/FDTD.cpp:102-140 | the magnet loop computes the unclamped sum of all contributions at (i, j) |
| Simulation.StepLatch.constructor | src/FDTD.cpp:75 | the latch starts open |
| Simulation.Fdtd.constructor | src/FDTD.cpp:14-19 | all four buffers have nx*ny cells; Ez, Hx and Hy are 0 and eps_r is 1; both lists are empty |
| Simulation.Fdtd.Reset | src/FDTD.cpp:28-34 | Ez, Hx and Hy are all 0; eps_r, the sources and the magnets are unchanged |
| Simulation.Fdtd.AddMaterialBlock | src/FDTD.cpp:36-44 | eps_r becomes `PaintBlock` of its old contents; only eps_r is written |
| Simulation.Fdtd.AddSource | src/FDTD.cpp:46-50 | the source list gains exactly the new source at its end |
| Simulation.Fdtd.AddMagnet | src/FDTD.cpp:52-57 | the magnet list gains exactly the new magnet at its end |
| Simulation.Fdtd.ApplySources | src/FDTD.cpp:59-72 | every Ez cell gains exactly the sum of the values of the in-grid sources sitting on it |
| Simulation.Fdtd.Step | src/FDTD.cpp:74-154 | the first call fills Ez with `Synthesize` of the magnets, using the fallback list if none is configured, with every cell in [−4, 4]; every later call changes nothing; only Ez, the magnet list and the latch are written |
| Simulation.Fdtd.SynthesizeInPlace | src/FDTD.cpp:100-146 | the nested loops leave Ez equal to `Synthesize` of the magnet list |
| Simulation.Fdtd.GetEz | src/FDTD.hpp:53 | returns the Ez buffer and changes nothing |
| Colour.ToByte | src/Renderer.cpp:51 | the cast truncates: the byte is the largest integer not above the value |
| Colour.BandOf | src/Renderer.cpp:48-86 | the seven bands split the normalised value at −0.8, −0.4, −0.1, 0.1, 0.4 and 0.8, each band exactly one half-open interval |
| Colour.Shade | src/Renderer.cpp:49-92 | every band is opaque; the south bands are blue (blue ≥ 128, red ≤ 64); the north bands have blue ≤ 32; the neutral band has no red and green in [64, 160] |
| Colour.BandParameter | src/Renderer.cpp:48-93 | each band's interpolation parameter t lies in [0, 1], so every channel formula stays in [0, 255] |
| Colour.Normalize | src/Renderer.cpp:37-38 | for a non-zero range, v/range clamped to [−1, 1]: unchanged inside, ±1 beyond; for a zero range, −1 exactly when v < 0 and 1 otherwise |
| Colour.MapNormalized | src/Renderer.cpp:41-93 | alpha is 255; \|n\| < 0.01 gives {0,48,64}; n = 1 gives {255,0,32}; n = −1 gives {64,0,255} |
| Colour.MapValue | src/Renderer.cpp:35-94 | alpha is always 255; for a non-zero range, \|v/range\| < 0.01 gives {0,48,64,255}, v/range ≥ 1 gives {255,0,32,255} and v/range ≤ −1 gives {64,0,255,255}; for a zero range, v < 0 gives {64,0,255,255} and any other v gives {255,0,32,255} |
| Colour.Saturation | src/Renderer.cpp:37-38 | with a positive range, v ≥ range maps to {255,0,32,255} and v ≤ −range to {64,0,255,255} |
| Colour.ScaleInvariant | src/Renderer.cpp:37 | the colour depends on v only through v/range: scaling both by the same non-zero factor changes nothing, so a negative range shows the colours of the positive one inverted |
| Colour.NeutralSymmetric | src/Renderer.cpp:65-71 | for 0.01 ≤ \|n\| < 0.1, n and −n get the same colour |
| Colour.BandJumps | src/Renderer.cpp:54-90 | the colours jump at −0.4 (green 0 → 192), at −0.1 (blue 255 → 0) and near 0.8 (green 178 → 180) |
| Display.LegendSampleRange | src/Renderer.cpp:170 | legend sample i of 400 lies in [−1, 1), and the first is −1 |
| Display.LegendSampleIncreasing | src/Renderer.cpp:170 | legend samples increase strictly from left to right |
| Display.Legend | src/Renderer.cpp:169-173 | the legend has 400 samples; `LegendColours` gives the colour of each |
| Display.LegendColours | src/Renderer.cpp:169-173 | legend sample i shows the colour of the normalised value (i/400)·2 − 1 |
| Display.LegendAtZeroRange | src/Renderer.cpp:169-173 | with a zero colour range every legend sample shows the north-pole colour |
| Display.LegendIsRangeFree | src/Renderer.cpp:169-173 | the legend is the same for every non-zero colour range, and it starts with the south-pole colour |
| Display.Colorize | src/Renderer.cpp:109-115 | the image has one pixel per field cell; `ColorizePixel` gives the colour of each |
| Display.ColorizePixel | src/Renderer.cpp:111-113 | pixel (i, j) shows `mapValue(Ez[j*nx + i])` |
| Display.Renderer.constructor | src/Renderer.cpp:7-12 | the image is nx*ny black pixels and the colour range is the one given |
| Display.Renderer.SetColorRange | src/Renderer.cpp:30-33 | the colour range becomes exactly the new value |
| Display.Renderer.GetColorRange | src/Renderer.hpp:12 | reads back the stored colour range |
| Display.Renderer.Render | src/Renderer.cpp:109-173 | the image becomes `Colorize` of the field, and the returned legend is `Legend` of the colour range |
| Display.Renderer.DrawPixels | src/Renderer.cpp:109-115 | the pixel loop leaves the image equal to `Colorize` of the field |
| Display.Renderer.DrawLegend | src/Renderer.cpp:169-173 | the legend loop produces exactly `Legend` of the colour range |
| RangeControl.Narrow | src/main.cpp:105-107 | a decrement with the 0.1 clamp never goes below 0.1, and is the plain decrement when that stays at or above 0.1 |
| RangeControl.FrameRange | src/main.cpp:101-123 | R gives exactly the default, whatever arrows are held; no key leaves the range unchanged; DOWN or LEFT without R leaves the range at least 0.1 |
| RangeControl.AdjustRange | src/main.cpp:97-123 | the step-by-step key handling yields `FrameRange`, and range_changed is true exactly when some key was handled |
| RangeControl.Widening | src/main.cpp:101-113 | UP adds exactly 0.05 and RIGHT exactly 0.02, with no upper bound |
| RangeControl.FrameKeepsFloor | src/main.cpp:101-118 | without R, a range starting at 0.1 or more stays at 0.1 or more under any arrow combination |
| RangeControl.FramePositive | src/main.cpp:101-121 | a positive range and a positive default keep the range positive |
| RangeControl.RunFrames | src/main.cpp:91-132 | a run of frames with no key leaves the range where it started; a run whose last frame presses R ends at the default |
| RangeControl.SessionKeepsFloor | src/main.cpp:91-128 | if the start and the default are both at least 0.1, every later range is too |
| App.Wrap | src/main.cpp:44-46 | one source per configured record, in order |
| App.Startup | src/main.cpp:34-88 | the simulation has the configured blocks painted in order, the configured sources and the configured or fallback magnets; Ez is the synthesised field; the latch is closed; the renderer and the default both hold the configured range |
| App.ResetThenStep | src/FDTD.cpp:75-77 | after the first step, a reset followed by another step leaves Ez all zero: nothing is re-synthesised |
| App.Frame | src/main.cpp:97-131 | the new colour range is `FrameRange` of the old one; a frame with no key leaves it unchanged; a positive range stays positive when the default is positive; the image and legend are redrawn from Ez at the new range |
| App.Session | src/main.cpp:91-132 | after a run of frames, the colour range is `RunFrames` of the starting range; it stays at 0.1 or more when the start and the default are; the image shows Ez at the final range |

## Left out

- Floating point: `float` and `double` rounding is not modelled, and all arithmetic is exact on reals. Band thresholds such as `0.8f` are taken as the exact decimals. The proved colours at and near the band edges (`BandJumps`) are exact-arithmetic results, not bit-exact float results.
- `std::sqrt`, `std::exp` and `std::sin` are library code. They are parameters, not definitions.
- Dipole.Contribution: in the far branch the contract only fixes the sign, through `FarContributionSign`, because the value goes through the `sqrt` parameter. `FieldSquared` states |B|² exactly.
- Waveform.Source.Value: requires a non-zero spread for gaussian sources. The code divides by the spread, and a zero spread produces a float infinity or NaN that is not modelled. A gaussian's value is stated only through `GaussianPeak` and `GaussianSymmetric`, and a cw source's only through the `sin` parameter.
- The time step: the CFL `dt` and the physical constants of src/FDTD.cpp:10-12 and 21-22 are not modelled, because nothing reads them. `dx` and `dy` are used only to compute `dt`, so they are not modelled either.
- Integer overflow: `nx*ny`, `j*nx + i` and `2*nx` are unbounded integers here. The C++ `int` arithmetic would overflow only for grids far larger than any configuration uses.
- The float conversions of integer offsets, and `static_cast<float>` of the configured moments and strengths: not modelled, because reals need no conversion.
- Logging to `std::cout`/`std::cerr`, and the `frame_count` debug counter in `render`.
- Configuration loading (src/Config.cpp, JSON and file I/O) and the hard-coded fallback configuration in src/main.cpp:24-30. `App.Startup` takes the configured values as parameters.
- The raylib calls are not modelled. This covers the window, texture creation and upload, bilinear filtering, background clearing, the layout arithmetic, text, the legend border and labels, and `texture_needs_update`. The image is an array of colours. The legend strip is returned as a sequence of colours rather than drawn.
- The window loop's termination (`WindowShouldClose`, ESC at src/main.cpp:91-95) and key polling. `App.Session` runs over a finite sequence of frames, and the keys of a frame are booleans.
- src/Source.hpp duplicates the `Source` class of src/FDTD.hpp and is not part of this model.
- `Source::reset` has an empty body. `Fdtd.Reset` therefore leaves the sources as they are, and nothing more is modelled for it.
