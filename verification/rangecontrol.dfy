/**
 * The per-frame colour-range controller of src/main.cpp: each held arrow key nudges the range,
 * the two decreasing keys clamp it from below at 0.1, and R restores the configured default.
 * Key polling becomes a record of booleans; the float arithmetic is real arithmetic.
 */
module RangeControl {
  const CoarseStep: real := 0.05
  const FineStep: real := 0.02
  const MinRange: real := 0.1

  /** The keys seen in one frame: arrows held down, R pressed. */
  datatype Keys = Keys(up: bool, down: bool, right: bool, left: bool, reset: bool)

  /** Some key was handled this frame, so range_changed ends up true. */
  predicate AnyKey(k: Keys) {
    k.up || k.down || k.right || k.left || k.reset
  }

  /** A decrement followed by the clamp to the minimum range. */
  function Narrow(r: real, step: real): (n: real)
    ensures n >= MinRange
    ensures n == r - step || n == MinRange
    ensures r - step >= MinRange ==> n == r - step
  {
    if r - step < MinRange then MinRange else r - step
  }

  /**
   * The range after one frame's key handling, the keys taken in the source's order. R wins over
   * every arrow held in the same frame; a frame with no key keeps the range; after a DOWN or LEFT
   * adjustment (and no R) the range is at least 0.1, whatever it was before.
   */
  function FrameRange(current: real, keys: Keys, default: real): (r: real)
    ensures keys.reset ==> r == default
    ensures !AnyKey(keys) ==> r == current
    ensures !keys.reset && (keys.down || keys.left) ==> r >= MinRange
  {
    var afterUp := if keys.up then current + CoarseStep else current;
    var afterDown := if keys.down then Narrow(afterUp, CoarseStep) else afterUp;
    var afterRight := if keys.right then afterDown + FineStep else afterDown;
    var afterLeft := if keys.left then Narrow(afterRight, FineStep) else afterRight;
    if keys.reset then default else afterLeft
  }

  /** The key-handling block, one conditional after the other, and whether the range was touched. */
  method AdjustRange(current: real, keys: Keys, default: real) returns (range: real, changed: bool)
    ensures range == FrameRange(current, keys, default)
    ensures changed <==> AnyKey(keys)
  {
    range := current;
    changed := false;
    if keys.up {
      range := range + CoarseStep;
      changed := true;
    }
    if keys.down {
      range := range - CoarseStep;
      if range < MinRange {
        range := MinRange;
      }
      changed := true;
    }
    if keys.right {
      range := range + FineStep;
      changed := true;
    }
    if keys.left {
      range := range - FineStep;
      if range < MinRange {
        range := MinRange;
      }
      changed := true;
    }
    if keys.reset {
      range := default;
      changed := true;
    }
  }

  /** UP alone adds exactly 0.05 and RIGHT alone exactly 0.02, with no upper bound. */
  lemma Widening(current: real, default: real)
    ensures FrameRange(current, Keys(true, false, false, false, false), default) == current + 0.05
    ensures FrameRange(current, Keys(false, false, true, false, false), default) == current + 0.02
    ensures FrameRange(current, Keys(true, false, true, false, false), default) == current + 0.07
  {
  }

  /** Without R, a range that starts at or above 0.1 stays there under any combination of arrows. */
  lemma FrameKeepsFloor(current: real, keys: Keys, default: real)
    requires current >= MinRange && !keys.reset
    ensures FrameRange(current, keys, default) >= MinRange
  {
  }

  /** A positive range and a positive default keep the range positive, so dividing by it stays defined. */
  lemma FramePositive(current: real, keys: Keys, default: real)
    requires current > 0.0 && default > 0.0
    ensures FrameRange(current, keys, default) > 0.0
  {
  }

  /**
   * The range after a run of frames. Frames without keys never move it, and a run whose last
   * frame presses R ends at the default.
   */
  function RunFrames(start: real, frames: seq<Keys>, default: real): (r: real)
    ensures (forall f :: f in frames ==> !AnyKey(f)) ==> r == start
    ensures frames != [] && frames[|frames| - 1].reset ==> r == default
    decreases |frames|
  {
    if frames == [] then start
    else FrameRange(RunFrames(start, frames[..|frames| - 1], default), frames[|frames| - 1], default)
  }

  /** When both the starting range and the default are at least 0.1, so is every later range. */
  lemma {:induction false} SessionKeepsFloor(start: real, frames: seq<Keys>, default: real)
    requires start >= MinRange && default >= MinRange
    ensures RunFrames(start, frames, default) >= MinRange
    decreases |frames|
  {
    if frames != [] {
      var before := RunFrames(start, frames[..|frames| - 1], default);
      SessionKeepsFloor(start, frames[..|frames| - 1], default);
      if !frames[|frames| - 1].reset {
        FrameKeepsFloor(before, frames[|frames| - 1], default);
      }
    }
  }
}
