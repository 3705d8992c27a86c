/**
 * The state of src/Renderer.cpp that the program's logic touches: the mutable colour range, the
 * nx*ny image whose pixels render() overwrites, and the 400-sample colour legend. Window layout,
 * textures and text drawing are not modelled; the legend strip is returned as a sequence.
 */
module Display {
  import opened RowMajor
  import opened Colour

  const LegendWidth: int := 400

  /** The normalised value shown at legend position i: (i / 400) * 2 - 1. */
  function LegendSample(i: int): real {
    (i as real / LegendWidth as real) * 2.0 - 1.0
  }

  /** Samples start at -1 and stay below 1. */
  lemma LegendSampleRange(i: int)
    requires 0 <= i < LegendWidth
    ensures -1.0 <= LegendSample(i) < 1.0
    ensures i == 0 ==> LegendSample(i) == -1.0
  {
  }

  /** Samples increase strictly from left to right. */
  lemma LegendSampleIncreasing(i: int, i': int)
    requires i < i'
    ensures LegendSample(i) < LegendSample(i')
  {
  }

  /** The field value drawn at legend position i. */
  function LegendValue(i: int, range: real): real {
    LegendSample(i) * range
  }

  /** The legend strip: sample i coloured as the field value sample * range. */
  function Legend(range: real): (l: seq<Color>)
    ensures |l| == LegendWidth
  {
    seq(LegendWidth, i => MapValue(LegendValue(i, range), range))
  }

  /** Because the samples are multiplied by the range and mapValue divides by it again, the legend looks the same for every range. */
  lemma LegendIsRangeFree(r1: real, r2: real)
    requires r1 != 0.0 && r2 != 0.0
    ensures Legend(r1) == Legend(r2)
    ensures Legend(r1)[0] == SouthPoleColor
  {
    LegendColours(r1);
    LegendColours(r2);
  }

  /** A zero range turns every legend sample into 0, which the zero-range clamp shows as the north colour. */
  lemma LegendAtZeroRange()
    ensures forall i :: 0 <= i < LegendWidth ==> Legend(0.0)[i] == NorthPoleColor
  {
    forall i | 0 <= i < LegendWidth
      ensures Legend(0.0)[i] == NorthPoleColor
    {
      assert LegendValue(i, 0.0) == 0.0;
    }
  }

  /** Legend position i shows the colour of the normalised value LegendSample(i). */
  lemma LegendColours(range: real)
    requires range != 0.0
    ensures forall i :: 0 <= i < LegendWidth ==> Legend(range)[i] == MapNormalized(LegendSample(i))
  {
    forall i | 0 <= i < LegendWidth
      ensures Legend(range)[i] == MapNormalized(LegendSample(i))
    {
      LegendColour(range, i);
    }
  }

  lemma LegendColour(range: real, i: int)
    requires range != 0.0 && 0 <= i < LegendWidth
    ensures -1.0 <= LegendSample(i) <= 1.0
    ensures Legend(range)[i] == MapNormalized(LegendSample(i))
  {
    LegendSampleRange(i);
    ScaledSample(LegendSample(i), range, LegendValue(i, range));
  }

  /** For t in [-1, 1], mapValue(t * range) under colour range `range` is the colour of t itself. */
  lemma ScaledSample(t: real, range: real, v: real)
    requires range != 0.0 && -1.0 <= t <= 1.0 && v == t * range
    ensures MapValue(v, range) == MapNormalized(t)
  {
    assert v / range == t;
  }

  /** The image render() leaves behind: one colour per grid cell, row-major. */
  function Colorize(ez: seq<real>, range: real): (img: seq<Color>)
    ensures |img| == |ez|
  {
    seq(|ez|, k requires 0 <= k < |ez| => MapValue(ez[k], range))
  }

  /** Pixel (i, j) of the image shows the colour of field cell j*nx + i. */
  lemma ColorizePixel(ez: seq<real>, range: real, nx: int, ny: int, i: int, j: int)
    requires 0 <= nx && 0 <= ny && |ez| == nx * ny && InGrid(nx, ny, i, j)
    ensures 0 <= Idx(nx, i, j) < |ez|
    ensures Colorize(ez, range)[Idx(nx, i, j)] == MapValue(ez[j * nx + i], range)
  {
    IdxInRange(nx, ny, i, j);
  }

  class Renderer {
    const nx: int
    const ny: int
    var colorRange: real
    const image: array<Color>

    ghost predicate Valid()
      reads this
    {
      0 <= nx && 0 <= ny && image.Length == nx * ny
    }

    /** The image starts all black; the colour range is the configured one. */
    constructor (nx: int, ny: int, colorRange: real)
      requires 0 <= nx && 0 <= ny
      ensures Valid() && this.nx == nx && this.ny == ny && this.colorRange == colorRange
      ensures image[..] == seq(nx * ny, _ => Black)
      ensures fresh(image)
    {
      this.nx, this.ny, this.colorRange := nx, ny, colorRange;
      image := new Color[nx * ny](_ => Black);
    }

    method SetColorRange(newRange: real)
      modifies this`colorRange
      ensures colorRange == newRange
    {
      colorRange := newRange;
    }

    function GetColorRange(): (r: real)
      reads this
      ensures r == colorRange
    {
      colorRange
    }

    /** Recolours every pixel from the field and draws the legend strip. */
    method Render(ez: seq<real>) returns (legend: seq<Color>)
      requires Valid() && |ez| == nx * ny
      modifies image
      ensures image[..] == Colorize(ez, colorRange)
      ensures legend == Legend(colorRange)
    {
      DrawPixels(ez);
      legend := DrawLegend();
    }

    /** The pixel loop of render(): pixel (i, j) takes the colour of ez[j*nx + i]. */
    method DrawPixels(ez: seq<real>)
      requires Valid() && |ez| == nx * ny
      modifies image
      ensures image[..] == Colorize(ez, colorRange)
    {
      ghost var want := Colorize(ez, colorRange);
      var j := 0;
      while j < ny
        invariant 0 <= j <= ny
        invariant forall k :: 0 <= k < image.Length && k < j * nx ==> image[k] == want[k]
      {
        var i := 0;
        while i < nx
          invariant 0 <= i <= nx
          invariant forall k :: 0 <= k < image.Length && k < j * nx + i ==> image[k] == want[k]
        {
          IdxInRange(nx, ny, i, j);
          image[j * nx + i] := MapValue(ez[j * nx + i], colorRange);
          i := i + 1;
        }
        MulSucc(j, nx);
        j := j + 1;
      }
      assert image[..] == want;
    }

    /** The legend loop of render(): 400 one-pixel strips coloured at evenly spaced values. */
    method DrawLegend() returns (legend: seq<Color>)
      ensures legend == Legend(colorRange)
    {
      var range := colorRange;
      ghost var want := Legend(range);
      legend := [];
      var i := 0;
      while i < LegendWidth
        invariant 0 <= i <= LegendWidth
        invariant legend == want[..i]
      {
        var t := (i as real / LegendWidth as real) * 2.0 - 1.0;
        assert t * range == LegendValue(i, range);
        legend := legend + [MapValue(t * range, range)];
        assert want[..i + 1] == want[..i] + [want[i]];
        i := i + 1;
      }
      assert want[..LegendWidth] == want;
    }
  }
}
