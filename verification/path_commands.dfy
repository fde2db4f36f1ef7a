/** The stroke geometry handed to the canvas: a `Path2D` seen as the list of
    commands recorded into it, and the polylines that the plotting helpers
    of src/components/App.tsx and src/components/imageUtil.ts record. */
module PathCommands {

  /** One recorded `moveTo` or `lineTo` call. */
  datatype Cmd = MoveTo(x: real, y: real) | LineTo(x: real, y: real)

  type NonNegReal = r: real | r >= 0.0

  /** `Math.sqrt(re * re + im * im)`: the modulus of a complex sample. Its
      floating-point value is not modelled; the only fact used is that it is
      never negative, which the result type carries. */
  type Modulus = (real, real) -> NonNegReal

  /** Where a value lands on the canvas: `offset + v * scale`. Both
      coordinates of every plotted point are computed this way. */
  function Coord(offset: real, scale: real, v: real): (c: real)
  {
    offset + v * scale
  }

  /** The polyline of a series: a `moveTo(offset, offset)` followed by one
      `lineTo` per sample, sample x going to
      `(offset + x * scale, offset + series[x] * scale)`. Defined by peeling
      the last sample off. */
  function SeriesPath(offset: real, scale: real, series: seq<real>): (p: seq<Cmd>)
    ensures |p| == |series| + 1 && p[0] == MoveTo(offset, offset)
  {
    if |series| == 0 then [MoveTo(offset, offset)]
    else
      var x := |series| - 1;
      SeriesPath(offset, scale, series[..x]) + [LineTo(Coord(offset, scale, x as real), Coord(offset, scale, series[x]))]
  }

  /** The polyline `magPlot` records, defined directly on the two planes:
      sample x goes to `(offset + x * scale, offset + mag(re[x], im[x]) * scale)`. */
  function ModulusPath(offset: real, scale: real, re: seq<real>, im: seq<real>, mag: Modulus): (p: seq<Cmd>)
    requires |im| >= |re|
    ensures |p| == |re| + 1 && p[0] == MoveTo(offset, offset)
  {
    if |re| == 0 then [MoveTo(offset, offset)]
    else
      var x := |re| - 1;
      ModulusPath(offset, scale, re[..x], im, mag) + [LineTo(Coord(offset, scale, x as real), Coord(offset, scale, mag(re[x], im[x])))]
  }

  /** The magnitude series of two planes, sample by sample. */
  function Magnitudes(re: seq<real>, im: seq<real>, mag: Modulus): (m: seq<real>)
    requires |im| >= |re|
    ensures |m| == |re|
    ensures forall x :: 0 <= x < |m| ==> m[x] == mag(re[x], im[x]) && m[x] >= 0.0
  {
    if |re| == 0 then []
    else
      var x := |re| - 1;
      Magnitudes(re[..x], im, mag) + [mag(re[x], im[x])]
  }

  /** After the opening `moveTo`, command x + 1 is the `lineTo` of sample x,
      in index order, and there is no other `moveTo`. */
  lemma {:induction false} SeriesPathAt(offset: real, scale: real, series: seq<real>, x: nat)
    requires x < |series|
    ensures SeriesPath(offset, scale, series)[x + 1]
         == LineTo(Coord(offset, scale, x as real), Coord(offset, scale, series[x]))
  {
    var last := |series| - 1;
    if x < last {
      SeriesPathAt(offset, scale, series[..last], x);
    }
  }

  /** The same for the modulus path. */
  lemma {:induction false} ModulusPathAt(offset: real, scale: real, re: seq<real>, im: seq<real>, mag: Modulus, x: nat)
    requires |im| >= |re| && x < |re|
    ensures ModulusPath(offset, scale, re, im, mag)[x + 1]
         == LineTo(Coord(offset, scale, x as real), Coord(offset, scale, mag(re[x], im[x])))
  {
    var last := |re| - 1;
    if x < last {
      ModulusPathAt(offset, scale, re[..last], im, mag, x);
    }
  }

  /** Plotting the planes through `mag` is plotting their magnitude series:
      one algorithm serves both the signal and the spectrum. */
  lemma ModulusPathIsSeriesPath(offset: real, scale: real, re: seq<real>, im: seq<real>, mag: Modulus)
    requires |im| >= |re|
    ensures ModulusPath(offset, scale, re, im, mag) == SeriesPath(offset, scale, Magnitudes(re, im, mag))
  {
    var p, q := ModulusPath(offset, scale, re, im, mag), SeriesPath(offset, scale, Magnitudes(re, im, mag));
    forall k | 1 <= k < |p| ensures p[k] == q[k] {
      ModulusPathAt(offset, scale, re, im, mag, k - 1);
      SeriesPathAt(offset, scale, Magnitudes(re, im, mag), k - 1);
    }
  }

  /** With a positive scale the `lineTo` x-coordinates strictly increase. */
  lemma SeriesPathAdvances(offset: real, scale: real, series: seq<real>, j: nat, k: nat)
    requires scale > 0.0 && j < k < |series|
    ensures SeriesPath(offset, scale, series)[j + 1].x < SeriesPath(offset, scale, series)[k + 1].x
  {
    SeriesPathAt(offset, scale, series, j);
    SeriesPathAt(offset, scale, series, k);
    assert j as real * scale < k as real * scale;
  }

  /** Magnitudes are never negative, so with a non-negative scale every
      point of the modulus path has a y-coordinate of at least the offset
      (on the canvas, where y grows downwards, that is on or below the
      offset line). */
  lemma ModulusPathYAtLeastOffset(offset: real, scale: real, re: seq<real>, im: seq<real>, mag: Modulus, x: nat)
    requires |im| >= |re| && x < |re| && scale >= 0.0
    ensures ModulusPath(offset, scale, re, im, mag)[x + 1].y >= offset
  {
    ModulusPathAt(offset, scale, re, im, mag, x);
    assert mag(re[x], im[x]) * scale >= 0.0;
  }
}
