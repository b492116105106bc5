/**
 * The curve sampler of the plot: evenly spaced x values over the display
 * interval and the parabola's value at each of them.
 */
module Sampling {
  import opened Interpolation

  /** The displayed x range and the number of samples drawn. */
  const XMin: real := 0.0
  const XMax: real := 15.0
  const SampleCount: nat := 100

  /**
   * `num` evenly spaced values from `start` to `stop`, both ends included,
   * as a linear-space generator with its end point: the last value is
   * `stop` itself, and a single sample is `start`.
   */
  function LinSpace(start: real, stop: real, num: nat): (xs: seq<real>)
    ensures |xs| == num
    ensures num >= 1 ==> xs[0] == start
    ensures num >= 2 ==> xs[num - 1] == stop
    ensures num >= 2 ==> forall i :: 0 <= i < num - 1 ==>
              xs[i + 1] - xs[i] == (stop - start) / ((num - 1) as real)
    ensures start <= stop ==> forall i :: 0 <= i < num ==> start <= xs[i] <= stop
  {
    if num <= 1 then seq(num, i => start)
    else
      var step := (stop - start) / ((num - 1) as real);
      var xs := seq(num, i requires 0 <= i < num =>
                  if i == num - 1 then stop else start + (i as real) * step);
      LinSpaceSteps(start, stop, num, step, xs);
      xs
  }

  lemma LinSpaceSteps(start: real, stop: real, num: nat, step: real, xs: seq<real>)
    requires num >= 2 && step == (stop - start) / ((num - 1) as real)
    requires |xs| == num
    requires forall i :: 0 <= i < num ==>
               xs[i] == if i == num - 1 then stop else start + (i as real) * step
    ensures forall i :: 0 <= i < num - 1 ==> xs[i + 1] - xs[i] == step
    ensures start <= stop ==> forall i :: 0 <= i < num ==> start <= xs[i] <= stop
  {
    var n := (num - 1) as real;
    assert n * step == stop - start;
    forall i | 0 <= i < num - 1
      ensures xs[i + 1] - xs[i] == step
    {
      if i + 1 == num - 1 {
        assert xs[i] == start + (n - 1.0) * step;
      }
    }
    if start <= stop {
      assert step >= 0.0;
      forall i | 0 <= i < num
        ensures start <= xs[i] <= stop
      {
        if i < num - 1 {
          ScaledStepWithin(start, stop, i as real, n, step);
        }
      }
    }
  }

  lemma ScaledStepWithin(start: real, stop: real, r: real, n: real, step: real)
    requires 0.0 <= r <= n && 0.0 <= step && n * step == stop - start
    ensures start <= start + r * step <= stop
  {
    assert r * step <= n * step;
  }

  /**
   * The polyline drawn for the parabola k: SampleCount pairs (x, y) with the
   * x values evenly spaced over [XMin, XMax] in increasing order and each y
   * the parabola's value at its x.
   */
  function Curve(k: Coeffs): (r: seq<(real, real)>)
    ensures |r| == SampleCount
    ensures r[0].0 == XMin && r[SampleCount - 1].0 == XMax
    ensures forall i :: 0 <= i < SampleCount ==> XMin <= r[i].0 <= XMax
    ensures forall i :: 0 <= i < SampleCount - 1 ==>
              r[i + 1].0 - r[i].0 == (XMax - XMin) / ((SampleCount - 1) as real)
    ensures forall i :: 0 <= i < SampleCount ==> r[i].1 == Eval(k, r[i].0)
  {
    var xs := LinSpace(XMin, XMax, SampleCount);
    seq(SampleCount, i requires 0 <= i < SampleCount => (xs[i], Eval(k, xs[i])))
  }

  /**
   * Sampling the interpolating parabola at one of its own defining x values
   * gives back that point's y. The grid values 15·i/99 miss the initial x
   * values 5.4, 9.5 and 12.3, so this only applies once the middle point
   * has been dragged onto a grid x.
   */
  lemma CurveThroughPoints(k: Coeffs, p1: Point, p2: Point, p3: Point, i: nat)
    requires Interpolates(k, p1, p2, p3)
    requires i < SampleCount
    ensures Curve(k)[i].0 == p1.x ==> Curve(k)[i].1 == p1.y
    ensures Curve(k)[i].0 == p2.x ==> Curve(k)[i].1 == p2.y
    ensures Curve(k)[i].0 == p3.x ==> Curve(k)[i].1 == p3.y
  {
  }
}
