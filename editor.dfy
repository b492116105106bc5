/**
 * The interactive editor: three named points, the coefficients of the
 * parabola through them, and a one-slot selection driven by pointer
 * press, motion and release events. Only the middle point can be grabbed,
 * so the outer two never move.
 */
module Editor {
  import opened Interpolation

  /** The three point roles, keyed as "p1", "p2" and "p3". */
  datatype PointName = P1 | P2 | P3

  datatype Option<T> = None | Some(value: T)

  /**
   * A pointer event: whether it happened over the plotting area, and its
   * position in plot coordinates there (meaningless when it did not).
   */
  datatype Event = Event(inAxes: bool, x: real, y: real)

  /** The capture radius of the hit test, in plot units. */
  const CaptureRadius: real := 0.3

  const InitialP1: Point := Point(5.4, 3.2)
  const InitialP2: Point := Point(9.5, 0.7)
  const InitialP3: Point := Point(12.3, -3.6)

  const InitialPoints: map<PointName, Point> :=
    map[P1 := InitialP1, P2 := InitialP2, P3 := InitialP3]

  function SquaredDistance(p: Point, x: real, y: real): real
  {
    (x - p.x) * (x - p.x) + (y - p.y) * (y - p.y)
  }

  /** The press at (x, y) is strictly inside the capture radius around p. */
  predicate Hits(p: Point, x: real, y: real)
  {
    SquaredDistance(p, x, y) < CaptureRadius * CaptureRadius
  }

  /**
   * Comparing the squared distance with the squared radius is the same as
   * comparing the Euclidean distance with the radius.
   */
  lemma HitsIffWithinRadius(p: Point, x: real, y: real, dist: real)
    requires dist >= 0.0 && dist * dist == SquaredDistance(p, x, y)
    ensures Hits(p, x, y) <==> dist < CaptureRadius
  {
    if dist < CaptureRadius {
      assert dist * dist <= dist * CaptureRadius;
      assert dist * CaptureRadius < CaptureRadius * CaptureRadius;
    } else {
      assert dist * dist >= dist * CaptureRadius;
      assert dist * CaptureRadius >= CaptureRadius * CaptureRadius;
    }
  }

  /** The initial configuration has three distinct x values. */
  lemma InitialPointsSolvable()
    ensures Solve(InitialP1, InitialP2, InitialP3).Ok?
    ensures Interpolates(Solve(InitialP1, InitialP2, InitialP3).value, InitialP1, InitialP2, InitialP3)
  {
  }

  /**
   * Dragging the middle point straight up from (9.5, 0.7) to (9.5, 5.0)
   * changes the coefficients: the new point is not on the initial parabola.
   */
  lemma DragUpChangesCoefficients()
    ensures Solve(InitialP1, Point(9.5, 5.0), InitialP3).Ok?
    ensures Solve(InitialP1, Point(9.5, 5.0), InitialP3).value != Solve(InitialP1, InitialP2, InitialP3).value
  {
    var q := Point(9.5, 5.0);
    ResolveUnchangedIff(InitialP1, InitialP2, InitialP3, q);
    assert Eval(Solve(InitialP1, InitialP2, InitialP3).value, 9.5) == 0.7;
  }

  /**
   * The coefficients after a recompute that starts from `previous`: the
   * interpolant when the x values are distinct, otherwise `previous`
   * itself, because the failed solve never reaches the assignment.
   */
  function Recomputed(previous: Coeffs, p1: Point, p2: Point, p3: Point): (k: Coeffs)
    ensures DistinctX(p1, p2, p3) ==> Interpolates(k, p1, p2, p3)
    ensures !DistinctX(p1, p2, p3) ==> k == previous
  {
    match Solve(p1, p2, p3)
    case Ok(s) => s
    case Err(_) => previous
  }

  /**
   * The complete rule for a drag of the middle point to q, starting from
   * coefficients that interpolate three distinct points: the coefficients
   * stay the same exactly when q lands on an outer point's x (the solve
   * fails) or q already lies on the old parabola.
   */
  lemma MotionKeepsCoefficientsIff(p1: Point, p2: Point, p3: Point, q: Point)
    requires DistinctX(p1, p2, p3)
    ensures Recomputed(Solve(p1, p2, p3).value, p1, q, p3) == Solve(p1, p2, p3).value
        <==> q.x == p1.x || q.x == p3.x || Eval(Solve(p1, p2, p3).value, q.x) == q.y
  {
    if DistinctX(p1, q, p3) {
      ResolveUnchangedIff(p1, p2, p3, q);
    }
  }

  /**
   * Dragging the middle point onto the first point's x keeps the initial
   * coefficients, although the new position (5.4, 0.0) is off the parabola.
   */
  lemma DragOntoOuterXKeepsCoefficients()
    ensures Recomputed(Solve(InitialP1, InitialP2, InitialP3).value, InitialP1, Point(5.4, 0.0), InitialP3)
         == Solve(InitialP1, InitialP2, InitialP3).value
    ensures Eval(Solve(InitialP1, InitialP2, InitialP3).value, 5.4) != 0.0
  {
    InitialPointsSolvable();
    MotionKeepsCoefficientsIff(InitialP1, InitialP2, InitialP3, Point(5.4, 0.0));
  }

  class InteractiveParabola {
    var points: map<PointName, Point>
    var coeffs: Coeffs
    var selected: Option<PointName>

    /** All three points are present. */
    predicate HasAllPoints()
      reads this
    {
      P1 in points && P2 in points && P3 in points
    }

    /** The solve of the current three points. */
    function Interpolant(): Result<Coeffs>
      reads this
      requires HasAllPoints()
    {
      Solve(points[P1], points[P2], points[P3])
    }

    /**
     * The editor's invariant: exactly the three points, a selection that
     * is empty or the middle point, the outer points where they started,
     * and coefficients that pass through the current points whenever the
     * points admit an interpolant.
     */
    ghost predicate Valid()
      reads this
    {
      && points.Keys == {P1, P2, P3}
      && (selected == None || selected == Some(P2))
      && points[P1] == InitialP1
      && points[P3] == InitialP3
      && (Interpolant().Ok? ==> coeffs == Interpolant().value)
    }

    constructor ()
      ensures Valid()
      ensures points == InitialPoints
      ensures selected == None
      ensures coeffs == Solve(InitialP1, InitialP2, InitialP3).value
      ensures Interpolates(coeffs, points[P1], points[P2], points[P3])
    {
      points := InitialPoints;
      new;
      assert points[P1] == InitialP1 && points[P2] == InitialP2 && points[P3] == InitialP3;
      InitialPointsSolvable();
      var solved := CalculateParabola();
      selected := None;
    }

    /**
     * Recomputes the coefficients from the three points. When two points
     * share an x the solve fails, and the coefficients keep their old value.
     */
    method CalculateParabola() returns (solved: bool)
      requires HasAllPoints()
      modifies this`coeffs
      ensures solved <==> DistinctX(points[P1], points[P2], points[P3])
      ensures solved ==> (coeffs == Interpolant().value
                          && Interpolates(coeffs, points[P1], points[P2], points[P3]))
      ensures !solved ==> coeffs == old(coeffs)
    {
      var r := Solve(points[P1], points[P2], points[P3]);
      match r
      case Ok(k) =>
        coeffs := k;
        solved := true;
      case Err(_) =>
        solved := false;
    }

    /** The current parabola at x; it passes through every stored point whose x it is given. */
    function Parabola(x: real): (y: real)
      reads this
      requires Valid()
      ensures Interpolant().Ok? ==>
                forall n :: n in points && points[n].x == x ==> y == points[n].y
    {
      Eval(coeffs, x)
    }

    /** A press selects the middle point when it lands over the plot within the capture radius of it. */
    method OnClick(e: Event)
      requires Valid()
      modifies this`selected
      ensures Valid()
      ensures e.inAxes && Hits(points[P2], e.x, e.y) ==> selected == Some(P2)
      ensures !(e.inAxes && Hits(points[P2], e.x, e.y)) ==> selected == old(selected)
    {
      if !e.inAxes {
        return;
      }
      if Hits(points[P2], e.x, e.y) {
        selected := Some(P2);
      }
    }

    /**
     * A motion over the plot while a point is selected moves that point to
     * the pointer and recomputes the coefficients; any other motion changes
     * nothing.
     */
    method OnMotion(e: Event)
      requires Valid()
      modifies this`points, this`coeffs
      ensures Valid()
      ensures selected == None || !e.inAxes ==>
                points == old(points) && coeffs == old(coeffs)
      ensures selected != None && e.inAxes ==>
                && points == old(points)[selected.value := Point(e.x, e.y)]
                && points[P2] == Point(e.x, e.y)
                && points[P1] == old(points[P1]) && points[P3] == old(points[P3])
                && coeffs == Recomputed(old(coeffs), points[P1], points[P2], points[P3])
                && (if Interpolant().Ok?
                    then coeffs == Interpolant().value
                         && Interpolates(coeffs, points[P1], points[P2], points[P3])
                    else coeffs == old(coeffs))
    {
      if selected == None || !e.inAxes {
        return;
      }
      points := points[selected.value := Point(e.x, e.y)];
      var solved := CalculateParabola();
    }

    /** A release always drops the selection. */
    method OnRelease(e: Event)
      requires Valid()
      modifies this`selected
      ensures Valid()
      ensures selected == None
    {
      selected := None;
    }
  }

  /**
   * A press on the middle point, a drag to (9.5, 5.0) and a release:
   * the coefficients change, the outer points stay, nothing stays selected.
   */
  method DragScenario() returns (before: Coeffs, after: Coeffs)
    ensures before == Solve(InitialP1, InitialP2, InitialP3).value
    ensures after == Solve(InitialP1, Point(9.5, 5.0), InitialP3).value
    ensures before != after
  {
    DragUpChangesCoefficients();
    var q := Point(9.5, 5.0);
    var editor := new InteractiveParabola();
    before := editor.coeffs;
    assert Hits(InitialP2, 9.6, 0.8);
    editor.OnClick(Event(true, 9.6, 0.8));
    editor.OnMotion(Event(true, q.x, q.y));
    assert editor.points[P1] == InitialP1 && editor.points[P2] == q && editor.points[P3] == InitialP3;
    assert editor.Interpolant() == Solve(InitialP1, q, InitialP3);
    after := editor.coeffs;
    editor.OnRelease(Event(false, 0.0, 0.0));
    assert editor.selected == None;
  }
}
