# Interactive parabola editor, modelled in Dafny

The program shows three points and the parabola y = a·x² + b·x + c through
them. The user can drag the middle point with the mouse. On every move the
program solves the 3x3 Vandermonde system again, with one row [x², x, 1]
per point, and redraws the curve. This project models that program over
exact reals:

- `interpolation.dfy` (module `Interpolation`) holds the points, the
  coefficients, the parabola's evaluation and the system matrix with its
  determinant. It holds the solve, written in closed form with Newton's
  divided differences. The proofs show that the solve fails exactly when
  the matrix is singular, which happens exactly when two x values are
  equal. On success the result is the only solution of the system and
  passes through all three points.
- `sampling.dfy` (module `Sampling`) holds the curve sampler: 100 evenly
  spaced x values over [0, 15], both ends included, each paired with the
  parabola's value there.
- `editor.dfy` (module `Editor`) holds the editor itself. It is a class
  whose fields are the point dictionary (`map<PointName, Point>`), the
  coefficients and the one-slot selection. Its press, motion and release
  handlers are methods that take an `Event(inAxes, x, y)`. Its invariant
  `Valid()` is preserved by every handler. It says the selection is empty
  or the middle point, the two outer points keep their initial values
  (5.4, 3.2) and (12.3, -3.6), and the coefficients are the interpolant of
  the current points whenever an interpolant exists.

Design decisions:

- The linear solve raises an error when the matrix is singular. Here that
  is the result `Err(SingularMatrix)`.
- When a drag moves the middle point onto another point's x, the motion
  handler stores the new position first (script1.py:83). The solve then
  fails, so the coefficient assignment never happens (script1.py:46), and
  the coefficients keep their previous value. `OnMotion` states exactly
  this. The invariant therefore only promises interpolation when the
  x values are distinct.
- The hit test compares the squared distance with 0.3² = 0.09.
  `HitsIffWithinRadius` proves this is the same as comparing the distance
  with 0.3.
- One might expect every move to change the coefficients. It does not.
  `MotionKeepsCoefficientsIff` proves the complete rule for a drag of the
  middle point that starts from distinct x values. The coefficients stay
  the same exactly when the new x equals an outer point's x, so the solve
  fails, or when the new position already lies on the old parabola.
  `ResolveUnchangedIff` is the second half of that rule, for new x values
  distinct from the outer ones. `DragOntoOuterXKeepsCoefficients` shows
  the first half: a drag to (5.4, 0.0) keeps the initial coefficients,
  although that position is off the initial parabola.
  `DragUpChangesCoefficients` proves that the drag from (9.5, 0.7) to
  (9.5, 5.0) does change them.

## Model

| member | source | states |
|---|---|---|
| Interpolation.Solve | script1.py:39-46 | the solve succeeds exactly when the three x values are pairwise distinct, and then the parabola passes through all three points |
| Interpolation.SolveIsUniqueSolution | script1.py:44-46 | for distinct x values the matrix is non-singular, the solve succeeds, and a vector k satisfies A·k = y exactly when k is the solve's result |
| Interpolation.SingularHasNoUniqueSolution | script1.py:45-46 | for a singular matrix the solve reports SingularMatrix, and any solution of the system can be shifted by a non-zero kernel vector and is still a solution |
| Interpolation.SingularIffRepeatedX | script1.py:41-45 | the system matrix is singular exactly when two of the points share an x |
| Interpolation.VandermondeDet | script1.py:45 | the determinant of the [x², x, 1] matrix is (x1 - x2)(x1 - x3)(x2 - x3) |
| Interpolation.ApplyVandermonde | script1.py:45-50 | row i of A·k is the parabola k evaluated at x_i, so k solves the system exactly when it passes through the three points |
| Interpolation.ResolveUnchangedIff | script1.py:83-86 | when the x values are distinct both before and after, replacing a point gives the same coefficients exactly when the new point is on the old parabola |
| Sampling.LinSpace | script1.py:59 | num values, first is start, last is stop, consecutive values (stop - start)/(num - 1) apart, all inside [start, stop] |
| Sampling.Curve | script1.py:59-60 | 100 samples with x evenly spaced from 0 to 15 in increasing order, each y the parabola at its x |
| Sampling.CurveThroughPoints | script1.py:59-60 | a sample taken at a defining point's x has that point's y; the grid misses the initial x values, so this applies only after a drag onto a grid x |
| Editor.HitsIffWithinRadius | script1.py:71-74 | the squared-distance test is equivalent to distance < 0.3 |
| Editor.InitialPointsSolvable | script1.py:8-12 | the initial points (5.4, 3.2), (9.5, 0.7), (12.3, -3.6) have distinct x values and the solve passes through them |
| Editor.Recomputed | script1.py:39-46 | the coefficients after a recompute: the interpolant of the points when their x values are distinct, the previous coefficients otherwise |
| Editor.MotionKeepsCoefficientsIff | script1.py:83-86 | after a drag of the middle point from distinct x values, the coefficients are unchanged exactly when the new x equals an outer point's x or the new point is on the old parabola |
| Editor.DragOntoOuterXKeepsCoefficients | script1.py:83-86 | dragging the middle point to (5.4, 0.0) leaves the initial coefficients in place, though the old parabola is not 0 at 5.4 |
| Editor.DragUpChangesCoefficients | script1.py:83-86 | moving the middle point to (9.5, 5.0) yields coefficients different from the initial ones |
| Editor.InteractiveParabola.constructor | script1.py:6-37 | starts with the three initial points, no selection and the coefficients of their interpolant |
| Editor.InteractiveParabola.CalculateParabola | script1.py:39-46 | succeeds exactly when the x values are distinct and then stores the interpolant, otherwise leaves the coefficients unchanged |
| Editor.InteractiveParabola.Parabola | script1.py:48-50 | evaluates the stored coefficients, and passes through every stored point when the points admit an interpolant |
| Editor.InteractiveParabola.OnClick | script1.py:65-75 | a press inside the axes and within the capture radius of p2 selects p2, any other press changes nothing, points and coefficients never change |
| Editor.InteractiveParabola.OnMotion | script1.py:77-87 | with no selection or outside the axes nothing changes; otherwise p2 becomes the event position, p1 and p3 stay, and the coefficients are the recompute from the old ones: the new interpolant, or unchanged if the solve fails |
| Editor.InteractiveParabola.OnRelease | script1.py:89-91 | the selection becomes empty whatever the event, with the invariant kept |
| Editor.DragScenario | script1.py:65-91 | press on p2, drag to (9.5, 5.0), release: the coefficients before and after are the two interpolants and they differ |

## Left out

- Figure and axes setup, the circle markers, `set_data`, canvas redraws,
  the event connections and `plt.show` (script1.py:15-35, 55-56, 61-63,
  93-95). These are GUI plumbing with nothing to state about the model.
- Floating point. Every number is an exact real, so rounding and the
  conditioning of the numerical solve are not modelled. A nearly singular
  matrix solves exactly here.
- The linear-algebra library's exception. It becomes `Err(SingularMatrix)`.
  The traceback that the GUI toolkit prints when a handler raises is not
  modelled. Neither is the skipped redraw.
- The square root inside the distance norm (script1.py:72). The hit test
  uses the squared distance instead, and `HitsIffWithinRadius` proves the
  two tests agree.
- Event dispatch. Each handler is one sequential method call on an
  `Event` value. When `inAxes` is false the event's coordinates are
  ignored, like the missing data coordinates of the source.
- Evaluation over an array. `Parabola` evaluates at a single x. The
  source applies the same formula to a whole array at script1.py:60. That
  use is modelled by `Sampling.Curve`.
