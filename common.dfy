/** Geometry helpers, tolerances and the action type shared by the
    engine and the driving strategies (src/common.rs). Angles are reals;
    a position is stored in polar form exactly as it is handed to
    `Complex::from_polar`, and `Arg` gives back what `arg()` would. */
module Common {

  datatype Option<T> = None | Some(value: T)

  /** The result of a source function that returns an `Option` and may
      also stop the program with a failed `assert!`. */
  datatype Outcome<T> = Done(value: T) | Absent | Panic(message: string)

  /** f32 `PI`, rounded. Only its positivity matters to the proofs. */
  const Pi: real := 3.1415927
  const TwoPi: real := 6.2831854

  /** Angular tolerance for "destination reached" (`THETA_ALLOW`). */
  const ThetaAllow: real := 0.031415927
  /** Radial tolerance for "aligned with the lane" (`DRIFT_ALLOW`). */
  const DriftAllow: real := 0.01

  /** A point given by its radius and its (not necessarily reduced) angle. */
  datatype Polar = Polar(r: real, theta: real)

  /** `Switch(d)`: d > 0 moves d lanes inward, d < 0 outward. */
  datatype Action = Switch(diff: int) | Straight | Stop

  /** Outward, toward lane 0. */
  const SwitchOut: Action := Switch(-1)
  /** Inward, toward the innermost lane. */
  const SwitchIn: Action := Switch(1)

  predicate InArgRange(x: real) {
    -Pi < x <= Pi
  }

  function Abs(x: real): (r: real)
    ensures r >= 0.0 && (r == x || r == -x)
  {
    if x < 0.0 then -x else x
  }

  function Min(a: real, b: real): (r: real)
    ensures r <= a && r <= b && (r == a || r == b)
  {
    if a <= b then a else b
  }

  /** The principal value of an angle: the unique representative in
      (-Pi, Pi] that differs from x by a whole number of turns. */
  function Wrap(x: real): (r: real)
    ensures InArgRange(r)
    ensures r == x + (Turns(x) as real) * TwoPi
  {
    x + (Turns(x) as real) * TwoPi
  }

  /** The whole number of turns Wrap adds to x. */
  function Turns(x: real): int {
    ((Pi - x) / TwoPi).Floor
  }

  /** `Complex::arg` of a point in polar form. */
  function Arg(p: Polar): real {
    Wrap(p.theta)
  }

  /** `(a / b).arg()` for two points with angles a and b: the angle
      difference reduced into (-Pi, Pi]. */
  function ArgQuot(a: real, b: real): real {
    Wrap(a - b)
  }

  /** `unwrap_theta`: maps a principal angle into [0, 2Pi). */
  function Unwrap(theta: real): (r: real)
    ensures theta >= 0.0 ==> r == theta
    ensures theta < 0.0 ==> r == theta + TwoPi
  {
    if theta < 0.0 then theta + TwoPi else theta
  }

  /** `is_on_lane`: the ideal point on the lane has the car's own angle, so
      the distance between the two is the radial difference alone. */
  predicate IsOnLane(pos: Polar, rLane: real): (b: bool)
    ensures b <==> rLane - DriftAllow <= pos.r <= rLane + DriftAllow
  {
    Abs(pos.r - rLane) <= DriftAllow
  }

  /** Reducing an angle that is already principal changes nothing. */
  lemma WrapPrincipal(x: real)
    requires InArgRange(x)
    ensures Wrap(x) == x
  {
    assert Turns(x) == 0;
  }

  /** An angle in [0, 2Pi) survives `from_polar`, `arg` and
      `unwrap_theta` unchanged. */
  lemma UnwrapWrap(x: real)
    requires 0.0 <= x < TwoPi
    ensures Unwrap(Wrap(x)) == x
  {
    if x <= Pi {
      assert Turns(x) == 0;
    } else {
      assert Turns(x) == -1;
    }
  }

  /** `unwrap_theta` of a principal angle lies in [0, 2Pi). */
  lemma UnwrapRange(theta: real)
    requires -Pi <= theta <= Pi
    ensures 0.0 <= Unwrap(theta) < TwoPi
  {
  }

  /** `is_on_lane` holds of every point for its own radius. */
  lemma OnOwnLane(pos: Polar)
    ensures IsOnLane(pos, pos.r)
  {
  }
}
