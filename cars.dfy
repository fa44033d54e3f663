/** The car record (src/lib.rs `Car`) with its `finished` predicate and its
    physical integration rule `Car::update`, plus the state a driving
    strategy keeps inside the car (src/drivers.rs). */
module Cars {
  import opened Common
  import opened JsonValue
  import opened Setting

  /** `DIST_ALLOW`. */
  const DistAllow: real := 0.01

  /** The Euclidean distance between two points, `(a - b).norm()`. It needs
      a cosine of the angle difference, so the model takes it as given. */
  type Metric = (Polar, Polar) -> real

  /** The per-lane history of `ShortestTimeDriver`. */
  datatype TimeState = TimeState(
    laneLastTs: seq<real>,    // when each lane was last observed
    laneLastPos: seq<Polar>,  // where the car was at that time
    laneVel: seq<real>,       // estimated cruising speed of each lane
    prevLane: nat)            // lane at the previous `update`

  /** The driving strategy owned by a car: the greedy `SimpleDriver` of
      src/lib.rs, and the two strategies of src/drivers.rs. */
  datatype Driver = Simple | ShortestDist | ShortestTime(state: TimeState)

  datatype Car = Car(
    id: Usize,
    pos: Polar,
    vel: real,
    lane: nat,         // 0 is the outermost lane
    dst: Polar,        // exit point on the outermost lane
    action: Action,    // action for the current step
    driver: Driver)

  /** `Car::finished`: on the outermost lane and within `DIST_ALLOW` of the
      exit point. */
  predicate Finished(c: Car, dist: Metric): (b: bool)
    ensures b ==> c.lane == 0
    ensures c.lane == 0 && dist(c.dst, c.pos) <= 0.0 ==> b
  {
    c.lane == 0 && dist(c.dst, c.pos) <= DistAllow
  }

  /** An action the integration rule can apply without indexing outside
      the lane radii: a switch must land on an existing lane. */
  predicate ActionFits(a: Action, lane: int, nLanes: int) {
    a.Switch? ==> 0 <= lane + a.diff < nLanes
  }

  /** The radius `Car::update` computes for `Switch(d)` before snapping. */
  function SwitchRadius(c: Car, d: int, tick: real): real {
    c.pos.r + (-d as real) * c.vel * tick
  }

  /** Whether a switch by d reaches (or passes) the target radius. */
  predicate SwitchReaches(d: int, nextR: real, targetR: real) {
    (d < 0 && nextR >= targetR) || (d > 0 && nextR <= targetR)
  }

  /** The angle `Car::update` moves to for `Straight`, before clamping. */
  function StraightAngle(c: Car, tick: real, s: Setting): real
    requires c.lane < |s.rLanes| && s.rLanes[c.lane] != 0.0
  {
    Unwrap(Arg(c.pos)) + c.vel * tick / s.rLanes[c.lane]
  }

  /** `Car::update`, applying the granted action for `tick` time units. */
  function CarUpdate(c: Car, tick: real, s: Setting): (r: Car)
    requires c.lane < |s.rLanes| && ActionFits(c.action, c.lane, |s.rLanes|)
    requires c.action.Straight? ==> s.rLanes[c.lane] != 0.0
    // only the position and the lane can change
    ensures r == c.(pos := r.pos, lane := r.lane)
    ensures c.action.Switch? ==>
      var d := c.action.diff;
      var nextR := SwitchRadius(c, d, tick);
      r.pos.theta == Arg(c.pos) &&
      (if SwitchReaches(d, nextR, s.rLanes[c.lane + d])
       then r.pos.r == s.rLanes[c.lane + d] && r.lane == c.lane + d
       else r.pos.r == nextR && r.lane == c.lane)
    ensures c.action.Straight? ==>
      r.lane == c.lane && r.pos.r == c.pos.r &&
      r.pos.theta == Min(StraightAngle(c, tick, s), Unwrap(Arg(c.dst)))
    ensures c.action.Stop? ==> r == c
  {
    match c.action
    case Switch(d) =>
      var nextR := SwitchRadius(c, d, tick);
      var targetR := s.rLanes[c.lane + d];
      if SwitchReaches(d, nextR, targetR) then
        c.(pos := Polar(targetR, Arg(c.pos)), lane := c.lane + d)
      else
        c.(pos := Polar(nextR, Arg(c.pos)))
    case Straight =>
      var nextTheta := StraightAngle(c, tick, s);
      var targetTheta := Unwrap(Arg(c.dst));
      if nextTheta >= targetTheta then c.(pos := Polar(c.pos.r, targetTheta))
      else c.(pos := Polar(c.pos.r, nextTheta))
    case Stop => c
  }

  /** A switch never changes the car's heading: the angle `arg()` reports
      afterwards is the one before. */
  lemma SwitchKeepsAngle(c: Car, tick: real, s: Setting)
    requires c.lane < |s.rLanes| && ActionFits(c.action, c.lane, |s.rLanes|)
    requires c.action.Switch?
    ensures Arg(CarUpdate(c, tick, s).pos) == Arg(c.pos)
  {
    WrapPrincipal(Arg(c.pos));
  }

  /** Moving straight never carries a car past its exit angle and never
      moves it backwards, measured as `unwrap_theta` of `arg()`. */
  lemma StraightNeverPassesExit(c: Car, tick: real, s: Setting)
    requires c.lane < |s.rLanes| && c.action.Straight? && s.rLanes[c.lane] > 0.0
    requires c.vel >= 0.0 && tick >= 0.0
    ensures var a := Unwrap(Arg(CarUpdate(c, tick, s).pos));
      Unwrap(Arg(c.pos)) <= a || a == Unwrap(Arg(c.dst))
    ensures Unwrap(Arg(CarUpdate(c, tick, s).pos)) <= Unwrap(Arg(c.dst))
  {
    var target := Unwrap(Arg(c.dst));
    var next := StraightAngle(c, tick, s);
    UnwrapRange(Arg(c.dst));
    UnwrapRange(Arg(c.pos));
    assert c.vel * tick / s.rLanes[c.lane] >= 0.0;
    UnwrapWrap(Min(next, target));
  }

  /** A car whose angle is already at or past its exit angle (both taken
      through `unwrap_theta`) lands exactly on the exit angle with its next
      `Straight` move, however short the tick. */
  lemma StraightSnapsWhenPast(c: Car, tick: real, s: Setting)
    requires c.lane < |s.rLanes| && c.action.Straight? && s.rLanes[c.lane] > 0.0
    requires c.vel >= 0.0 && tick >= 0.0
    requires Unwrap(Arg(c.pos)) >= Unwrap(Arg(c.dst))
    ensures CarUpdate(c, tick, s).pos == Polar(c.pos.r, Unwrap(Arg(c.dst)))
  {
    assert c.vel * tick / s.rLanes[c.lane] >= 0.0;
  }

  /** The radius stays between the innermost and the outermost lane, for
      any action that fits, a positive speed and a positive tick. */
  lemma UpdateKeepsRadius(c: Car, tick: real, s: Setting)
    requires |s.rLanes| > 0 && NonIncreasing(s.rLanes) && s.rLanes[|s.rLanes| - 1] > 0.0
    requires c.lane < |s.rLanes| && ActionFits(c.action, c.lane, |s.rLanes|)
    requires c.vel > 0.0 && tick > 0.0
    requires s.rLanes[|s.rLanes| - 1] <= c.pos.r <= s.rLanes[0]
    ensures var r := CarUpdate(c, tick, s);
      s.rLanes[|s.rLanes| - 1] <= r.pos.r <= s.rLanes[0] && r.lane < |s.rLanes|
  {
    var n := |s.rLanes|;
    if c.action.Switch? {
      var d := c.action.diff;
      var target := s.rLanes[c.lane + d];
      assert s.rLanes[n - 1] <= target <= s.rLanes[0] by {
        assert 0 <= c.lane + d <= n - 1;
      }
      var nextR := SwitchRadius(c, d, tick);
      assert c.vel * tick > 0.0;
      if d < 0 {
        assert nextR >= c.pos.r;
      } else if d > 0 {
        assert nextR <= c.pos.r;
      }
    }
  }
}
