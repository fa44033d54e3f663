/** The two collision tests of the engine (src/lib.rs
    `RoundaboutSim::straight_collision` and `switch_collision`). */
module Collision {
  import opened Common
  import opened Setting
  import opened Cars

  /** `MIN_UPDATE_TICK`. */
  const MinUpdateTick: real := 0.01

  /** Angular gap from the follower forward to the car it follows, in
      [0, 2Pi). */
  function Gap(follow: Car, precede: Car): real {
    Unwrap(ArgQuot(precede.pos.theta, follow.pos.theta))
  }

  /** `straight_collision`: the time the follower needs, at its own speed,
      to reach the car ahead, assuming that car stays put. `Absent` stands
      for the `f32::MAX` of a follower that does not go straight; the two
      failed assertions of the source are `Panic`s. */
  function StraightCollision(follow: Car, precede: Car, s: Setting): (r: Outcome<real>)
    requires follow.lane < |s.rLanes| && follow.vel > 0.0
    ensures !follow.action.Straight? <==> r.Absent?
    ensures follow.action.Straight? ==>
      (r.Panic? <==> follow.lane != precede.lane || follow.id == precede.id)
  {
    if !follow.action.Straight? then Absent
    else if follow.lane != precede.lane then Panic("on the same lane but straight-straight collision called")
    else if follow.id == precede.id then Panic("have the same id")
    else Done(Gap(follow, precede) * s.rLanes[follow.lane] / follow.vel)
  }

  /** The time found covers exactly the gap ahead at the follower's speed,
      and is below the time of a whole turn of the lane. */
  lemma StraightCollisionTime(follow: Car, precede: Car, s: Setting)
    requires follow.lane < |s.rLanes| && follow.vel > 0.0
    ensures var r := StraightCollision(follow, precede, s);
      r.Done? ==> r.value * follow.vel == Gap(follow, precede) * s.rLanes[follow.lane]
    ensures var r := StraightCollision(follow, precede, s);
      r.Done? && s.rLanes[follow.lane] > 0.0 ==> 0.0 <= r.value < TwoPi * s.rLanes[follow.lane] / follow.vel
  {
    UnwrapRange(ArgQuot(precede.pos.theta, follow.pos.theta));
    TimeToCover(Gap(follow, precede), s.rLanes[follow.lane], follow.vel);
  }

  /** Arithmetic of `straight_collision`: the time to cover an angle g on a
      lane of radius r at speed v. */
  lemma TimeToCover(g: real, r: real, v: real)
    requires 0.0 <= g < TwoPi && v > 0.0
    ensures (g * r / v) * v == g * r
    ensures r > 0.0 ==> 0.0 <= g * r / v < TwoPi * r / v
  {
    if r > 0.0 {
      assert g * r < TwoPi * r;
      assert g * r >= 0.0;
      DivLess(g * r, TwoPi * r, v);
    }
  }

  lemma DivLess(a: real, b: real, v: real)
    requires a < b && v > 0.0
    ensures a / v < b / v
  {
    var x, y := a / v, b / v;
    assert x * v == a && y * v == b;
  }

  /** The angle the other car sweeps in one tick on its lane. */
  function SweptAngle(other: Car, tick: real, s: Setting): real
    requires other.lane < |s.rLanes| && s.rLanes[other.lane] != 0.0
  {
    other.vel * tick / s.rLanes[other.lane]
  }

  /** The switcher is heading into the lane of the other car, which goes
      straight: the only case the test looks at angles. */
  predicate Merging(sw: Car, other: Car) {
    other.action.Straight? && sw.action.Switch? && sw.lane + sw.action.diff == other.lane
  }

  /** `switch_collision` as written: the switcher's angle is at or ahead of
      the other car, and at or beyond where the other car will be after the
      tick. */
  function SwitchCollisionAsWritten(sw: Car, other: Car, tick: real, s: Setting): (hit: bool)
    requires other.lane < |s.rLanes| && s.rLanes[other.lane] != 0.0
    ensures hit ==> Merging(sw, other)
  {
    Merging(sw, other) &&
    ArgQuot(Arg(sw.pos), Arg(other.pos)) >= 0.0 &&
    ArgQuot(Arg(other.pos) + SweptAngle(other, tick, s), Arg(sw.pos)) <= 0.0
  }

  /** `switch_collision` as its documentation describes it: the switcher's
      angle lies in the arc the other car sweeps during the tick. */
  function SwitchCollision(sw: Car, other: Car, tick: real, s: Setting): (hit: bool)
    requires other.lane < |s.rLanes| && s.rLanes[other.lane] != 0.0
    ensures hit ==> Merging(sw, other)
  {
    Merging(sw, other) &&
    ArgQuot(Arg(sw.pos), Arg(other.pos)) >= 0.0 &&
    ArgQuot(Arg(other.pos) + SweptAngle(other, tick, s), Arg(sw.pos)) >= 0.0
  }

  /** Adding whole turns to a principal angle does not change its
      principal value. */
  lemma WrapShift(x: real, k: int)
    requires InArgRange(x)
    ensures Wrap(x + (k as real) * TwoPi) == x
  {
    var y := x + (k as real) * TwoPi;
    assert (Pi - y) / TwoPi == (Pi - x) / TwoPi - k as real;
    assert 0.0 <= (Pi - x) / TwoPi < 1.0;
    assert Turns(y) == -k;
  }

  /** The second angle of the test, rewritten relative to the first: with
      d the reduced offset of the switcher ahead of the other car and a
      sweep below Pi, it is the part of the sweep left beyond the switcher. */
  lemma RemainingSweep(sw: Car, other: Car, mv: real)
    requires 0.0 < mv < Pi
    requires ArgQuot(Arg(sw.pos), Arg(other.pos)) >= 0.0
    ensures var d := ArgQuot(Arg(sw.pos), Arg(other.pos));
      ArgQuot(Arg(other.pos) + mv, Arg(sw.pos)) == mv - d
  {
    var y := Arg(sw.pos) - Arg(other.pos);
    var d := Wrap(y);
    var k := Turns(y);
    assert Arg(other.pos) + mv - Arg(sw.pos) == (mv - d) + (k as real) * TwoPi;
    WrapShift(mv - d, k);
  }

  /** For a sweep below half a turn, the documented test flags exactly the
      switchers whose angle lies in the swept arc [0, mv] ahead of the
      other car. */
  lemma SwitchCollisionInArc(sw: Car, other: Car, tick: real, s: Setting)
    requires other.lane < |s.rLanes| && s.rLanes[other.lane] > 0.0
    requires other.vel > 0.0 && tick > 0.0 && SweptAngle(other, tick, s) < Pi
    requires Merging(sw, other)
    ensures SwitchCollision(sw, other, tick, s) <==>
      0.0 <= ArgQuot(Arg(sw.pos), Arg(other.pos)) <= SweptAngle(other, tick, s)
  {
    var mv := SweptAngle(other, tick, s);
    assert mv > 0.0;
    if ArgQuot(Arg(sw.pos), Arg(other.pos)) >= 0.0 {
      RemainingSweep(sw, other, mv);
    }
  }

  /** Under the same conditions the test as written flags exactly the
      switchers at or beyond the end of the swept arc, and misses every
      switcher strictly inside it. */
  lemma SwitchCollisionAsWrittenBeyondArc(sw: Car, other: Car, tick: real, s: Setting)
    requires other.lane < |s.rLanes| && s.rLanes[other.lane] > 0.0
    requires other.vel > 0.0 && tick > 0.0 && SweptAngle(other, tick, s) < Pi
    requires Merging(sw, other)
    ensures SwitchCollisionAsWritten(sw, other, tick, s) <==>
      SweptAngle(other, tick, s) <= ArgQuot(Arg(sw.pos), Arg(other.pos))
  {
    var mv := SweptAngle(other, tick, s);
    assert mv > 0.0;
    if ArgQuot(Arg(sw.pos), Arg(other.pos)) >= 0.0 {
      RemainingSweep(sw, other, mv);
    }
  }

  /** A concrete pair on a unit lane: the other car at angle 0 sweeps 0.1
      rad in the tick; a switcher merging at 0.05 rad, inside that arc, is
      not flagged by the test as written, while one at 1.0 rad, far ahead,
      is. The documented test flags the first and not the second. */
  lemma SwitchCollisionCounterexample()
    ensures var s := Default().(rLanes := [1.0, 0.5]);
      var other := Car(0, Polar(1.0, 0.0), 1.0, 0, Polar(1.0, 1.5), Straight, ShortestDist);
      var near := Car(1, Polar(0.5, 0.05), 1.0, 1, Polar(1.0, 1.5), SwitchOut, ShortestDist);
      var far := Car(2, Polar(0.5, 1.0), 1.0, 1, Polar(1.0, 1.5), SwitchOut, ShortestDist);
      !SwitchCollisionAsWritten(near, other, 0.1, s) && SwitchCollision(near, other, 0.1, s) &&
      SwitchCollisionAsWritten(far, other, 0.1, s) && !SwitchCollision(far, other, 0.1, s)
  {
    var s := Default().(rLanes := [1.0, 0.5]);
    var other := Car(0, Polar(1.0, 0.0), 1.0, 0, Polar(1.0, 1.5), Straight, ShortestDist);
    var near := Car(1, Polar(0.5, 0.05), 1.0, 1, Polar(1.0, 1.5), SwitchOut, ShortestDist);
    var far := Car(2, Polar(0.5, 1.0), 1.0, 1, Polar(1.0, 1.5), SwitchOut, ShortestDist);
    assert SweptAngle(other, 0.1, s) == 0.1;
    WrapPrincipal(0.0);
    WrapPrincipal(0.05);
    WrapPrincipal(1.0);
    assert Arg(other.pos) == 0.0 && Arg(near.pos) == 0.05 && Arg(far.pos) == 1.0;
    assert ArgQuot(Arg(near.pos), Arg(other.pos)) == 0.05 by { WrapPrincipal(0.05 - 0.0); }
    assert ArgQuot(Arg(far.pos), Arg(other.pos)) == 1.0 by { WrapPrincipal(1.0 - 0.0); }
    SwitchCollisionInArc(near, other, 0.1, s);
    SwitchCollisionAsWrittenBeyondArc(near, other, 0.1, s);
    SwitchCollisionInArc(far, other, 0.1, s);
    SwitchCollisionAsWrittenBeyondArc(far, other, 0.1, s);
  }
}
