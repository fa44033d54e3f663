/** The phases of one `RoundaboutSim::update` (src/lib.rs) as functions of
    the sorted cars: proposals, the following check with the tick it
    settles on, the switch arbitration, the integration of motion and the
    split into finished and remaining cars. The engine's loops are proved
    to compute exactly these. */
module Step {
  import opened Common
  import opened Setting
  import opened Cars
  import opened Drivers
  import opened Collision
  import opened Lanes

  // ---------------------------------------------------------------------
  // What holds of every active car between steps

  /** An active car at simulated time t: on an existing lane, moving
      forward, between the outermost and the innermost radius, and, with a
      shortest-time driver, a record that matches the lanes, remembers the
      current lane and was never stamped after t. */
  predicate CarOk(c: Car, s: Setting, t: real) {
    c.lane < |s.rLanes| && c.vel > 0.0 &&
    s.rLanes[|s.rLanes| - 1] <= c.pos.r <= s.rLanes[0] &&
    (c.driver.ShortestTime? ==>
      TimeReady(c.driver.state, c, s) && c.driver.state.prevLane == c.lane &&
      forall l :: 0 <= l < |s.rLanes| ==> c.driver.state.laneLastTs[l] <= t)
  }

  predicate AllOk(cs: seq<Car>, s: Setting, t: real) {
    forall i :: 0 <= i < |cs| ==> CarOk(cs[i], s, t)
  }

  /** Every lane has a positive radius. */
  predicate Positive(s: Setting) {
    forall l :: 0 <= l < |s.rLanes| ==> s.rLanes[l] > 0.0
  }

  lemma WellFormedPositive(s: Setting)
    requires WellFormed(s)
    ensures Positive(s)
  {
    forall l | 0 <= l < |s.rLanes|
      ensures s.rLanes[l] > 0.0
    {
      assert s.rLanes[l] >= s.rLanes[|s.rLanes| - 1];
    }
  }

  /** An active car holding an action the engine may apply. */
  predicate Granted(c: Car, s: Setting, t: real) {
    CarOk(c, s, t) && ActionFits(c.action, c.lane, |s.rLanes|) &&
    c.action in {Stop, Straight, SwitchOut, SwitchIn}
  }

  /** The setting and the cars of one step, after the proposals. */
  predicate Stage(cs: seq<Car>, s: Setting, t: real) {
    WellFormed(s) && Positive(s) && SortedByAngle(cs) &&
    forall i :: 0 <= i < |cs| ==> Granted(cs[i], s, t)
  }

  // ---------------------------------------------------------------------
  // Proposals

  /** Every driver proposes an action for its car at time ts. */
  function Propose(cs: seq<Car>, ts: real, s: Setting, dist: Metric): (r: seq<Car>)
    requires forall i :: 0 <= i < |cs| ==> DriverReady(cs[i], s)
    ensures |r| == |cs|
    ensures forall i :: 0 <= i < |cs| ==> r[i] == cs[i].(action := Drive(cs[i], ts, s, dist))
  {
    seq(|cs|, i requires 0 <= i < |cs| => cs[i].(action := Drive(cs[i], ts, s, dist)))
  }

  /** Sorting and proposing yield a stage of the step. */
  lemma ProposeStage(cs: seq<Car>, t: real, s: Setting, dist: Metric)
    requires WellFormed(s) && AllOk(cs, s, t)
    ensures var sorted := SortByAngle(cs);
      AllOk(sorted, s, t) && Stage(Propose(sorted, t, s, dist), s, t) &&
      SameLayout(sorted, Propose(sorted, t, s, dist))
  {
    SortedOk(cs, s, t);
    ProposedStage(SortByAngle(cs), t, s, dist);
  }

  /** Sorting keeps every car active. */
  lemma SortedOk(cs: seq<Car>, s: Setting, t: real)
    requires AllOk(cs, s, t)
    ensures AllOk(SortByAngle(cs), s, t) && SortedByAngle(SortByAngle(cs))
  {
    var sorted := SortByAngle(cs);
    forall i | 0 <= i < |sorted|
      ensures CarOk(sorted[i], s, t)
    {
      assert sorted[i] in multiset(cs);
    }
  }

  /** Proposing on sorted active cars yields a stage with their layout. */
  lemma ProposedStage(sorted: seq<Car>, t: real, s: Setting, dist: Metric)
    requires WellFormed(s) && AllOk(sorted, s, t) && SortedByAngle(sorted)
    ensures Stage(Propose(sorted, t, s, dist), s, t) && SameLayout(sorted, Propose(sorted, t, s, dist))
  {
    WellFormedPositive(s);
    var p := Propose(sorted, t, s, dist);
    forall i | 0 <= i < |sorted|
      ensures Granted(p[i], s, t)
    {
      DriveFits(sorted[i], t, s, dist);
    }
  }

  // ---------------------------------------------------------------------
  // Following check and tick

  /** `straight_collision` of car i and the next car of its lane, when the
      lane holds more than one car. */
  function FollowTime(cs: seq<Car>, i: nat, s: Setting): (r: Outcome<real>)
    requires i < |cs| && cs[i].lane < |s.rLanes| && cs[i].vel > 0.0
    ensures r.Absent? <==> |LaneIndices(cs, cs[i].lane)| <= 1 || !cs[i].action.Straight?
    ensures r.Panic? ==> cs[i].id == cs[Leader(cs, i)].id
  {
    if |LaneIndices(cs, cs[i].lane)| > 1 then StraightCollision(cs[i], cs[Leader(cs, i)], s)
    else Absent
  }

  /** Some straight follower has the same id as the car ahead of it: the
      engine stops on the failed `assert_ne!`. */
  predicate Clash(cs: seq<Car>, s: Setting): (b: bool)
    requires forall i :: 0 <= i < |cs| ==> cs[i].lane < |s.rLanes| && cs[i].vel > 0.0
    ensures b ==> exists i :: 0 <= i < |cs| && cs[i].action.Straight? && |LaneIndices(cs, cs[i].lane)| > 1
  {
    exists i :: 0 <= i < |cs| && FollowTime(cs, i, s).Panic?
  }

  /** Car i would reach the car ahead within `MIN_UPDATE_TICK`. */
  predicate TooClose(cs: seq<Car>, i: nat, s: Setting): (b: bool)
    requires i < |cs| && cs[i].lane < |s.rLanes| && cs[i].vel > 0.0
    ensures b ==> cs[i].action.Straight? && |LaneIndices(cs, cs[i].lane)| > 1
  {
    FollowTime(cs, i, s).Done? && FollowTime(cs, i, s).value <= MinUpdateTick
  }

  /** The cars with those flagged stopped. */
  function StopWhere(cs: seq<Car>, flags: seq<bool>): (r: seq<Car>)
    requires |flags| == |cs|
    ensures |r| == |cs|
    ensures forall i :: 0 <= i < |cs| ==> r[i] == if flags[i] then cs[i].(action := Stop) else cs[i]
  {
    seq(|cs|, i requires 0 <= i < |cs| => if flags[i] then cs[i].(action := Stop) else cs[i])
  }

  function Closeness(cs: seq<Car>, s: Setting): (r: seq<bool>)
    requires forall i :: 0 <= i < |cs| ==> cs[i].lane < |s.rLanes| && cs[i].vel > 0.0
    ensures |r| == |cs| && forall i :: 0 <= i < |cs| ==> r[i] == TooClose(cs, i, s)
  {
    seq(|cs|, i requires 0 <= i < |cs| => TooClose(cs, i, s))
  }

  /** The cars after the following check: too-close followers stop. */
  function AfterFollow(cs: seq<Car>, s: Setting): (r: seq<Car>)
    requires forall i :: 0 <= i < |cs| ==> cs[i].lane < |s.rLanes| && cs[i].vel > 0.0
    ensures |r| == |cs|
    ensures forall i :: 0 <= i < |cs| ==>
      r[i] == if TooClose(cs, i, s) then cs[i].(action := Stop) else cs[i]
  {
    StopWhere(cs, Closeness(cs, s))
  }

  /** The bound car i puts on the tick: its time to collide, when that is
      above `MIN_UPDATE_TICK`. */
  function BoundOf(cs: seq<Car>, i: nat, s: Setting): Option<real>
    requires i < |cs| && cs[i].lane < |s.rLanes| && cs[i].vel > 0.0
  {
    var f := FollowTime(cs, i, s);
    if f.Done? && f.value > MinUpdateTick then Some(f.value) else None
  }

  function Bounds(cs: seq<Car>, s: Setting): (r: seq<Option<real>>)
    requires forall i :: 0 <= i < |cs| ==> cs[i].lane < |s.rLanes| && cs[i].vel > 0.0
    ensures |r| == |cs| && forall i :: 0 <= i < |cs| ==> r[i] == BoundOf(cs, i, s)
  {
    seq(|cs|, i requires 0 <= i < |cs| => BoundOf(cs, i, s))
  }

  /** tick is the tick as far as the bounds at the positions in d are
      concerned: at most cap and each of those bounds, and equal to cap or
      to one of them. */
  ghost predicate TickOn(xs: seq<Option<real>>, cap: real, d: set<nat>, tick: real) {
    tick <= cap &&
    (forall i :: i in d && i < |xs| && xs[i].Some? ==> tick <= xs[i].value) &&
    (tick == cap || exists i :: i in d && i < |xs| && xs[i] == Some(tick))
  }

  /** The running minimum of cap and the first k bounds. */
  function MinBound(xs: seq<Option<real>>, cap: real, k: nat): real
    requires k <= |xs|
  {
    if k == 0 then cap
    else
      var prev := MinBound(xs, cap, k - 1);
      if xs[k - 1].Some? && xs[k - 1].value < prev then xs[k - 1].value else prev
  }

  /** The tick of the step. */
  function StepTick(cs: seq<Car>, s: Setting): (r: real)
    requires forall i :: 0 <= i < |cs| ==> cs[i].lane < |s.rLanes| && cs[i].vel > 0.0
    ensures r <= s.tick
    ensures forall i :: 0 <= i < |cs| && BoundOf(cs, i, s).Some? ==> r <= BoundOf(cs, i, s).value
    ensures r == s.tick || exists i :: 0 <= i < |cs| && BoundOf(cs, i, s) == Some(r)
  {
    MinBoundOn(Bounds(cs, s), s.tick, |cs|);
    MinBound(Bounds(cs, s), s.tick, |cs|)
  }

  /** The indices below n. */
  function Upto(n: nat): (r: set<nat>)
    ensures forall i: nat :: i in r <==> i < n
  {
    if n == 0 then {} else Upto(n - 1) + {n - 1}
  }

  lemma {:induction false} MinBoundOn(xs: seq<Option<real>>, cap: real, k: nat)
    requires k <= |xs|
    ensures TickOn(xs, cap, Upto(k), MinBound(xs, cap, k))
  {
    if k > 0 {
      MinBoundOn(xs, cap, k - 1);
      var prev := MinBound(xs, cap, k - 1);
      var tick := MinBound(xs, cap, k);
      if xs[k - 1].Some? && xs[k - 1].value < prev {
        assert (k - 1) in Upto(k) && xs[k - 1] == Some(tick);
      } else if prev != cap {
        var w :| w in Upto(k - 1) && w < |xs| && xs[w] == Some(prev);
        assert w in Upto(k) && xs[w] == Some(tick);
      }
    }
  }

  /** Taking position f into account lowers the tick to f's bound when
      that is smaller. */
  lemma TickOnAdd(xs: seq<Option<real>>, cap: real, d: set<nat>, tick: real, f: nat)
    requires TickOn(xs, cap, d, tick) && f < |xs|
    ensures TickOn(xs, cap, d + {f}, if xs[f].Some? && xs[f].value < tick then xs[f].value else tick)
  {
    if !(xs[f].Some? && xs[f].value < tick) && tick != cap {
      var w :| w in d && w < |xs| && xs[w] == Some(tick);
      assert w in d + {f};
    }
  }

  /** Two sets that agree on the positions give the same tick. */
  lemma TickUnique(xs: seq<Option<real>>, cap: real, d: set<nat>, e: set<nat>, a: real, b: real)
    requires forall i :: 0 <= i < |xs| ==> (i in d <==> i in e)
    requires TickOn(xs, cap, d, a) && TickOn(xs, cap, e, b)
    ensures a == b
  {
    if a != cap {
      var w :| w in d && w < |xs| && xs[w] == Some(a);
      assert w in e;
    }
    if b != cap {
      var w :| w in e && w < |xs| && xs[w] == Some(b);
      assert w in d;
    }
  }

  /** The step's tick is at most the setting's tick and at most every
      follower's time to collide above `MIN_UPDATE_TICK`; it is the
      setting's tick or one of those times. Followers within
      `MIN_UPDATE_TICK` stop instead and do not bound it. It is at least
      the smaller of the setting's tick and `MIN_UPDATE_TICK`. */
  lemma StepTickSpec(cs: seq<Car>, s: Setting)
    requires forall i :: 0 <= i < |cs| ==> cs[i].lane < |s.rLanes| && cs[i].vel > 0.0
    ensures var tick := StepTick(cs, s);
      tick <= s.tick &&
      (forall i :: 0 <= i < |cs| && FollowTime(cs, i, s).Done? && FollowTime(cs, i, s).value > MinUpdateTick
        ==> tick <= FollowTime(cs, i, s).value) &&
      (tick == s.tick || exists i :: 0 <= i < |cs| && FollowTime(cs, i, s) == Done(tick) && tick > MinUpdateTick) &&
      tick >= Min(s.tick, MinUpdateTick)
  {
    var xs := Bounds(cs, s);
    MinBoundOn(xs, s.tick, |cs|);
    var tick := StepTick(cs, s);
    forall i | 0 <= i < |cs| && FollowTime(cs, i, s).Done? && FollowTime(cs, i, s).value > MinUpdateTick
      ensures tick <= FollowTime(cs, i, s).value
    {
      assert i in Upto(|cs|) && xs[i].Some?;
    }
    if tick != s.tick {
      var w :| w in Upto(|cs|) && w < |xs| && xs[w] == Some(tick);
      assert FollowTime(cs, w, s) == Done(tick);
    }
  }

  // ---------------------------------------------------------------------
  // Switch arbitration

  /** The cars `update` checks a switcher against on its target lane: the
      one just below its angle (from the lower bound) and the one with the
      largest angle. */
  function Candidates(cs: seq<Car>, i: nat): (r: seq<nat>)
    requires i < |cs| && cs[i].action.Switch? && cs[i].lane + cs[i].action.diff >= 0
    ensures forall p :: 0 <= p < |r| ==> r[p] < |cs| && cs[r[p]].lane == cs[i].lane + cs[i].action.diff
  {
    var g := LaneIndices(cs, cs[i].lane + cs[i].action.diff);
    var idx := LowerBound(Keys(cs, g), Angle(cs[i]));
    (if idx > 0 then [g[idx - 1]] else []) + (if |g| > 0 then [g[|g| - 1]] else [])
  }

  /** Switcher i is flagged by `switch_collision` against candidate j. The
      engine calls the test as written, which flags a switcher at or beyond
      the end of the arc j sweeps this tick (`SwitchCollisionAsWritten`). */
  predicate Blocks(cs: seq<Car>, s: Setting, tick: real, i: nat, j: nat): (b: bool)
    requires i < |cs| && j < |cs| && Positive(s) && cs[j].lane < |s.rLanes|
    ensures b ==> Merging(cs[i], cs[j])
  {
    cs[i].action.Switch? && cs[i].lane + cs[i].action.diff >= 0 &&
    j in Candidates(cs, i) && SwitchCollisionAsWritten(cs[i], cs[j], tick, s)
  }

  predicate LanesExist(cs: seq<Car>, s: Setting) {
    forall i :: 0 <= i < |cs| ==> cs[i].lane < |s.rLanes|
  }

  /** Switcher i collides with one of its candidates. */
  predicate Blocked(cs: seq<Car>, s: Setting, tick: real, i: nat)
    requires i < |cs| && Positive(s) && LanesExist(cs, s)
  {
    exists j :: 0 <= j < |cs| && Blocks(cs, s, tick, i, j)
  }

  /** Car j is a candidate some switcher collides with. */
  predicate Hit(cs: seq<Car>, s: Setting, tick: real, j: nat)
    requires j < |cs| && Positive(s) && LanesExist(cs, s)
  {
    exists i :: 0 <= i < |cs| && Blocks(cs, s, tick, i, j)
  }

  /** A switcher held back under `StraightFirst`: stopped and put back on
      the radius of its own lane, at its angle. */
  function Halt(c: Car, s: Setting): (r: Car)
    requires c.lane < |s.rLanes|
    ensures r.action == Stop && r.pos.r == s.rLanes[c.lane]
    ensures Angle(r) == Angle(c)
    ensures r == c.(pos := r.pos, action := Stop)
  {
    WrapPrincipal(Arg(c.pos));
    c.(pos := Polar(s.rLanes[c.lane], Arg(c.pos)), action := Stop)
  }

  /** Car j after the switch arbitration. Under `StraightFirst` a blocked
      switcher halts; otherwise a car some switcher collides with stops,
      and the switcher goes on. */
  function ArbitratedCar(cs: seq<Car>, s: Setting, tick: real, j: nat): Car
    requires Positive(s) && LanesExist(cs, s) && j < |cs|
  {
    if s.switchPolicy.StraightFirst?
    then (if Blocked(cs, s, tick, j) then Halt(cs[j], s) else cs[j])
    else (if Hit(cs, s, tick, j) then cs[j].(action := Stop) else cs[j])
  }

  /** The cars after the switch arbitration. */
  function Arbitrate(cs: seq<Car>, s: Setting, tick: real): (r: seq<Car>)
    requires Positive(s) && LanesExist(cs, s)
    ensures |r| == |cs|
    ensures forall j :: 0 <= j < |cs| ==> r[j] == ArbitratedCar(cs, s, tick, j)
  {
    seq(|cs|, j requires 0 <= j < |cs| => ArbitratedCar(cs, s, tick, j))
  }

  /** Under `StraightFirst` only switchers change, under `SwitchFirst` only
      straight cars; in both the changed car stops, and nothing else about
      a car changes but a held switcher's radius, which is put back on its
      own lane. */
  lemma ArbitrateChanges(cs: seq<Car>, s: Setting, tick: real, j: nat)
    requires Positive(s) && LanesExist(cs, s) && j < |cs|
    ensures var c := ArbitratedCar(cs, s, tick, j);
      c == cs[j] || (c.action == Stop && c == cs[j].(pos := c.pos, action := Stop) &&
        c.lane == cs[j].lane && Angle(c) == Angle(cs[j]) &&
        (s.switchPolicy.StraightFirst? ==> cs[j].action.Switch? && c.pos.r == s.rLanes[cs[j].lane]) &&
        (s.switchPolicy.SwitchFirst? ==> cs[j].action.Straight? && c.pos == cs[j].pos))
  {
    if s.switchPolicy.SwitchFirst? && Hit(cs, s, tick, j) {
      var i :| 0 <= i < |cs| && Blocks(cs, s, tick, i, j);
      assert Merging(cs[i], cs[j]);
    }
  }

  // ---------------------------------------------------------------------
  // Integration and bookkeeping

  /** `Car::update` followed by the driver's `update` at time ts. */
  function Advance(c: Car, tick: real, ts: real, s: Setting): (r: Car)
    requires c.lane < |s.rLanes| && ActionFits(c.action, c.lane, |s.rLanes|) && Positive(s)
    requires UpdateReady(CarUpdate(c, tick, s), ts, s)
  {
    DriverUpdate(CarUpdate(c, tick, s), ts, s)
  }

  /** A granted car at time t stays an active car at any later time ts. */
  lemma AdvanceOk(c: Car, tick: real, t: real, ts: real, s: Setting)
    requires WellFormed(s) && Positive(s) && Granted(c, s, t) && tick > 0.0 && t < ts
    ensures UpdateReady(CarUpdate(c, tick, s), ts, s)
    ensures CarOk(Advance(c, tick, ts, s), s, ts)
    ensures Advance(c, tick, ts, s).action == c.action
  {
    var m := CarUpdate(c, tick, s);
    UpdateKeepsRadius(c, tick, s);
    if c.driver.ShortestTime? {
      var st := c.driver.state;
      assert TimeReady(st, m, s);
      var st' := TimeUpdateSpec(st, m, ts, s);
      assert forall l :: 0 <= l < |s.rLanes| ==> st'.laneLastTs[l] <= ts;
    }
  }

  predicate AllAdvanceReady(cs: seq<Car>, tick: real, ts: real, s: Setting) {
    Positive(s) &&
    forall i :: 0 <= i < |cs| ==>
      cs[i].lane < |s.rLanes| && ActionFits(cs[i].action, cs[i].lane, |s.rLanes|) &&
      UpdateReady(CarUpdate(cs[i], tick, s), ts, s)
  }

  function AdvanceAll(cs: seq<Car>, tick: real, ts: real, s: Setting): (r: seq<Car>)
    requires AllAdvanceReady(cs, tick, ts, s)
    ensures |r| == |cs| && forall i :: 0 <= i < |cs| ==> r[i] == Advance(cs[i], tick, ts, s)
  {
    seq(|cs|, i requires 0 <= i < |cs| => Advance(cs[i], tick, ts, s))
  }

  /** The cars that reached their exit, in order. */
  function FinishedOf(cs: seq<Car>, dist: Metric): (r: seq<Car>)
    ensures forall x :: x in r ==> x in cs && Finished(x, dist)
  {
    if |cs| == 0 then []
    else FinishedOf(cs[..|cs| - 1], dist) + (if Finished(cs[|cs| - 1], dist) then [cs[|cs| - 1]] else [])
  }

  /** The cars that go on, in order. */
  function Unfinished(cs: seq<Car>, dist: Metric): (r: seq<Car>)
    ensures forall x :: x in r ==> x in cs && !Finished(x, dist)
  {
    if |cs| == 0 then []
    else Unfinished(cs[..|cs| - 1], dist) + (if Finished(cs[|cs| - 1], dist) then [] else [cs[|cs| - 1]])
  }

  /** The split loses and duplicates no car. */
  lemma SplitConserves(cs: seq<Car>, dist: Metric)
    ensures multiset(FinishedOf(cs, dist)) + multiset(Unfinished(cs, dist)) == multiset(cs)
    ensures |FinishedOf(cs, dist)| + |Unfinished(cs, dist)| == |cs|
  {
    SplitMultiset(cs, dist);
    assert |multiset(FinishedOf(cs, dist)) + multiset(Unfinished(cs, dist))| == |multiset(cs)|;
  }

  lemma {:induction false} SplitMultiset(cs: seq<Car>, dist: Metric)
    ensures multiset(FinishedOf(cs, dist)) + multiset(Unfinished(cs, dist)) == multiset(cs)
  {
    if |cs| > 0 {
      var init, last := cs[..|cs| - 1], cs[|cs| - 1];
      SplitMultiset(init, dist);
      assert cs == init + [last];
      assert multiset(cs) == multiset(init) + multiset{last};
      var f, u := FinishedOf(init, dist), Unfinished(init, dist);
      if Finished(last, dist) {
        assert FinishedOf(cs, dist) == f + [last] && Unfinished(cs, dist) == u;
        assert multiset(f + [last]) == multiset(f) + multiset{last};
      } else {
        assert FinishedOf(cs, dist) == f && Unfinished(cs, dist) == u + [last];
        assert multiset(u + [last]) == multiset(u) + multiset{last};
      }
    }
  }

  /** Some car moved or finished during the step. */
  predicate Progress(cs: seq<Car>, dist: Metric) {
    exists i :: 0 <= i < |cs| && (cs[i].action != Stop || Finished(cs[i], dist))
  }

  /** The cars of a stage at time t can all be advanced at a later time ts. */
  lemma AdvanceReadyAt(cs: seq<Car>, tick: real, t: real, ts: real, s: Setting)
    requires Stage(cs, s, t) && tick > 0.0 && t < ts
    ensures AllAdvanceReady(cs, tick, ts, s)
  {
    forall i | 0 <= i < |cs|
      ensures UpdateReady(CarUpdate(cs[i], tick, s), ts, s)
    {
      AdvanceOk(cs[i], tick, t, ts, s);
    }
  }

  /** All arbitrated, advanced cars of a stage, and those among them that
      remain active, are active cars at the new time. */
  lemma NextAllOk(cs: seq<Car>, tick: real, t: real, s: Setting, dist: Metric)
    requires Stage(cs, s, t) && tick > 0.0
    ensures AllAdvanceReady(cs, tick, t + tick, s)
    ensures AllOk(AdvanceAll(cs, tick, t + tick, s), s, t + tick)
    ensures AllOk(Unfinished(AdvanceAll(cs, tick, t + tick, s), dist), s, t + tick)
  {
    forall i | 0 <= i < |cs|
      ensures UpdateReady(CarUpdate(cs[i], tick, s), t + tick, s)
    {
      AdvanceOk(cs[i], tick, t, t + tick, s);
    }
    var q := AdvanceAll(cs, tick, t + tick, s);
    forall i | 0 <= i < |q|
      ensures CarOk(q[i], s, t + tick)
    {
      AdvanceOk(cs[i], tick, t, t + tick, s);
    }
    var u := Unfinished(q, dist);
    forall i | 0 <= i < |u|
      ensures CarOk(u[i], s, t + tick)
    {
      assert u[i] in q;
    }
  }

  // ---------------------------------------------------------------------
  // The phases keep the stage

  lemma StopKeepsStage(cs: seq<Car>, flags: seq<bool>, s: Setting, t: real)
    requires Stage(cs, s, t) && |flags| == |cs|
    ensures Stage(StopWhere(cs, flags), s, t) && SameLayout(cs, StopWhere(cs, flags))
  {
    var r := StopWhere(cs, flags);
    assert forall i :: 0 <= i < |cs| ==> Angle(r[i]) == Angle(cs[i]);
  }

  lemma FollowKeepsStage(cs: seq<Car>, s: Setting, t: real)
    requires Stage(cs, s, t)
    ensures Stage(AfterFollow(cs, s), s, t) && SameLayout(cs, AfterFollow(cs, s))
  {
    StopKeepsStage(cs, Closeness(cs, s), s, t);
  }

  /** A car of a stage stays granted when the arbitration stops it, with
      or without putting it back on its lane's radius. */
  lemma StoppedGranted(c: Car, c': Car, s: Setting, t: real)
    requires WellFormed(s) && Granted(c, s, t)
    requires c'.action == Stop && c' == c.(pos := c'.pos, action := Stop)
    requires c'.pos == c.pos || c'.pos.r == s.rLanes[c.lane]
    ensures Granted(c', s, t)
  {
    assert s.rLanes[|s.rLanes| - 1] <= s.rLanes[c.lane] <= s.rLanes[0];
  }

  lemma ArbitrateKeepsStage(cs: seq<Car>, s: Setting, t: real, tick: real)
    requires Stage(cs, s, t)
    ensures Stage(Arbitrate(cs, s, tick), s, t) && SameLayout(cs, Arbitrate(cs, s, tick))
  {
    var r := Arbitrate(cs, s, tick);
    forall j | 0 <= j < |cs|
      ensures Granted(r[j], s, t) && Angle(r[j]) == Angle(cs[j]) && r[j].lane == cs[j].lane
    {
      ArbitrateChanges(cs, s, tick, j);
      if r[j] != cs[j] {
        StoppedGranted(cs[j], r[j], s, t);
      }
    }
    LayoutSorted(cs, r);
  }

  /** Cars with the same angles as sorted ones are sorted. */
  lemma LayoutSorted(a: seq<Car>, b: seq<Car>)
    requires SortedByAngle(a) && SameLayout(a, b)
    ensures SortedByAngle(b)
  {
  }

  // ---------------------------------------------------------------------
  // One whole step

  /** The value of one step: the follow check found a shared id, or the
      tick, the cars that finished and those that go on, and whether any
      car made progress. */
  datatype StepValue =
    | Clashed
    | Stepped(tick: real, finished: seq<Car>, remaining: seq<Car>, progress: bool)

  /** The end of a step: the arbitrated cars a of time t move for tick and
      split into finished and remaining ones. */
  function Integrated(a: seq<Car>, tick: real, t: real, s: Setting, dist: Metric): (v: StepValue)
    requires Stage(a, s, t) && tick > 0.0
    ensures v.Stepped? && v.tick == tick
    ensures |v.finished| + |v.remaining| == |a|
    ensures AllOk(v.remaining, s, t + tick)
    ensures forall c :: c in v.finished ==> Finished(c, dist)
    ensures forall c :: c in v.remaining ==> !Finished(c, dist)
  {
    NextAllOk(a, tick, t, s, dist);
    var q := AdvanceAll(a, tick, t + tick, s);
    SplitConserves(q, dist);
    Settle(q, tick, dist)
  }

  /** The advanced cars q split into finished and remaining ones. */
  function Settle(q: seq<Car>, tick: real, dist: Metric): StepValue {
    Stepped(tick, FinishedOf(q, dist), Unfinished(q, dist), Progress(q, dist))
  }

  /** The part of a step after a follow check without a shared id, on
      the proposed cars p. */
  function Advanced(p: seq<Car>, t: real, s: Setting, dist: Metric): (v: StepValue)
    requires Stage(p, s, t)
    ensures v.Stepped? && Min(s.tick, MinUpdateTick) <= v.tick <= s.tick
    ensures |v.finished| + |v.remaining| == |p|
    ensures AllOk(v.remaining, s, t + v.tick)
    ensures forall c :: c in v.finished ==> Finished(c, dist)
    ensures forall c :: c in v.remaining ==> !Finished(c, dist)
  {
    var tick := StepTick(p, s);
    StepTickSpec(p, s);
    FollowKeepsStage(p, s, t);
    var f := AfterFollow(p, s);
    ArbitrateKeepsStage(f, s, t, tick);
    Integrated(Arbitrate(f, s, tick), tick, t, s, dist)
  }

  /** One `update` of the active cars cs at time t. */
  function StepOf(cs: seq<Car>, t: real, s: Setting, dist: Metric): (v: StepValue)
    requires WellFormed(s) && AllOk(cs, s, t)
    ensures v.Stepped? ==> Min(s.tick, MinUpdateTick) <= v.tick <= s.tick
    ensures v.Stepped? ==> |v.finished| + |v.remaining| == |cs|
    ensures v.Stepped? ==> AllOk(v.remaining, s, t + v.tick)
    ensures v.Stepped? ==> forall c :: c in v.finished ==> Finished(c, dist)
    ensures v.Stepped? ==> forall c :: c in v.remaining ==> !Finished(c, dist)
  {
    ProposeStage(cs, t, s, dist);
    var p := Propose(SortByAngle(cs), t, s, dist);
    if Clash(p, s) then Clashed else Advanced(p, t, s, dist)
  }

  /** Car i goes straight on a lane with other cars and has the id of the
      car ahead of it. */
  predicate SharedId(cs: seq<Car>, i: nat)
    requires i < |cs|
  {
    cs[i].action.Straight? && |LaneIndices(cs, cs[i].lane)| > 1 && cs[i].id == cs[Leader(cs, i)].id
  }

  /** The follow check panics exactly when some straight car on a lane
      with another car has the id of the car ahead of it. */
  lemma ClashIsSharedId(cs: seq<Car>, s: Setting)
    requires forall i :: 0 <= i < |cs| ==> cs[i].lane < |s.rLanes| && cs[i].vel > 0.0
    ensures Clash(cs, s) <==> exists i :: 0 <= i < |cs| && SharedId(cs, i)
  {
    if Clash(cs, s) {
      var i :| 0 <= i < |cs| && FollowTime(cs, i, s).Panic?;
      assert cs[i].lane == cs[Leader(cs, i)].lane;
      assert SharedId(cs, i);
    }
    if exists i :: 0 <= i < |cs| && SharedId(cs, i) {
      var i :| 0 <= i < |cs| && SharedId(cs, i);
      assert FollowTime(cs, i, s).Panic?;
    }
  }
}
