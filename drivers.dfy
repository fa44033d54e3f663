/** The driving strategies (src/drivers.rs, plus the older `SimpleDriver`
    of src/lib.rs): the greedy distance driver, the stateful shortest-time
    driver with its per-lane speed estimates, and the factory that picks a
    strategy by name. */
module Drivers {
  import opened Common
  import opened JsonValue
  import opened Setting
  import opened Cars

  /** `SHORTEST_TIME_DRIVER_MIN_STAY`. */
  const MinStay: real := 5.0
  /** `SHORTEST_TIME_DRIVER_REFRESH`. */
  const Refresh: real := 20.0

  // ---------------------------------------------------------------------
  // Greedy distance driver

  /** The remaining angle to the exit, `(dst / pos).arg()`. */
  function RemainingAngle(c: Car): real {
    ArgQuot(c.dst.theta, c.pos.theta)
  }

  /** Arc on the current lane plus the final switch out. */
  function StraightCost(c: Car, s: Setting): real
    requires c.lane < |s.rLanes|
  {
    s.rLanes[c.lane] * Unwrap(RemainingAngle(c)) + (s.rLanes[0] - s.rLanes[c.lane])
  }

  /** Switch one lane in and back out, the inner arc, and the final switch
      out; `None` stands for the infinite cost on the innermost lane. The
      legacy driver charges `2 * r_inner` for the round trip to the inner
      lane, the current one `2 * (r_curr - r_inner)`. */
  function SwitchInCost(c: Car, s: Setting, legacy: bool): (r: Option<real>)
    requires c.lane < |s.rLanes|
    ensures r.Some? <==> c.lane + 1 < |s.rLanes|
  {
    if c.lane + 1 >= |s.rLanes| then None
    else
      var rCurr := s.rLanes[c.lane];
      var rInner := s.rLanes[c.lane + 1];
      var roundTrip := if legacy then 2.0 * rInner else 2.0 * (rCurr - rInner);
      Some(roundTrip + rInner * Unwrap(RemainingAngle(c)) + (s.rLanes[0] - rCurr))
  }

  /** Neither finished nor due to switch out: the driver compares costs. */
  predicate Greedy(c: Car, dist: Metric) {
    !Finished(c, dist) && !(c.lane > 0 && Abs(RemainingAngle(c)) <= ThetaAllow)
  }

  /** `ShortestDistDriver::drive` (legacy = false) and `SimpleDriver::drive`
      (legacy = true). */
  function GreedyAction(c: Car, s: Setting, dist: Metric, legacy: bool): (a: Action)
    requires c.lane < |s.rLanes|
    ensures Finished(c, dist) ==> a == Stop
    ensures !Finished(c, dist) && c.lane > 0 && Abs(RemainingAngle(c)) <= ThetaAllow ==> a == SwitchOut
    ensures Greedy(c, dist) ==>
      (a == SwitchIn <==>
        SwitchInCost(c, s, legacy).Some? && SwitchInCost(c, s, legacy).value < StraightCost(c, s))
    ensures Greedy(c, dist) && a != SwitchIn ==> a == Straight
    ensures c.lane + 1 == |s.rLanes| ==> a != SwitchIn
    ensures ActionFits(a, c.lane, |s.rLanes|)
  {
    if Finished(c, dist) then Stop
    else if c.lane > 0 && Abs(RemainingAngle(c)) <= ThetaAllow then SwitchOut
    else
      var switchIn := SwitchInCost(c, s, legacy);
      if switchIn.Some? && switchIn.value < StraightCost(c, s) && c.lane < |s.rLanes| - 1
      then SwitchIn else Straight
  }

  /** With the current cost, a greedy car moves inward exactly when the
      inner lane is strictly smaller and more than two radians remain. */
  lemma ShortestDistSwitchIn(c: Car, s: Setting, dist: Metric)
    requires c.lane < |s.rLanes| && NonIncreasing(s.rLanes) && Greedy(c, dist)
    ensures GreedyAction(c, s, dist, false) == SwitchIn <==>
      c.lane + 1 < |s.rLanes| && s.rLanes[c.lane] > s.rLanes[c.lane + 1]
      && Unwrap(RemainingAngle(c)) > 2.0
  {
    if c.lane + 1 < |s.rLanes| {
      var rc := s.rLanes[c.lane];
      var ri := s.rLanes[c.lane + 1];
      var u := Unwrap(RemainingAngle(c));
      assert rc >= ri;
      var a, b := rc - ri, 2.0 - u;
      assert SwitchInCost(c, s, false).value - StraightCost(c, s) == a * b;
      ProductSign(a, b);
    }
  }

  /** The sign of a product whose first factor is not negative. */
  lemma ProductSign(a: real, b: real)
    requires a >= 0.0
    ensures a * b < 0.0 <==> a > 0.0 && b < 0.0
  {
    if a > 0.0 && b < 0.0 {
      assert a * b < a * 0.0;
    } else if a > 0.0 {
      assert a * b >= a * 0.0;
    }
  }

  /** With the legacy cost, a greedy car moves inward exactly when twice
      the inner radius is below the arc length it saves. */
  lemma SimpleSwitchIn(c: Car, s: Setting, dist: Metric)
    requires c.lane < |s.rLanes| && Greedy(c, dist)
    ensures GreedyAction(c, s, dist, true) == SwitchIn <==>
      c.lane + 1 < |s.rLanes| &&
      2.0 * s.rLanes[c.lane + 1] < (s.rLanes[c.lane] - s.rLanes[c.lane + 1]) * Unwrap(RemainingAngle(c))
  {
    if c.lane + 1 < |s.rLanes| {
      var rc := s.rLanes[c.lane];
      var ri := s.rLanes[c.lane + 1];
      var u := Unwrap(RemainingAngle(c));
      assert StraightCost(c, s) - SwitchInCost(c, s, true).value == (rc - ri) * u - 2.0 * ri;
    }
  }

  // ---------------------------------------------------------------------
  // Factory

  /** The record of a freshly made shortest-time driver, before `init`. */
  const EmptyTimeState: TimeState := TimeState([], [], [], 0)

  /** `DriverFactory::make_boxed_from_json`: anything but the two names,
      including a non-string, gives the default distance driver. */
  function MakeDriver(j: Json): (d: Driver)
    ensures d.ShortestTime? <==> j == Str("ShortestTime")
    ensures d.ShortestTime? ==> d.state == EmptyTimeState
    ensures !d.ShortestTime? ==> d == ShortestDist
  {
    if j.Str? then
      if j.s == "ShortestDist" then ShortestDist
      else if j.s == "ShortestTime" then ShortestTime(EmptyTimeState)
      else ShortestDist
    else ShortestDist
  }

  // ---------------------------------------------------------------------
  // Shortest-time driver

  /** The per-lane vectors match the lanes, and the quantities `drive`
      divides by are usable. */
  predicate TimeReady(st: TimeState, c: Car, s: Setting) {
    c.lane < |s.rLanes| && c.vel > 0.0 &&
    |st.laneLastTs| == |s.rLanes| && |st.laneLastPos| == |s.rLanes| && |st.laneVel| == |s.rLanes|
  }

  /** `ShortestTimeDriver::init` as written: it leaves `prev_lane` alone. */
  function TimeInitAsWritten(st: TimeState, c: Car, s: Setting): (r: TimeState)
    ensures |r.laneLastTs| == |r.laneLastPos| == |r.laneVel| == |s.rLanes|
    ensures forall i :: 0 <= i < |s.rLanes| ==>
      r.laneLastTs[i] == 0.0 && r.laneLastPos[i] == c.pos && r.laneVel[i] == c.vel
    ensures r.prevLane == st.prevLane
  {
    var n := |s.rLanes|;
    TimeState(seq(n, _ => 0.0), seq(n, _ => c.pos), seq(n, _ => c.vel), st.prevLane)
  }

  /** `init` with the previous lane recorded as the car's own lane. */
  function TimeInit(st: TimeState, c: Car, s: Setting): (r: TimeState)
    ensures |r.laneLastTs| == |r.laneLastPos| == |r.laneVel| == |s.rLanes|
    ensures forall i :: 0 <= i < |s.rLanes| ==>
      r.laneLastTs[i] == 0.0 && r.laneLastPos[i] == c.pos && r.laneVel[i] == c.vel
    ensures r.prevLane == c.lane
  {
    TimeInitAsWritten(st, c, s).(prevLane := c.lane)
  }

  /** The best value found so far and where: `value == None` plays the
      role of `f32::INFINITY`. */
  datatype Best = Best(index: Option<nat>, value: Option<real>)

  /** x is strictly below the running minimum m. */
  predicate Below(x: Option<real>, m: Option<real>) {
    x.Some? && (m.None? || x.value < m.value)
  }

  /** The scan `if x < min { min = x; idx = i }` over xs, where `None`
      entries never win: the first index holding the minimum. */
  function FirstMin(xs: seq<Option<real>>): (b: Best)
    ensures b.index.None? <==> b.value.None?
    ensures b.index.None? ==> forall j :: 0 <= j < |xs| ==> xs[j].None?
    ensures b.index.Some? ==> b.index.value < |xs| && xs[b.index.value] == b.value
    ensures b.value.Some? ==> forall j :: 0 <= j < |xs| && xs[j].Some? ==> b.value.value <= xs[j].value
    ensures b.index.Some? ==> forall j :: 0 <= j < b.index.value ==> xs[j].None? || xs[j].value > b.value.value
  {
    if |xs| == 0 then Best(None, None)
    else
      var prev := FirstMin(xs[..|xs| - 1]);
      var i := |xs| - 1;
      if Below(xs[i], prev.value) then Best(Some(i), xs[i]) else prev
  }

  /** The estimated arrival time through lane i; `None` is the infinite
      (or undefined) value of a division by a zero lane speed, which never
      beats the running minimum. */
  function LaneTime(st: TimeState, c: Car, s: Setting, i: nat): (r: Option<real>)
    requires TimeReady(st, c, s) && i < |s.rLanes|
    ensures r.None? <==> st.laneVel[i] == 0.0
  {
    if st.laneVel[i] == 0.0 then None
    else
      Some(s.rLanes[i] * Unwrap(RemainingAngle(c)) / st.laneVel[i]
        + Abs(s.rLanes[i] - s.rLanes[c.lane]) / c.vel
        + (s.rLanes[0] - s.rLanes[i]) / c.vel)
  }

  function LaneTimes(st: TimeState, c: Car, s: Setting): (r: seq<Option<real>>)
    requires TimeReady(st, c, s)
    ensures |r| == |s.rLanes|
    ensures forall i :: 0 <= i < |s.rLanes| ==> r[i] == LaneTime(st, c, s, i)
  {
    seq(|s.rLanes|, i requires 0 <= i < |s.rLanes| => LaneTime(st, c, s, i))
  }

  /** The lane of earliest arrival; the car's own lane when no estimate is
      finite. */
  function ChosenLane(st: TimeState, c: Car, s: Setting): (m: nat)
    requires TimeReady(st, c, s)
    ensures m < |s.rLanes|
  {
    match FirstMin(LaneTimes(st, c, s)).index
    case None => c.lane
    case Some(m) => m
  }

  /** Recently entered and aligned with the lane: keep going. */
  predicate Dwelling(st: TimeState, c: Car, ts: real, s: Setting)
    requires TimeReady(st, c, s)
  {
    ts - st.laneLastTs[c.lane] < MinStay && IsOnLane(c.pos, s.rLanes[c.lane])
  }

  /** `ShortestTimeDriver::drive`. */
  function TimeAction(st: TimeState, c: Car, ts: real, s: Setting): (a: Action)
    requires TimeReady(st, c, s)
    ensures Dwelling(st, c, ts, s) ==> a == Straight
    ensures !Dwelling(st, c, ts, s) ==>
      var m := ChosenLane(st, c, s);
      (m < c.lane ==> a == SwitchOut) && (m > c.lane ==> a == SwitchIn) &&
      (m == c.lane && IsOnLane(c.pos, s.rLanes[c.lane]) ==> a == Straight) &&
      (m == c.lane && !IsOnLane(c.pos, s.rLanes[c.lane]) ==>
        (a == SwitchOut <==> c.pos.r > s.rLanes[c.lane]) && (a == SwitchOut || a == SwitchIn))
  {
    if Dwelling(st, c, ts, s) then Straight
    else
      var m := ChosenLane(st, c, s);
      if m < c.lane then SwitchOut
      else if m > c.lane then SwitchIn
      else if IsOnLane(c.pos, s.rLanes[c.lane]) then Straight
      else if c.pos.r > s.rLanes[c.lane] then SwitchOut
      else SwitchIn
  }

  /** The chosen lane is the smallest index with the least finite arrival
      estimate. */
  lemma ChosenLaneIsFirstMin(st: TimeState, c: Car, s: Setting)
    requires TimeReady(st, c, s)
    ensures var m := ChosenLane(st, c, s);
      (forall i :: 0 <= i < |s.rLanes| ==> LaneTime(st, c, s, i).None?) ||
      (LaneTime(st, c, s, m).Some? &&
       (forall i :: 0 <= i < |s.rLanes| && LaneTime(st, c, s, i).Some? ==>
          LaneTime(st, c, s, m).value <= LaneTime(st, c, s, i).value) &&
       (forall i :: 0 <= i < m ==>
          LaneTime(st, c, s, i).None? || LaneTime(st, c, s, i).value > LaneTime(st, c, s, m).value))
  {
    var xs := LaneTimes(st, c, s);
    var b := FirstMin(xs);
    if b.index.Some? {
      assert xs[b.index.value] == b.value;
    }
  }

  /** `ShortestTimeDriver::drive` as the loop it is. */
  method ShortestTimeDrive(st: TimeState, c: Car, ts: real, s: Setting) returns (a: Action)
    requires TimeReady(st, c, s)
    ensures a == TimeAction(st, c, ts, s)
  {
    if ts - st.laneLastTs[c.lane] < MinStay && IsOnLane(c.pos, s.rLanes[c.lane]) {
      return Straight;
    }
    var times := LaneTimes(st, c, s);
    var minTime: Option<real> := None;
    var minLane: nat := c.lane;
    var i := 0;
    while i < |s.rLanes|
      invariant 0 <= i <= |s.rLanes|
      invariant FirstMin(times[..i]).value == minTime
      invariant minLane == match FirstMin(times[..i]).index case None => c.lane case Some(m) => m
    {
      var laneTime := LaneTime(st, c, s, i);
      assert times[..i + 1][..i] == times[..i];
      if Below(laneTime, minTime) {
        minTime := laneTime;
        minLane := i;
      }
      i := i + 1;
    }
    assert times[..i] == times;
    if minLane < c.lane {
      a := SwitchOut;
    } else if minLane > c.lane {
      a := SwitchIn;
    } else if IsOnLane(c.pos, s.rLanes[c.lane]) {
      a := Straight;
    } else if c.pos.r > s.rLanes[c.lane] {
      a := SwitchOut;
    } else {
      a := SwitchIn;
    }
  }

  /** A car between the outermost and the innermost radius is never told
      to leave the roundabout's lanes. */
  lemma TimeActionFits(st: TimeState, c: Car, ts: real, s: Setting)
    requires TimeReady(st, c, s) && NonIncreasing(s.rLanes)
    requires s.rLanes[|s.rLanes| - 1] <= c.pos.r <= s.rLanes[0]
    ensures var a := TimeAction(st, c, ts, s);
      ActionFits(a, c.lane, |s.rLanes|) && a in {Straight, SwitchOut, SwitchIn}
  {
    var n := |s.rLanes|;
    var m := ChosenLane(st, c, s);
    if !Dwelling(st, c, ts, s) && m == c.lane && !IsOnLane(c.pos, s.rLanes[c.lane]) {
      if c.pos.r > s.rLanes[c.lane] {
        assert c.lane > 0;
      } else {
        assert c.lane < n - 1;
      }
    }
  }

  /** Entry i has gone unobserved for longer than `REFRESH` and is not the
      car's lane. */
  predicate Stale(lastTs: seq<real>, ts: real, lane: nat, i: nat)
    requires i < |lastTs|
  {
    ts - lastTs[i] > Refresh && i != lane
  }

  /** The timestamps of the stale lanes; the others never win the scan. */
  function StaleTimes(lastTs: seq<real>, ts: real, lane: nat): (r: seq<Option<real>>)
    ensures |r| == |lastTs|
    ensures forall i :: 0 <= i < |lastTs| ==>
      r[i] == if Stale(lastTs, ts, lane, i) then Some(lastTs[i]) else None
  {
    seq(|lastTs|, i requires 0 <= i < |lastTs| =>
      if Stale(lastTs, ts, lane, i) then Some(lastTs[i]) else None)
  }

  /** The lane whose record `update` refreshes: a stale lane with the
      oldest timestamp, the first such; none when no lane is stale. */
  function RefreshedLane(lastTs: seq<real>, ts: real, lane: nat): (r: Option<nat>)
    ensures r.None? <==> forall j :: 0 <= j < |lastTs| ==> !Stale(lastTs, ts, lane, j)
    ensures r.Some? ==> r.value < |lastTs| && Stale(lastTs, ts, lane, r.value)
    ensures r.Some? ==> forall j :: 0 <= j < |lastTs| && Stale(lastTs, ts, lane, j) ==>
      lastTs[r.value] <= lastTs[j]
    ensures r.Some? ==> forall j :: 0 <= j < r.value && Stale(lastTs, ts, lane, j) ==>
      lastTs[j] > lastTs[r.value]
  {
    var xs := StaleTimes(lastTs, ts, lane);
    var b := FirstMin(xs);
    if b.index.Some? then
      assert xs[b.index.value] == b.value;
      b.index
    else
      assert forall j :: 0 <= j < |lastTs| ==> xs[j].None?;
      b.index
  }

  /** The first part of `update`: after a lane change, restart the record
      of the new lane from the car's own speed, position and time. */
  function ResetRecord(st: TimeState, c: Car, ts: real): (r: TimeState)
    requires c.lane < |st.laneLastTs| && c.lane < |st.laneLastPos| && c.lane < |st.laneVel|
    ensures r.prevLane == c.lane
    ensures |r.laneLastTs| == |st.laneLastTs| && |r.laneLastPos| == |st.laneLastPos| && |r.laneVel| == |st.laneVel|
    ensures forall l :: 0 <= l < |st.laneLastTs| && l != c.lane ==> r.laneLastTs[l] == st.laneLastTs[l]
    ensures r.laneLastTs[c.lane] == st.laneLastTs[c.lane] || r.laneLastTs[c.lane] == ts
  {
    if st.prevLane != c.lane then
      st.(prevLane := c.lane,
          laneVel := st.laneVel[c.lane := c.vel],
          laneLastPos := st.laneLastPos[c.lane := c.pos],
          laneLastTs := st.laneLastTs[c.lane := ts])
    else st
  }

  /** The speed observed on the car's lane since the lane's last record:
      arc length over elapsed time. */
  function MeasuredSpeed(st: TimeState, c: Car, ts: real, s: Setting): (v: real)
    requires TimeReady(st, c, s) && ts != st.laneLastTs[c.lane]
    ensures v * (ts - st.laneLastTs[c.lane]) ==
      s.rLanes[c.lane] * Unwrap(ArgQuot(c.pos.theta, st.laneLastPos[c.lane].theta))
  {
    s.rLanes[c.lane] * Unwrap(ArgQuot(c.pos.theta, st.laneLastPos[c.lane].theta))
      / (ts - st.laneLastTs[c.lane])
  }

  /** The second part of `update`: double the speed estimate of the lane
      `RefreshedLane` picks, capped at the car's speed, and stamp it with
      the current time. */
  function RefreshRecord(st: TimeState, c: Car, ts: real): (r: TimeState)
    requires |st.laneVel| == |st.laneLastTs|
    ensures r == st.(laneVel := r.laneVel, laneLastTs := r.laneLastTs)
    ensures |r.laneVel| == |st.laneVel| && |r.laneLastTs| == |st.laneLastTs|
    ensures forall i :: 0 <= i < |st.laneVel| ==>
      if RefreshedLane(st.laneLastTs, ts, c.lane) == Some(i)
      then r.laneVel[i] == Min(2.0 * st.laneVel[i], c.vel) && r.laneLastTs[i] == ts
      else r.laneVel[i] == st.laneVel[i] && r.laneLastTs[i] == st.laneLastTs[i]
  {
    match RefreshedLane(st.laneLastTs, ts, c.lane)
    case None => st
    case Some(i) =>
      st.(laneVel := st.laneVel[i := Min(2.0 * st.laneVel[i], c.vel)],
          laneLastTs := st.laneLastTs[i := ts])
  }

  /** The third part of `update`: a straight or stopped car replaces the
      estimate of its lane by the observed speed, capped at its own. */
  function MeasureRecord(st: TimeState, c: Car, ts: real, s: Setting): (r: TimeState)
    requires TimeReady(st, c, s)
    requires c.action.Straight? || c.action.Stop? ==> ts != st.laneLastTs[c.lane]
    ensures r == st.(laneVel := r.laneVel) && |r.laneVel| == |st.laneVel|
    ensures forall i :: 0 <= i < |st.laneVel| && i != c.lane ==> r.laneVel[i] == st.laneVel[i]
    ensures c.action.Switch? ==> r == st
    ensures c.action.Straight? || c.action.Stop? ==> r.laneVel[c.lane] == Min(MeasuredSpeed(st, c, ts, s), c.vel)
    ensures c.action.Straight? || c.action.Stop? ==> r.laneVel[c.lane] <= c.vel
    ensures (c.action.Straight? || c.action.Stop?) && ts > st.laneLastTs[c.lane] && s.rLanes[c.lane] >= 0.0
      ==> 0.0 <= r.laneVel[c.lane]
  {
    if c.action.Straight? || c.action.Stop? then
      UnwrapRange(ArgQuot(c.pos.theta, st.laneLastPos[c.lane].theta));
      st.(laneVel := st.laneVel[c.lane := Min(MeasuredSpeed(st, c, ts, s), c.vel)])
    else st
  }

  /** A lane reset does not change which lane is refreshed: the car's own
      lane is never stale. */
  lemma ResetKeepsRefreshed(st: TimeState, c: Car, ts: real)
    requires c.lane < |st.laneLastTs| && c.lane < |st.laneLastPos| && c.lane < |st.laneVel|
    ensures RefreshedLane(ResetRecord(st, c, ts).laneLastTs, ts, c.lane)
         == RefreshedLane(st.laneLastTs, ts, c.lane)
  {
    assert StaleTimes(ResetRecord(st, c, ts).laneLastTs, ts, c.lane) == StaleTimes(st.laneLastTs, ts, c.lane);
  }

  /** The value of `ShortestTimeDriver::update`. A straight or stopped car
      must still be on the lane it was on before (what the engine
      guarantees) with a record older than ts, since otherwise the source
      divides zero by zero. */
  function TimeUpdateSpec(st: TimeState, c: Car, ts: real, s: Setting): (r: TimeState)
    requires TimeReady(st, c, s)
    requires c.action.Straight? || c.action.Stop? ==>
      st.prevLane == c.lane && ts != st.laneLastTs[c.lane]
    ensures TimeReady(r, c, s) && r.prevLane == c.lane
    ensures c.action.Straight? || c.action.Stop? ==> r.laneVel[c.lane] == Min(MeasuredSpeed(st, c, ts, s), c.vel)
    ensures c.action.Straight? || c.action.Stop? ==> r.laneVel[c.lane] <= c.vel
    ensures (c.action.Straight? || c.action.Stop?) && ts > st.laneLastTs[c.lane] && s.rLanes[c.lane] >= 0.0
      ==> 0.0 <= r.laneVel[c.lane]
    ensures c.action.Switch? ==>
      var st1 := ResetRecord(st, c, ts);
      r.laneVel[c.lane] == st1.laneVel[c.lane] && r.laneLastTs[c.lane] == st1.laneLastTs[c.lane]
    ensures r.laneLastPos == ResetRecord(st, c, ts).laneLastPos
    ensures r.laneLastTs[c.lane] == ResetRecord(st, c, ts).laneLastTs[c.lane]
    ensures forall i :: 0 <= i < |s.rLanes| && i != c.lane ==>
      if RefreshedLane(st.laneLastTs, ts, c.lane) == Some(i)
      then r.laneVel[i] == Min(2.0 * st.laneVel[i], c.vel) && r.laneLastTs[i] == ts
      else r.laneVel[i] == st.laneVel[i] && r.laneLastTs[i] == st.laneLastTs[i]
  {
    var st1 := ResetRecord(st, c, ts);
    ResetKeepsRefreshed(st, c, ts);
    var st2 := RefreshRecord(st1, c, ts);
    assert st2.laneLastTs[c.lane] == st1.laneLastTs[c.lane];
    assert c.action.Straight? || c.action.Stop? ==>
      st1 == st && MeasuredSpeed(st2, c, ts, s) == MeasuredSpeed(st, c, ts, s) by {
      if c.action.Straight? || c.action.Stop? {
        RefreshKeepsMeasure(st, c, ts, s);
      }
    }
    MeasureRecord(st2, c, ts, s).(prevLane := c.lane)
  }

  /** The refresh scan of `update`. */
  method ScanStale(lastTs: seq<real>, ts: real, lane: nat) returns (needRefresh: Option<nat>)
    ensures needRefresh == RefreshedLane(lastTs, ts, lane)
  {
    var stale := StaleTimes(lastTs, ts, lane);
    needRefresh := None;
    var oldestTs: Option<real> := None;
    var i := 0;
    while i < |lastTs|
      invariant 0 <= i <= |lastTs|
      invariant FirstMin(stale[..i]) == Best(needRefresh, oldestTs)
    {
      assert stale[..i + 1][..i] == stale[..i];
      if ts - lastTs[i] > Refresh && i != lane && Below(Some(lastTs[i]), oldestTs) {
        oldestTs := Some(lastTs[i]);
        needRefresh := Some(i);
      }
      i := i + 1;
    }
    assert stale[..i] == stale;
  }

  /** On the lane it was already on, a car's observed speed is the same
      before and after the refresh of another lane. */
  lemma RefreshKeepsMeasure(st: TimeState, c: Car, ts: real, s: Setting)
    requires TimeReady(st, c, s) && st.prevLane == c.lane && ts != st.laneLastTs[c.lane]
    ensures ResetRecord(st, c, ts) == st
    ensures var st2 := RefreshRecord(st, c, ts);
      TimeReady(st2, c, s) && ts != st2.laneLastTs[c.lane] &&
      MeasuredSpeed(st2, c, ts, s) == MeasuredSpeed(st, c, ts, s)
  {
    var st2 := RefreshRecord(st, c, ts);
    assert st2.laneLastPos == st.laneLastPos;
    assert RefreshedLane(st.laneLastTs, ts, c.lane) != Some(c.lane);
    assert st2.laneLastTs[c.lane] == st.laneLastTs[c.lane];
    SameOwnRecord(st2, st, c, ts, s);
  }

  /** The observed speed reads only the record of the car's own lane. */
  lemma SameOwnRecord(a: TimeState, b: TimeState, c: Car, ts: real, s: Setting)
    requires TimeReady(a, c, s) && TimeReady(b, c, s) && ts != a.laneLastTs[c.lane]
    requires a.laneLastPos[c.lane] == b.laneLastPos[c.lane] && a.laneLastTs[c.lane] == b.laneLastTs[c.lane]
    ensures MeasuredSpeed(a, c, ts, s) == MeasuredSpeed(b, c, ts, s)
  {
  }

  /** `ShortestTimeDriver::update`. */
  method TimeUpdate(st: TimeState, c: Car, ts: real, s: Setting) returns (r: TimeState)
    requires TimeReady(st, c, s)
    requires c.action.Straight? || c.action.Stop? ==>
      st.prevLane == c.lane && ts != st.laneLastTs[c.lane]
    ensures r == TimeUpdateSpec(st, c, ts, s)
  {
    r := st;
    if r.prevLane != c.lane {
      r := r.(prevLane := c.lane);
      r := r.(laneVel := r.laneVel[c.lane := c.vel]);
      r := r.(laneLastPos := r.laneLastPos[c.lane := c.pos]);
      r := r.(laneLastTs := r.laneLastTs[c.lane := ts]);
    }
    assert r == ResetRecord(st, c, ts);
    ghost var r1 := r;
    var needRefresh := ScanStale(r.laneLastTs, ts, c.lane);
    if needRefresh.Some? {
      var k := needRefresh.value;
      r := r.(laneVel := r.laneVel[k := 2.0 * r.laneVel[k]]);
      if r.laneVel[k] > c.vel {
        r := r.(laneVel := r.laneVel[k := c.vel]);
      }
      r := r.(laneLastTs := r.laneLastTs[k := ts]);
    }
    assert r == RefreshRecord(r1, c, ts);
    ghost var r2 := r;
    if c.action.Straight? || c.action.Stop? {
      r := r.(laneVel := r.laneVel[c.lane := MeasuredSpeed(r, c, ts, s)]);
      if r.laneVel[c.lane] > c.vel {
        r := r.(laneVel := r.laneVel[c.lane := c.vel]);
      }
    }
    assert r == MeasureRecord(r2, c, ts, s);
    r := r.(prevLane := c.lane);
  }

  /** As written, a freshly made and initialised shortest-time driver of a
      car that starts on an inner lane takes its first `update` for a lane
      change: the record of the car's lane is restarted at ts, so a straight
      or stopped car's speed estimate becomes zero arc over zero time. */
  lemma AsWrittenInitZeroElapsed(c: Car, s: Setting, ts: real)
    requires 0 < c.lane < |s.rLanes| && c.vel > 0.0
    ensures var st := TimeInitAsWritten(EmptyTimeState, c, s);
      var st1 := ResetRecord(st, c, ts);
      st.prevLane != c.lane && ts - st1.laneLastTs[c.lane] == 0.0 &&
      Unwrap(ArgQuot(c.pos.theta, st1.laneLastPos[c.lane].theta)) == 0.0
  {
    WrapPrincipal(0.0);
  }

  /** With the previous lane recorded by `init`, the first `update` at any
      positive time is well defined for every action, and a straight or
      stopped car's lane estimate lies between zero and its speed. */
  lemma InitThenUpdate(c: Car, s: Setting, ts: real)
    requires c.lane < |s.rLanes| && c.vel > 0.0 && ts > 0.0 && s.rLanes[c.lane] >= 0.0
    ensures var st := TimeInit(EmptyTimeState, c, s);
      TimeReady(st, c, s) &&
      (c.action.Straight? || c.action.Stop? ==>
        st.prevLane == c.lane && ts != st.laneLastTs[c.lane] &&
        0.0 <= TimeUpdateSpec(st, c, ts, s).laneVel[c.lane] <= c.vel)
  {
  }

  // ---------------------------------------------------------------------
  // Dispatch over the strategy a car carries

  /** What a car's driver needs to be asked for an action. */
  predicate DriverReady(c: Car, s: Setting) {
    c.lane < |s.rLanes| && c.vel > 0.0 &&
    (c.driver.ShortestTime? ==> TimeReady(c.driver.state, c, s))
  }

  /** `driver.drive(car, ts, setting)`. */
  function Drive(c: Car, ts: real, s: Setting, dist: Metric): (a: Action)
    requires DriverReady(c, s)
    ensures !c.driver.ShortestTime? ==> (a == Stop <==> Finished(c, dist))
    ensures c.driver.ShortestTime? ==> a != Stop
  {
    match c.driver
    case Simple => GreedyAction(c, s, dist, true)
    case ShortestDist => GreedyAction(c, s, dist, false)
    case ShortestTime(st) => TimeAction(st, c, ts, s)
  }

  method DriveCar(c: Car, ts: real, s: Setting, dist: Metric) returns (a: Action)
    requires DriverReady(c, s)
    ensures a == Drive(c, ts, s, dist)
  {
    match c.driver
    case Simple =>
      a := GreedyAction(c, s, dist, true);
    case ShortestDist =>
      a := GreedyAction(c, s, dist, false);
    case ShortestTime(st) =>
      a := ShortestTimeDrive(st, c, ts, s);
  }

  /** Every proposal is one of the four actions the engine arbitrates, and
      lands on an existing lane. */
  lemma DriveFits(c: Car, ts: real, s: Setting, dist: Metric)
    requires DriverReady(c, s) && NonIncreasing(s.rLanes)
    requires s.rLanes[|s.rLanes| - 1] <= c.pos.r <= s.rLanes[0]
    ensures var a := Drive(c, ts, s, dist);
      ActionFits(a, c.lane, |s.rLanes|) && a in {Stop, Straight, SwitchOut, SwitchIn}
  {
    if c.driver.ShortestTime? {
      TimeActionFits(c.driver.state, c, ts, s);
    }
  }

  /** Whether a car's strategy may take its `update` at time ts. */
  predicate UpdateReady(c: Car, ts: real, s: Setting) {
    DriverReady(c, s) &&
    (c.driver.ShortestTime? && (c.action.Straight? || c.action.Stop?) ==>
      c.driver.state.prevLane == c.lane && ts != c.driver.state.laneLastTs[c.lane])
  }

  /** `driver.update(car, ts, setting)`: only the strategy's record of a
      shortest-time car changes. */
  function DriverUpdate(c: Car, ts: real, s: Setting): (r: Car)
    requires UpdateReady(c, ts, s)
    ensures r == c.(driver := r.driver)
    ensures r.driver.ShortestTime? <==> c.driver.ShortestTime?
    ensures r.driver.ShortestTime? ==>
      TimeReady(r.driver.state, r, s) && r.driver.state.prevLane == c.lane
    ensures !c.driver.ShortestTime? ==> r == c
    ensures c.driver.ShortestTime? ==> r.driver.state == TimeUpdateSpec(c.driver.state, c, ts, s)
  {
    match c.driver
    case Simple => c
    case ShortestDist => c
    case ShortestTime(st) => c.(driver := ShortestTime(TimeUpdateSpec(st, c, ts, s)))
  }

  method UpdateDriver(c: Car, ts: real, s: Setting) returns (r: Car)
    requires UpdateReady(c, ts, s)
    ensures r == DriverUpdate(c, ts, s)
  {
    match c.driver
    case Simple =>
      r := c;
    case ShortestDist =>
      r := c;
    case ShortestTime(st) =>
      var st' := TimeUpdate(st, c, ts, s);
      r := c.(driver := ShortestTime(st'));
  }
}
