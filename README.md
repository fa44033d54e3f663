# roundabout_sim, modelled in Dafny

This project models the simulation engine of roundabout_sim. Cars circulate
on concentric circular lanes. Lane 0 is the outermost. Every car leaves at
an exit point on lane 0.

One call of `RoundaboutSim::update` (src/lib.rs) runs these phases in order:

1. sort the active cars by angle and group them by lane;
2. ask every car's driver for an action;
3. run the same-lane following check, which lowers the step's tick or stops
   a follower that is too close;
4. arbitrate switch-into-lane conflicts under the `SwitchPolicy`;
5. advance the clock;
6. move every car by its action;
7. move the finished cars to the finished list;
8. panic when no car moved or finished.

The model has ten modules:

- `Common` (src/common.rs): the constants, angle helpers and `Action`.
- `JsonValue`: the part of the `json` crate that loading and the generators
  use.
- `Setting` (src/setting.rs): the default setting, `new`, `to_json`,
  `gen_circular` and the asserts of `gen_random`.
- `Cars`: the car record, `Car::finished` and `Car::update`.
- `Drivers` (src/drivers.rs, plus the `SimpleDriver` of src/lib.rs).
- `Collision`: `straight_collision` and `switch_collision`.
- `Lanes`: the sort, the lane map, the following pairs and the binary
  search.
- `Step`: each phase of `update` as a function of the sorted cars, with
  their properties.
- `Engine`: the loops of `update`, each proved to compute its phase in
  `Step`.
- `Sim`: the class `RoundaboutSim`, with loading (`new`), `update` and
  `sim_run`.

Modelling choices:

- Every `f32` is a `real`.
- A position is a polar pair `Polar(r, theta)`. `Arg` reduces an angle into
  (-Pi, Pi]; `ArgQuot(a, b)` is the `arg` of a quotient. Pi is the `f32`
  literal 3.1415927.
- The Euclidean distance needs a cosine, so the engine takes it as a
  parameter `dist: Metric`. `Car::finished` is `lane == 0 && dist(dst, pos)
  <= DIST_ALLOW` with that parameter.
- The `f32::INFINITY` and `f32::MAX` sentinels become `None` or `Absent`.
- `assert!` failures and `panic`s become `Panic` values (`Outcome`), or
  `Clashed` for a whole step.
- Cars are records in a sequence, addressed by index. The lane map holds
  indices into the sorted cars. Each driver is a tagged value owned by its
  car: `Simple`, `ShortestDist` or `ShortestTime(state)`.

The repository holds two snapshots of the design. The engine follows
src/lib.rs, including its `switch_collision` exactly as written (see the
first finding). The drivers and settings follow src/drivers.rs,
src/setting.rs and src/common.rs. The actions `SWITCH_OUT` and `SWITCH_IN`
are the constants `Common.SwitchOut` (`Switch(-1)`) and `Common.SwitchIn`
(`Switch(1)`) of src/common.rs:17-18; the contracts of
`Drivers.GreedyAction` and `Drivers.TimeAction` are stated with them.
Where the snapshots differ:

- **Default policy.** src/lib.rs:155 gives `SwitchFirst`; src/setting.rs:26
  gives `StraightFirst`. The model uses `StraightFirst` (`Setting.Default`).
  The `to_json` of src/lib.rs:158-164 writes no `switch_policy`. The one of
  src/setting.rs:29-36 always writes `"StraightFirst"`, and the model
  follows it.
- **Switch-in cost.** `SimpleDriver` charges `2.0 * r_inner` for the trip
  into the inner lane and back (src/lib.rs:50). `ShortestDistDriver` charges
  `2 * (r_curr - r_inner)` (src/drivers.rs:84). `Drivers.GreedyAction`
  covers both through its `legacy` flag; the two lemmas
  `ShortestDistSwitchIn` and `SimpleSwitchIn` state when each one moves
  inward.
- **Drivers of loaded cars.** `RoundaboutSim::new` gives every loaded car a
  `SimpleDriver` (src/lib.rs:281), and so does the model. The
  `DriverFactory` is `Drivers.MakeDriver`.
- **Driver hooks.** The `Driver` trait of src/lib.rs has only `drive`; the
  one of src/drivers.rs adds `init` and `update`. The model runs each car's
  `update` hook at the new time, right after `Car::update`, in the update
  loop. For the two drivers without state the hook changes nothing.
- **Time passed to `drive`.** `drive` receives the clock before the step
  (`self.t`).

Other facts of the code that the model keeps:

- Lane radii need only be non-increasing. `new` checks `is_sorted` on the
  reversed list (src/setting.rs:90-93), so equal radii pass; the assert
  message there speaks of a decreasing order.
- Loading does not reject a non-positive speed or an exit index outside
  [0, n_inter) (src/lib.rs:269-282). `dst` is read with `as_f32` and scaled.
  In the model, a simulator loaded with such a car cannot take a step,
  because `Sim.RoundaboutSim.Update` requires positive speeds.
- `update` has no check that downgrades `Straight` to `Stop` for a car that
  is off its lane, and no side-collision check between two switchers
  (src/lib.rs:302-442), so the model has neither.
- The tolerances are constants, not fields of the setting: `THETA_ALLOW`
  and `DRIFT_ALLOW` in src/common.rs:7-8, `DIST_ALLOW` and `MIN_UPDATE_TICK`
  in src/lib.rs:72-74.

## Model

| member | source | states |
|---|---|---|
| Common.Abs | src/lib.rs:32 | the result is non-negative and is x or -x (`f32::abs`) |
| Common.Min | src/drivers.rs:167-169 | the result is below both arguments and equals one of them (the cap `if v > cap { v = cap }`) |
| Common.Wrap | src/lib.rs:43 | the reduced angle lies in (-Pi, Pi] and differs from the input by whole turns |
| Common.Unwrap | src/common.rs:20-22 | `unwrap_theta`: theta itself for theta >= 0, theta + 2Pi for theta < 0 |
| Common.UnwrapRange | src/common.rs:20-22 | for an angle in [-Pi, Pi], `unwrap_theta` lies in [0, 2Pi) |
| Common.WrapPrincipal | src/lib.rs:112 | an angle already in (-Pi, Pi] is its own `arg` |
| Common.UnwrapWrap | src/lib.rs:121-124 | an angle in [0, 2Pi) is recovered by `unwrap_theta` of its `arg`, as the straight move stores and reads it |
| Common.IsOnLane | src/common.rs:24-27 | `is_on_lane` holds iff the radius lies within `DRIFT_ALLOW` of the lane's radius |
| Common.OnOwnLane | src/common.rs:24-27 | `is_on_lane` holds for a position and its own radius |
| JsonValue.Lookup | src/setting.rs:96 | indexing an object yields a value stored under that key, or `Null` |
| JsonValue.LookupAt | src/setting.rs:96 | the value of the first entry with the key is what indexing yields |
| JsonValue.LookupFour | src/setting.rs:29-36 | in an object whose first four keys differ, each of them reads back its own value |
| JsonValue.AsF32 | src/setting.rs:88 | `as_f32` succeeds exactly on numbers |
| JsonValue.AsUsize | src/setting.rs:96 | a successful `as_usize` gives the number's value |
| JsonValue.AsStr | src/setting.rs:100 | `as_str` succeeds exactly on strings |
| JsonValue.Put | src/setting.rs:75 | after `obj[key] = v`, indexing with key gives v |
| JsonValue.Insert | src/setting.rs:82 | inserting into a value gives an object in which the key maps to the value |
| JsonValue.NatToString | src/setting.rs:75 | `to_string` of a `usize` is a non-empty string of decimal digits |
| JsonValue.ParseUsize | src/lib.rs:275 | a successful `parse` comes from a non-empty key |
| JsonValue.DigitsOfNatToString | src/setting.rs:75 | the digits printed for n have the value n |
| JsonValue.ParsePrinted | src/lib.rs:275 | parsing the printed id of a car gives the id back |
| Setting.Reverse | src/setting.rs:90-93 | the reversed lanes hold the same radii in opposite order |
| Setting.SortedReverseIsNonIncreasing | src/setting.rs:90-93 | the reversed list is sorted iff the radii are non-increasing, so equal radii pass |
| Setting.AdjacentOrderSpans | src/setting.rs:90-93 | non-increasing radii are ordered between any two positions |
| Setting.Default | src/setting.rs:21-28 | `default()` is well formed, has an exit and uses `StraightFirst` |
| Setting.DefaultSetting | src/setting.rs:21-28 | `default()` is two exits, the single lane [1.0], tick 0.1 and `StraightFirst`, and is well formed |
| Setting.LanesJson | src/setting.rs:33 | the lanes are written as one number per radius, in order |
| Setting.ParseLanes | src/setting.rs:86-89 | the push loop succeeds iff every entry is a number, and then yields the entries' values in order |
| Setting.PolicyOf | src/setting.rs:99-106 | absent key gives the default policy; the string "SwitchFirst" gives `SwitchFirst`; any other string gives `StraightFirst`; a non-string fails |
| Setting.Build | src/setting.rs:85-114 | `new` panics exactly when the lanes parse but are empty or not non-increasing; it fails (`None`) exactly when the lanes do not parse, or when they pass and `n_inter`, `tick` or the policy does not; on success `n_inter`, the radii and the tick are the parsed values, the radii are non-empty and non-increasing, and the policy is `PolicyOf` |
| Setting.New | src/setting.rs:85-114 | the push loop and the checks of `new` compute `Build` |
| Setting.ToJsonRoundTrip | src/setting.rs:29-36 | `new(to_json(s))` keeps `n_inter`, the radii and the tick, with the policy `StraightFirst` |
| Setting.ToJson | src/setting.rs:29-36 | `to_json` stores `n_inter`, the tick and the radii under their keys, and `switch_policy` as the string "StraightFirst" |
| Setting.WithInitRoundTrip | src/setting.rs:81-82 | the same round trip holds once an `init` object has been added |
| Setting.BuildOfSettingFields | src/setting.rs:85-114 | an object with the four setting fields in `to_json` order builds the setting with policy `StraightFirst` |
| Setting.SettingFields | src/setting.rs:29-36 | each of the four keys written by `to_json` reads back its own field |
| Setting.GenRandomAdmits | src/setting.rs:38-45 | `gen_random` proceeds iff there is a car, an exit and a lane and the radii are non-increasing |
| Setting.CircularEntries | src/setting.rs:67-76 | the `init` object holds one entry per id, keyed by the printed id, in id order |
| Setting.NatToStringInjective | src/setting.rs:75 | distinct ids give distinct keys, so no entry of the loop overwrites another |
| Setting.PutFresh | src/setting.rs:75 | storing under a new key appends one entry |
| Setting.GenCircular | src/setting.rs:65-84 | `gen_circular(0)` panics on its `assert!`; for n > 0 the `for` loop builds the circular scenario |
| Setting.CircularSettingLoads | src/setting.rs:77-82 | the circular scenario loads as the default setting with n exits |
| Cars.CarUpdate | src/lib.rs:105-132 | `Switch(d)` keeps the angle and snaps to lane lane+d with its radius once the radius reaches or passes it, else takes the interpolated radius on the same lane; `Straight` keeps radius and lane and takes the smaller of the advanced angle and the exit angle; `Stop` changes nothing; only position and lane ever change |
| Cars.Finished | src/lib.rs:93-95 | `finished` implies lane 0, and holds on lane 0 when the measured distance to the exit is 0 (as the Euclidean norm gives at the exit point) |
| Cars.SwitchKeepsAngle | src/lib.rs:107-118 | a switch leaves `arg()` unchanged |
| Cars.StraightNeverPassesExit | src/lib.rs:119-129 | a straight move never goes beyond the exit angle, and never backwards unless it lands on the exit angle |
| Cars.StraightSnapsWhenPast | src/lib.rs:123-124 | a car already at or past its exit angle lands exactly on it |
| Cars.UpdateKeepsRadius | src/lib.rs:105-132 | with a fitting action the radius stays between the innermost and the outermost lane and the lane index stays valid |
| Drivers.SwitchInCost | src/drivers.rs:78-85 | the inward cost is finite exactly when an inner lane exists |
| Drivers.GreedyAction | src/drivers.rs:62-93 | `Stop` when finished; `SWITCH_OUT` off lane 0 within `THETA_ALLOW` of the exit; otherwise `SWITCH_IN` iff the inward cost is finite and strictly below the straight cost, else `Straight`; never `SWITCH_IN` on the innermost lane; the action fits the lanes |
| Drivers.ShortestDistSwitchIn | src/drivers.rs:73-91 | with non-increasing radii the distance driver moves inward iff the inner lane is strictly smaller and more than 2 radians remain |
| Drivers.SimpleSwitchIn | src/lib.rs:41-57 | the legacy driver moves inward iff twice the inner radius is below the arc it saves |
| Drivers.MakeDriver | src/drivers.rs:45-58 | the time driver exactly for the string "ShortestTime", freshly made; the distance driver for anything else |
| Drivers.TimeInit | src/drivers.rs:97-101 | corrected `init`: the three vectors are one entry per lane of 0, the car's position and its speed; the previous lane is the car's lane |
| Drivers.TimeInitAsWritten | src/drivers.rs:97-101 | `init` as written: the same vectors, and the previous lane left as made |
| Drivers.FirstMin | src/drivers.rs:112-124 | the strict `<` scan finds the least finite value and the first index holding it; none when all are infinite |
| Drivers.LaneTime | src/drivers.rs:114-119 | a lane's estimate is infinite exactly when its recorded speed is zero |
| Drivers.LaneTimes | src/drivers.rs:114-119 | one arrival estimate per lane |
| Drivers.ChosenLane | src/drivers.rs:112-124 | the chosen lane is a lane |
| Drivers.ChosenLaneIsFirstMin | src/drivers.rs:112-124 | the chosen lane is the smallest index with the least finite estimate |
| Drivers.TimeAction | src/drivers.rs:102-140 | `Straight` while dwelling and aligned; otherwise `SWITCH_OUT` or `SWITCH_IN` towards the chosen lane; on the chosen lane, `Straight` if aligned, else `SWITCH_OUT` iff the radius exceeds the lane's |
| Drivers.ShortestTimeDrive | src/drivers.rs:102-140 | the accumulator loop of `drive` computes `TimeAction` |
| Drivers.TimeActionFits | src/drivers.rs:125-139 | for a car between the outer and the inner radius the proposal is a straight move or a one-lane switch that stays on the lanes |
| Drivers.StaleTimes | src/drivers.rs:160 | a lane takes part in the refresh scan iff it has not been observed for more than `REFRESH` and is not the car's lane |
| Drivers.RefreshedLane | src/drivers.rs:157-164 | the refresh scan picks a stale lane with the oldest timestamp, the first such; none iff no lane is stale |
| Drivers.ResetRecord | src/drivers.rs:150-155 | after the lane-change reset the previous lane is the car's lane, the lengths are kept, and only the car's lane may be restamped, at ts |
| Drivers.RefreshRecord | src/drivers.rs:165-171 | the refreshed lane's speed becomes twice its estimate capped at the car's speed and its timestamp ts; every other lane and field is unchanged |
| Drivers.MeasuredSpeed | src/drivers.rs:172-176 | the measured speed times the time elapsed on the lane is the arc travelled, `r_lane * unwrap_theta(arg(pos / last_pos))` |
| Drivers.MeasureRecord | src/drivers.rs:172-182 | a straight or stopped car's lane estimate becomes the measured speed capped at the car's speed, and is non-negative when time has passed; a switching car changes nothing; other lanes are unchanged |
| Drivers.ResetKeepsRefreshed | src/drivers.rs:150-164 | the reset does not change which lane is refreshed |
| Drivers.RefreshKeepsMeasure | src/drivers.rs:150-176 | for a straight or stopped car on its previous lane the reset changes nothing and the refresh leaves the measured speed of the car's lane as it was |
| Drivers.TimeUpdateSpec | src/drivers.rs:141-184 | `update` keeps one record per lane and ends with the previous lane equal to the car's lane; a straight or stopped car's own estimate is its measured speed capped at its speed, non-negative when time has passed; a switching car's own lane keeps the reset record; the oldest stale lane gets twice its estimate capped at the car's speed, stamped ts; every other lane is unchanged |
| Drivers.ScanStale | src/drivers.rs:157-164 | the scan loop computes `RefreshedLane` |
| Drivers.TimeUpdate | src/drivers.rs:141-184 | the in-place updates of `update` compute `TimeUpdateSpec` |
| Drivers.AsWrittenInitZeroElapsed | src/drivers.rs:97-101 | finding: with `init` as written, a car starting off lane 0 takes its first `update` as a lane change, so the measured speed is zero arc over zero time |
| Drivers.InitThenUpdate | src/drivers.rs:141-184 | with the corrected `init` the first `update` at a positive time is well defined, and the estimate lies between 0 and the car's speed |
| Drivers.Drive | src/lib.rs:314-319 | a distance driver stops exactly when the car is finished; the time driver never proposes `Stop` |
| Drivers.DriveCar | src/lib.rs:314-319 | asking a car's driver computes `Drive` for its variant |
| Drivers.DriveFits | src/lib.rs:314-319 | every proposal is one of `Stop`, `Straight`, `SWITCH_OUT`, `SWITCH_IN` and stays on the lanes |
| Drivers.DriverUpdate | src/drivers.rs:141-184 | the hook changes only the driver; the distance drivers come back unchanged (their `update` does nothing, src/drivers.rs:13); a time driver stays a time driver whose record becomes `TimeUpdateSpec` of the old one, fitting the lanes with the current lane remembered |
| Drivers.UpdateDriver | src/drivers.rs:141-184 | the hook as a method computes `DriverUpdate` |
| Collision.StraightCollision | src/lib.rs:477-492 | the `f32::MAX` case (`Absent`) iff the follower is not straight; a panic iff the lanes differ or the ids are equal |
| Collision.StraightCollisionTime | src/lib.rs:486-488 | the time found, times the follower's speed, covers the unwrapped gap on the lane; it is non-negative and below one turn of the lane |
| Collision.TimeToCover | src/lib.rs:488 | the arithmetic of the time to collide: non-negative and below the time of a whole turn |
| Collision.SwitchCollisionAsWritten | src/lib.rs:447-471 | as written: a hit only when the other car goes straight on the switcher's target lane |
| Collision.SwitchCollision | src/lib.rs:443-471 | as documented: the same guard, with the second angle test reversed |
| Collision.RemainingSweep | src/lib.rs:461-463 | the second angle of the test is the part of the sweep left beyond the switcher |
| Collision.SwitchCollisionInArc | src/lib.rs:443-463 | for a sweep below half a turn, the documented test flags exactly the switchers inside the arc swept during the tick |
| Collision.SwitchCollisionAsWrittenBeyondArc | src/lib.rs:463 | finding: under the same conditions the test as written flags exactly the switchers at or beyond the end of the arc |
| Collision.SwitchCollisionCounterexample | src/lib.rs:463 | finding: a switcher 0.05 rad ahead inside a 0.1 rad sweep is missed and one 1.0 rad ahead is flagged |
| Lanes.InsertByAngle | src/lib.rs:306 | inserting into a sorted list keeps it sorted and adds exactly that car |
| Lanes.SortByAngle | src/lib.rs:306 | the sort yields the same cars in non-decreasing angle order |
| Lanes.LaneIndices | src/lib.rs:307-311 | `by_lane[k]` lists exactly the cars on lane k |
| Lanes.LaneIndicesIncreasing | src/lib.rs:307-311 | each lane list is in the order of the sorted cars |
| Lanes.GroupSorted | src/lib.rs:304-311 | each lane list of the sorted cars is in non-decreasing angle order |
| Lanes.LayoutGroups | src/lib.rs:318 | changing actions or radii does not change the lane lists |
| Lanes.FirstOnLane | src/lib.rs:337 | finds the first car on a lane at or after a position |
| Lanes.Leader | src/lib.rs:337 | the car followed is on the same lane |
| Lanes.LeaderIsNext | src/lib.rs:337 | within a lane list, a car follows the next entry |
| Lanes.LeaderWraps | src/lib.rs:337 | the last entry of a lane list follows the first |
| Lanes.LeaderInGroup | src/lib.rs:336-337 | the pairs `same_lane[i]`, `same_lane[(i + 1) % len]` are exactly each car and the car it follows |
| Lanes.Keys | src/lib.rs:374 | the search keys are the angles along the lane list |
| Lanes.LowerBound | src/lib.rs:373-378 | the insertion point: every key before it is below the angle, the key at it is not |
| Lanes.BinarySearch | src/lib.rs:373-378 | the binary search loop returns the lower bound |
| Lanes.LaneIndicesSnoc | src/lib.rs:307-311 | pushing one more car extends only its own lane list, by its index |
| Lanes.GroupStep | src/lib.rs:307-311 | one round of the grouping loop keeps the map equal to the lane lists of the prefix |
| Lanes.GroupByLane | src/lib.rs:304-311 | the map's keys are exactly the occupied lanes and each maps to its lane list |
| Step.Propose | src/lib.rs:314-319 | every car keeps its state and takes its driver's action |
| Step.ProposeStage | src/lib.rs:304-319 | sorting and proposing keep every car active, sorted, and holding an action the engine may apply |
| Step.SortedOk | src/lib.rs:306 | sorting keeps every car active |
| Step.ProposedStage | src/lib.rs:314-319 | proposals on sorted active cars give a stage with the same layout |
| Step.StopWhere | src/lib.rs:327 | the flagged cars stop and the others are unchanged |
| Step.Closeness | src/lib.rs:326 | a car is flagged iff its time to collide is at most `MIN_UPDATE_TICK` |
| Step.FollowTime | src/lib.rs:336-341 | no check (`Absent`) iff the car is alone on its lane or not straight; a panic only when it has the id of the car ahead |
| Step.TooClose | src/lib.rs:326-328 | only a straight car with another car on its lane is found too close |
| Step.Clash | src/lib.rs:483-485 | a clash needs a straight car that shares its lane with another car |
| Step.AfterFollow | src/lib.rs:321-348 | after the following check a follower within `MIN_UPDATE_TICK` of the car ahead stops, and every other car is unchanged |
| Step.Bounds | src/lib.rs:329-333 | each car's bound is its time to collide when above `MIN_UPDATE_TICK` |
| Step.Upto | src/lib.rs:335-336 | the set of the positions below n |
| Step.MinBoundOn | src/lib.rs:342-345 | the running minimum is at most the cap and every bound seen, and equals one of them |
| Step.StepTick | src/lib.rs:312-348 | the tick is at most `setting.tick` and every bound, and is `setting.tick` or one of the bounds |
| Step.TickOnAdd | src/lib.rs:342-345 | one more pair lowers the tick to its bound when that is smaller |
| Step.TickUnique | src/lib.rs:312-348 | the tick does not depend on the order of the lanes |
| Step.StepTickSpec | src/lib.rs:312-348 | the tick is at most `setting.tick` and at most every time to collide above `MIN_UPDATE_TICK`; it is `setting.tick` or one of those times; it is at least min(tick, `MIN_UPDATE_TICK`) |
| Step.Candidates | src/lib.rs:370-391 | the cars a switcher is checked against are on its target lane |
| Step.Blocks | src/lib.rs:350-391 | with `switch_collision` as written, only a straight car on the switcher's target lane blocks it |
| Step.Halt | src/lib.rs:353-355 | `StraightFirst` hold: stopped, put on its own lane's radius, same angle, otherwise unchanged |
| Step.Arbitrate | src/lib.rs:350-399 | each car is its arbitrated value, with `switch_collision` as written (src/lib.rs:463) deciding who is blocked |
| Step.ArbitrateChanges | src/lib.rs:350-362 | a car changes only by stopping; under `StraightFirst` only a switcher, which returns to its own lane's radius; under `SwitchFirst` only a straight car, whose position is kept |
| Step.AdvanceOk | src/lib.rs:406-409 | a granted car stays active at the new time and keeps its action |
| Step.AdvanceAll | src/lib.rs:406-409 | each car is moved by its action and its driver's hook runs |
| Step.FinishedOf | src/lib.rs:417-419 | the finished list holds only finished cars of the step |
| Step.Unfinished | src/lib.rs:425-427 | `next_cars` holds only unfinished cars of the step |
| Step.SplitConserves | src/lib.rs:405-429 | the split loses and duplicates no car, so the count is conserved |
| Step.SplitMultiset | src/lib.rs:417-427 | the two lists together are the moved cars as a multiset |
| Step.AdvanceReadyAt | src/lib.rs:406-409 | every car of a stage can be moved and hooked at a later time |
| Step.NextAllOk | src/lib.rs:400-429 | the moved cars and those that remain are active at the new time |
| Step.StopKeepsStage | src/lib.rs:327 | stopping cars keeps the stage and the layout |
| Step.FollowKeepsStage | src/lib.rs:321-348 | the following check keeps the stage and the layout |
| Step.StoppedGranted | src/lib.rs:353-359 | a car stopped by the arbitration may still be applied |
| Step.ArbitrateKeepsStage | src/lib.rs:350-399 | the arbitration keeps the stage, the lanes and the angles |
| Step.LayoutSorted | src/lib.rs:306 | cars with the angles of sorted cars are sorted |
| Step.Integrated | src/lib.rs:400-429 | the step advances by the given tick; finished cars are finished, remaining ones are not and are active at the new time; the count is conserved |
| Step.Advanced | src/lib.rs:312-429 | without a shared id the step is taken with a tick between min(tick, `MIN_UPDATE_TICK`) and `setting.tick`, and the finished/remaining split holds; the arbitration uses `switch_collision` as written |
| Step.StepOf | src/lib.rs:302-442 | one `update`, with `switch_collision` as written: either a shared-id panic, or a step with those bounds and split |
| Step.ClashIsSharedId | src/lib.rs:483-485 | the following check panics iff some straight car on a lane with another car has the id of the car ahead |
| Engine.CoversLayout | src/lib.rs:304-311 | the lane map stays valid while actions and radii change |
| Engine.ProposeActions | src/lib.rs:314-319 | the proposal loop computes `Propose` |
| Engine.Times | src/lib.rs:338-341 | each car's outcome is the check against the car it follows |
| Engine.BoundsOf | src/lib.rs:326-333 | each outcome's bound is its time when above `MIN_UPDATE_TICK` |
| Engine.FollowOne | src/lib.rs:321-345 | one follower: a clash iff the check panics; otherwise it stops when within `MIN_UPDATE_TICK`, or else lowers the tick to its time when smaller |
| Engine.LeadActionIgnored | src/lib.rs:477-491 | the check never reads the action of the car ahead |
| Engine.OutcomesOfLane | src/lib.rs:336-341 | each member of a lane list is checked against the next entry, cyclically |
| Engine.LaneFits | src/lib.rs:335-337 | a lane not yet visited lists fresh, increasing indices of moving cars |
| Engine.DoneStep | src/lib.rs:335 | after a lane's loop, the visited cars are those of the visited lanes |
| Engine.ClashAt | src/lib.rs:483-485 | a panicking outcome is a clash of the step |
| Engine.FollowLane | src/lib.rs:336-347 | the inner loop over a lane: it stops at a panicking car or checks every car of the lane |
| Engine.FollowAt | src/lib.rs:337-346 | one round of the inner loop extends the checked cars by one |
| Engine.SeenAll | src/lib.rs:336 | the cars visited are exactly the entries before the position |
| Engine.SeenBefore | src/lib.rs:336 | an entry of an increasing list was not visited before it |
| Engine.FollowStep | src/lib.rs:337-346 | checking one more car keeps the invariant of the check |
| Engine.FollowPhase | src/lib.rs:321-348 | the nested loops clash iff the cars clash; otherwise they compute `AfterFollow` and the step's tick, whatever the order of the lanes |
| Engine.FollowLaneOf | src/lib.rs:335-348 | one lane of the outer loop keeps the invariant of the check |
| Engine.FollowDone | src/lib.rs:348 | once every lane is visited without a clash the result is `AfterFollow` and `StepTick` |
| Engine.ArbitratedOn | src/lib.rs:350-362 | arbitrating keeps a car's lane and angle |
| Engine.PartialOn | src/lib.rs:350-362 | a partly checked switcher keeps each car's lane and angle |
| Engine.ResolvePair | src/lib.rs:350-362 | one call of the switch closure, with `switch_collision` as written, updates the two cars as the policy says |
| Engine.PairStep | src/lib.rs:382-388 | checking a switcher against one more candidate keeps the arbitration invariant |
| Engine.PairStepStraightFirst | src/lib.rs:353-356 | the same under `StraightFirst` |
| Engine.PairStepSwitchFirst | src/lib.rs:357-359 | the same under `SwitchFirst` |
| Engine.PartialStart | src/lib.rs:364-368 | before its candidates, a switcher starts from the arbitrated cars |
| Engine.PartialEnd | src/lib.rs:379-391 | after both candidates, the switcher counts as arbitrated |
| Engine.BlockedByCandidates | src/lib.rs:379-391 | a switcher is blocked by its checked candidates iff it is blocked |
| Engine.HitFromAdd | src/lib.rs:357-359 | a car is hit by the arbitrated switchers plus one iff it was hit before or by that one |
| Engine.NoSwitch | src/lib.rs:396 | a car that does not switch arbitrates nothing |
| Engine.NoSwitchAt | src/lib.rs:396 | a non-switcher changes no car's arbitration |
| Engine.NoSwitchHit | src/lib.rs:396 | a non-switcher hits no car |
| Engine.SwitcherLive | src/lib.rs:365-368 | a switcher not yet visited still holds its proposal |
| Engine.ResolveSwitcher | src/lib.rs:364-398 | visiting one car keeps the arbitration invariant |
| Engine.ResolveMerge | src/lib.rs:368-394 | the checks of a switcher whose target lane is occupied, or empty |
| Engine.MergeInto | src/lib.rs:371-391 | the lower-bound and last-car checks of one switcher |
| Engine.TargetKeys | src/lib.rs:370-378 | the target lane's list is still sorted by angle when it is searched |
| Engine.KeysKept | src/lib.rs:350-362 | the arbitration does not change angles |
| Engine.CandidatesAre | src/lib.rs:373-391 | the lower bound and the last car are exactly the candidates |
| Engine.NoTarget | src/lib.rs:393 | a switcher towards an empty lane has no candidates |
| Engine.CheckCandidates | src/lib.rs:379-391 | checking the two candidates arbitrates the switcher |
| Engine.SwitchLane | src/lib.rs:364-398 | the loop over one lane's cars keeps the arbitration invariant |
| Engine.SwitchLaneFits | src/lib.rs:363-364 | a lane not yet visited lists fresh, increasing indices |
| Engine.ArbitratedAll | src/lib.rs:399 | once every lane is visited the cars are `Arbitrate` of the input |
| Engine.SwitchPhase | src/lib.rs:350-399 | the nested switch loops, calling `switch_collision` as written, compute `Arbitrate`, whatever the order of the lanes |
| Engine.ProgressSnoc | src/lib.rs:410-419 | progress of one more car: as before, or that car moved or finished |
| Engine.Integrate | src/lib.rs:401-428 | the update loop returns the finished cars, the remaining cars and the progress flag of the moved cars, in order |
| Engine.GroupingCovers | src/lib.rs:307-311 | the lane map holds every car's lane |
| Engine.RunStep | src/lib.rs:302-429 | one step of the engine, with `switch_collision` as written, computes `StepOf` |
| Engine.LaneMap | src/lib.rs:304-311 | the lane map covers the sorted cars |
| Engine.RunProposed | src/lib.rs:320-429 | after the proposals, the step (with `switch_collision` as written) clashes or computes `Advanced` |
| Engine.RunRest | src/lib.rs:349-429 | after a check without a clash, the step (with `switch_collision` as written) computes `Advanced` |
| Engine.StageArbitrable | src/lib.rs:350 | a stage meets what the arbitration needs |
| Engine.AdvancedUnfold | src/lib.rs:312-429 | `Advanced` is the following check, the arbitration and the integration, each keeping the stage |
| Engine.FinishStep | src/lib.rs:400-429 | integration and bookkeeping compute `Integrated` |
| Engine.Split | src/lib.rs:401-428 | the update loop packed as a step value |
| Engine.IntegratedIs | src/lib.rs:400-429 | `Integrated` is the split of the moved cars |
| Sim.LoadCar | src/lib.rs:269-282 | a car loads iff its key parses, its lane indexes a radius and `theta`, `vel`, `dst` are numbers; it then sits on its lane's circle at theta, heads for the exit on lane 0, goes straight, and drives with `SimpleDriver` |
| Sim.ExitAngle | src/lib.rs:279 | the exit angle of an index in [0, n_inter) lies in [0, 2Pi) |
| Sim.LoadCarFrom | src/lib.rs:269-282 | an entry with a parsable key, a valid lane and numeric fields loads as the car built from those values |
| Sim.LoadAll | src/lib.rs:269-283 | loading succeeds iff every entry loads, and then gives one car per entry, in entry order |
| Sim.LoadAllExtend | src/lib.rs:269-270 | loading one more entry appends its car, or fails when that entry fails |
| Sim.LoadCars | src/lib.rs:263-283 | loading fails without an `init` key, else as `LoadAll` of its entries |
| Sim.LoadedActive | src/lib.rs:263-289 | loaded cars with positive speeds are active at time 0 |
| Sim.LoadedOnLane | src/lib.rs:271-276 | a loaded car is on a lane, between the outer and the inner radius, with `SimpleDriver` |
| Sim.CircularLoads | src/setting.rs:65-84 | the circular scenario of n loads n active cars; car i is on lane 0 at angle 2Pi·i/n with speed 1, heading for exit (i + 1) mod n |
| Sim.CircularInit | src/setting.rs:67-82 | the circular scenario's `init` holds the n entries in id order |
| Sim.CircularEntryLoads | src/lib.rs:269-282 | each circular entry loads as its car |
| Sim.CircularCarLoads | src/lib.rs:269-282 | car i of the circular scenario loads as the car at angle 2Pi·i/n heading for exit (i + 1) mod n |
| Sim.CircularCarFields | src/setting.rs:69-74 | each circular entry reads back its four fields |
| Sim.RoundaboutSim.constructor | src/lib.rs:284-289 | a simulator at time 0 with no finished cars |
| Sim.RoundaboutSim.New | src/lib.rs:263-290 | `new` succeeds iff `LoadCars` does, and then makes a fresh simulator at time 0 holding the loaded cars |
| Sim.RoundaboutSim.Update | src/lib.rs:302-442 | a shared id panics with the state unchanged; otherwise t grows by the tick, finished cars are appended in order, the rest become `cars`, and the result is true iff no car remains, or the progress panic; a completed step keeps the cars valid, conserves the count and advances t by between min(tick, `MIN_UPDATE_TICK`) and `setting.tick` |
| Sim.RoundaboutSim.CheckedUpdate | src/lib.rs:400-441 | a completed step keeps validity, conserves the count and advances the clock by at least min(tick, `MIN_UPDATE_TICK`) |
| Sim.RoundaboutSim.Run | src/lib.rs:497-507 | `sim_run` with a budget: it stops, with the count conserved; `Done(true)` leaves no active car; `Done(false)` means the clock reached the budget |
| Sim.LoadAllPrefix | src/lib.rs:269-270 | an entry that fails to load makes `new` fail |
| Sim.StepsDrop | src/lib.rs:500 | each step uses up at least one unit of the time left, so the loop stops |
| Sim.QuotientBelow | src/lib.rs:500 | spending at least m of the time left lowers its quotient by m by at least one |

## Left out

- Trigonometry: `Complex::from_polar`, `arg` and `norm` are exact on polar reals. The Euclidean distance is the `dist` parameter, so `Car::finished` depends on it.
- f32 rounding, NaN, overflow, and the `f32::INFINITY`/`f32::MAX` values are not modelled; those sentinels are `None` and `Absent`.
- JSON text: `from_json` reads and parses a file (src/lib.rs:291-297); JSON is an abstract datatype here. The `println!` logging of `update` is left out.
- The random draws of `gen_random` (src/setting.rs:46-64, src/lib.rs:174-196) are left out; only its asserts are modelled (`Setting.GenRandomAdmits`).
- The second settings type of src/lib.rs:135-253 and `Car::to_json` (src/lib.rs:85-92) are not modelled. The newer settings type of src/setting.rs replaces them; their differences are listed above.
- src/render.rs and src/main.rs are not part of this model.
- `Rc<RefCell<Car>>` aliasing is replaced by indexed records. Each phase reads the sequence it was given and builds a new one; `Car::update` is a function from a car to its new value.
- `HashMap` iteration order is arbitrary; `Engine.FollowPhase` and `Engine.SwitchPhase` are proved for every order.
- Lanes.BinarySearch: returns the lower bound, the first position whose angle is not below the switcher's. With an equal angle in the target lane, Rust's `binary_search_by` may return any equal position, so the first candidate can differ then.
- Lanes.SortByAngle: states sortedness and permutation but not stability. Rust's sort is stable; for equal angles the model inserts a later car behind an earlier one.
- Sim.RoundaboutSim.Update: on the shared-id panic the state is left as it was. The source has already sorted `cars` and overwritten their actions by then; the panic ends the program either way.
- Sim.RoundaboutSim.Update: requires a well-formed setting (radii and tick positive) and active cars with positive speeds. The source would compute with infinities or NaN otherwise.
- Sim.RoundaboutSim.CheckedUpdate: states only the part of `Update`'s contract that the loop of `Run` needs (validity, conservation, the lower bound of the clock).
- Sim.RoundaboutSim.Run: requires a non-negative budget. With a negative budget `sim_run` steps until every car finished, and termination is not proved. `Run` also starts from a loaded simulator rather than a file.
- Sim.LoadCars: requires `n_inter > 0`; the source divides by `n_inter` as an `f32` and would get an infinite angle.
- Sim.LoadCar: does not check the speed or the exit index, as the source does not.
- Drivers.TimeInit: no loader creates a time driver, since `RoundaboutSim::new` gives every car a `SimpleDriver`. The `init` hook is modelled but never called from loading.
- Drivers.TimeUpdateSpec: for a straight or stopped car it requires that the previous lane is the car's lane and that the lane's record was stamped before ts. Otherwise the source divides by a zero elapsed time, as in the second finding.

## Findings

| source | as written | input that shows it | evidently intended | confidence | as-written member | corrected member |
|---|---|---|---|---|---|---|
| src/lib.rs:463 | the second test is `switch_target_2_other_target.arg() <= 0.0`, which flags switchers at or beyond the end of the other car's swept arc | other car at angle 0 on a unit lane, speed 1, tick 0.1; a switcher merging at 0.05 rad is not flagged, one at 1.0 rad is | per the comment at src/lib.rs:443-445, flag the switcher when its angle lies inside the swept arc (`>= 0.0`) | not executed | Collision.SwitchCollisionAsWritten, Collision.SwitchCollisionAsWrittenBeyondArc, Collision.SwitchCollisionCounterexample | Collision.SwitchCollision, Collision.SwitchCollisionInArc |
| src/drivers.rs:97-101 | `init` leaves `prev_lane` at the factory's 0 | a time-driver car starting on lane 1, going straight: the first `update` resets lane 1's record to (pos, ts), then divides a zero arc by `ts - ts == 0` (src/drivers.rs:174-176) | `init` records the car's lane as `prev_lane` | not executed | Drivers.TimeInitAsWritten, Drivers.AsWrittenInitZeroElapsed | Drivers.TimeInit, Drivers.InitThenUpdate |

The first finding is recorded but not applied to the engine: `Step.Blocks`
and the arbitration loops of `Engine` call `Collision.SwitchCollisionAsWritten`,
so every step of the model behaves as the code does. The corrected test and
its in-arc property stand beside it.
