/** The simulator object `RoundaboutSim` (src/lib.rs): loading the initial
    cars in `new`, the clock and the two car lists that `update` changes in
    place, and the time-budgeted loop of `sim_run`. */
module Sim {
  import opened Common
  import opened JsonValue
  import opened Setting
  import opened Cars
  import opened Collision
  import opened Drivers
  import opened Step
  import opened Engine

  // ---------------------------------------------------------------------
  // Loading the initial cars

  /** Angle of exit number d on the outer lane: d steps of 2Pi / n_inter. */
  function ExitAngle(s: Setting, d: real): (r: real)
    requires s.nInter > 0
    ensures 0.0 <= d ==> 0.0 <= r
    ensures 0.0 <= d < s.nInter as real ==> r < TwoPi
  {
    var n := s.nInter as real;
    var step := TwoPi / n;
    assert step > 0.0 && step * n == TwoPi;
    assert 0.0 <= d ==> 0.0 <= step * d;
    assert d < n ==> step * d < step * n by {
      if d < n {
        assert step * n - step * d == step * (n - d);
        assert step * (n - d) > 0.0;
      }
    }
    step * d
  }

  /** What one entry of the `init` object needs to become a car: a lane
      that exists, numeric `theta`, `vel` and `dst`, and a decimal id as key. */
  predicate Loadable(key: string, v: Json, s: Setting) {
    AsUsize(Get(v, "lane")).Some? && AsUsize(Get(v, "lane")).value < |s.rLanes| &&
    Get(v, "theta").Number? && Get(v, "vel").Number? && Get(v, "dst").Number? &&
    ParseUsize(key).Some?
  }

  /** One car of `new`: on its lane's circle at the given angle, heading
      for exit `dst` on the outer lane, going straight, driven by the greedy
      `SimpleDriver`. */
  function LoadCar(key: string, v: Json, s: Setting): (r: Option<Car>)
    requires s.nInter > 0
    ensures r.Some? <==> Loadable(key, v, s)
    ensures r.Some? ==>
      var c := r.value;
      c.id == ParseUsize(key).value && c.lane == AsUsize(Get(v, "lane")).value &&
      c.pos == Polar(s.rLanes[c.lane], Get(v, "theta").n) && c.vel == Get(v, "vel").n &&
      c.dst == Polar(s.rLanes[0], ExitAngle(s, Get(v, "dst").n)) &&
      c.action == Straight && c.driver == Simple
  {
    match (AsUsize(Get(v, "lane")), AsF32(Get(v, "theta")), ParseUsize(key),
           AsF32(Get(v, "vel")), AsF32(Get(v, "dst")))
    case (Some(lane), Some(theta), Some(id), Some(vel), Some(d)) =>
      if lane < |s.rLanes| then
        Some(Car(id, Polar(s.rLanes[lane], theta), vel, lane,
                 Polar(s.rLanes[0], ExitAngle(s, d)), Straight, Simple))
      else None
    case _ => None
  }

  /** The cars of a list of `init` entries, in entry order; None as soon
      as one entry cannot be loaded. */
  function LoadAll(entries: seq<(string, Json)>, s: Setting): (r: Option<seq<Car>>)
    requires s.nInter > 0
    ensures r.Some? <==> forall i :: 0 <= i < |entries| ==> Loadable(entries[i].0, entries[i].1, s)
    ensures r.Some? ==> (|r.value| == |entries| &&
      forall i :: 0 <= i < |entries| ==> Some(r.value[i]) == LoadCar(entries[i].0, entries[i].1, s))
  {
    if |entries| == 0 then Some([])
    else
      var last := entries[|entries| - 1];
      match (LoadAll(entries[..|entries| - 1], s), LoadCar(last.0, last.1, s))
      case (Some(cs), Some(c)) => Some(cs + [c])
      case _ => None
  }

  /** Loading one more entry: the cars so far and the new car, or None. */
  lemma LoadAllExtend(es: seq<(string, Json)>, s: Setting, k: nat, cs: seq<Car>)
    requires s.nInter > 0 && k < |es| && LoadAll(es[..k], s) == Some(cs)
    ensures LoadCar(es[k].0, es[k].1, s).None? ==> LoadAll(es[..k + 1], s).None?
    ensures LoadCar(es[k].0, es[k].1, s).Some? ==>
      LoadAll(es[..k + 1], s) == Some(cs + [LoadCar(es[k].0, es[k].1, s).value])
  {
    assert es[..k + 1][..k] == es[..k];
  }

  /** `RoundaboutSim::new` on a parsed scenario: None without an `init`
      key or when an entry cannot be loaded. */
  function LoadCars(j: Json, s: Setting): (r: Option<seq<Car>>)
    requires s.nInter > 0
    ensures r.Some? <==> HasKey(j, "init") && LoadAll(Entries(Get(j, "init")), s).Some?
  {
    if !HasKey(j, "init") then None else LoadAll(Entries(Get(j, "init")), s)
  }

  /** Loaded cars that move forward are active cars at time 0 under any
      well-formed setting. */
  lemma LoadedActive(j: Json, s: Setting)
    requires WellFormed(s) && s.nInter > 0 && LoadCars(j, s).Some?
    requires forall i :: 0 <= i < |LoadCars(j, s).value| ==> LoadCars(j, s).value[i].vel > 0.0
    ensures AllOk(LoadCars(j, s).value, s, 0.0)
  {
    var cs := LoadCars(j, s).value;
    var es := Entries(Get(j, "init"));
    forall i | 0 <= i < |cs|
      ensures CarOk(cs[i], s, 0.0)
    {
      LoadedOnLane(es[i].0, es[i].1, s, cs[i]);
    }
  }

  /** A loaded car sits on the circle of its lane, which lies between the
      outermost and the innermost circle. */
  lemma LoadedOnLane(key: string, v: Json, s: Setting, c: Car)
    requires WellFormed(s) && s.nInter > 0 && LoadCar(key, v, s) == Some(c)
    ensures c.lane < |s.rLanes| && s.rLanes[|s.rLanes| - 1] <= c.pos.r <= s.rLanes[0]
    ensures c.driver == Simple
  {
  }

  /** The circular scenario of `gen_circular(n)` loads as n cars: car i
      on the outer lane at angle 2Pi i/n with speed 1, heading for the
      starting point of car i + 1 (mod n); together they are active cars. */
  lemma CircularLoads(n: Usize)
    requires n > 0
    ensures var s := CircularSetting(n);
      var r := LoadCars(CircularScenario(n), s);
      r.Some? && |r.value| == n && AllOk(r.value, s, 0.0) &&
      forall i :: 0 <= i < n ==> r.value[i] == CircularCarOf(n, i)
  {
    CircularCarsLoad(n);
    var s := CircularSetting(n);
    var j := CircularScenario(n);
    var cs := LoadCars(j, s).value;
    assert WellFormed(s) by {
      DefaultSetting();
      assert s.rLanes == Default().rLanes && s.tick == Default().tick;
    }
    forall i | 0 <= i < |cs|
      ensures cs[i].vel > 0.0
    {
      assert cs[i] == CircularCarOf(n, i);
    }
    LoadedActive(j, s);
  }

  /** The circular scenario loads car i as `CircularCarOf(n, i)`. */
  lemma CircularCarsLoad(n: Usize)
    requires n > 0
    ensures var r := LoadCars(CircularScenario(n), CircularSetting(n));
      r.Some? && |r.value| == n && forall i :: 0 <= i < n ==> r.value[i] == CircularCarOf(n, i)
  {
    var s := CircularSetting(n);
    var es := CircularEntries(n, n);
    CircularInit(n);
    forall i | 0 <= i < n
      ensures Loadable(es[i].0, es[i].1, s) && LoadCar(es[i].0, es[i].1, s) == Some(CircularCarOf(n, i))
    {
      CircularEntryLoads(n, i);
    }
  }

  /** Car i of the circular scenario as loaded. */
  function CircularCarOf(n: Usize, i: nat): Car
    requires i < n
  {
    Car(i, Polar(1.0, CircularTheta(i, n)), 1.0, 0,
        Polar(1.0, ExitAngle(CircularSetting(n), ((i + 1) % n) as real)), Straight, Simple)
  }

  lemma CircularInit(n: Usize)
    requires n > 0
    ensures HasKey(CircularScenario(n), "init")
    ensures Entries(Get(CircularScenario(n), "init")) == CircularEntries(n, n)
  {
    var j := CircularScenario(n);
    var v := Object(CircularEntries(n, n));
    assert Get(j, "init") == v;
    var k :| 0 <= k < |j.fields| && j.fields[k] == ("init", v);
  }

  lemma CircularEntryLoads(n: Usize, i: nat)
    requires 0 <= i < n
    ensures var e := CircularEntries(n, n)[i];
      Loadable(e.0, e.1, CircularSetting(n)) && LoadCar(e.0, e.1, CircularSetting(n)) == Some(CircularCarOf(n, i))
  {
    var e := CircularEntries(n, n)[i];
    assert e == (NatToString(i), CircularCar(i, n));
    CircularCarLoads(n, i);
  }

  lemma CircularCarLoads(n: Usize, i: nat)
    requires 0 <= i < n
    ensures LoadCar(NatToString(i), CircularCar(i, n), CircularSetting(n)) == Some(CircularCarOf(n, i))
  {
    ParsePrinted(i);
    CircularCarFields(n, i);
    var s := CircularSetting(n);
    assert s.rLanes == [1.0] && s.nInter == n;
    assert AsUsize(Number(0.0)) == Some(0);
    var theta, d := CircularTheta(i, n), ((i + 1) % n) as real;
    assert CircularCarOf(n, i) == Car(i, Polar(s.rLanes[0], theta), 1.0, 0, Polar(s.rLanes[0], ExitAngle(s, d)), Straight, Simple);
    LoadCarFrom(NatToString(i), CircularCar(i, n), s, i, 0, theta, 1.0, d);
  }

  /** The car an entry with the given fields loads as. */
  lemma LoadCarFrom(key: string, v: Json, s: Setting, id: Usize, lane: Usize, theta: real, vel: real, d: real)
    requires s.nInter > 0 && lane < |s.rLanes| && ParseUsize(key) == Some(id)
    requires AsUsize(Get(v, "lane")) == Some(lane) && Get(v, "theta") == Number(theta)
    requires Get(v, "vel") == Number(vel) && Get(v, "dst") == Number(d)
    ensures LoadCar(key, v, s) ==
      Some(Car(id, Polar(s.rLanes[lane], theta), vel, lane, Polar(s.rLanes[0], ExitAngle(s, d)), Straight, Simple))
  {
  }

  lemma CircularCarFields(n: Usize, i: nat)
    requires 0 <= i < n
    ensures var v := CircularCar(i, n);
      Get(v, "vel") == Number(1.0) && Get(v, "lane") == Number(0.0) &&
      Get(v, "dst") == Number(((i + 1) % n) as real) &&
      Get(v, "theta") == Number(CircularTheta(i, n))
  {
    var fs := CircularCar(i, n).fields;
    var v, l, d, th := fs[0].0, fs[1].0, fs[2].0, fs[3].0;
    assert v[0] == 'v' && l[0] == 'l' && d[0] == 'd' && th[0] == 't';
    assert v != l && v != d && v != th && l != d && l != th && d != th;
    LookupFour(fs, v, l, d, th);
  }

  // ---------------------------------------------------------------------
  // The simulator

  /** The message of the final assertion of `update`. */
  const NoProgressMessage: string := "everyone stops but not finished"

  class RoundaboutSim {
    var t: real                // simulated time
    const setting: Setting
    const dist: Metric         // the Euclidean distance the cars measure with
    var finishedCars: seq<Car> // in the order they finished
    var cars: seq<Car>         // the active cars

    /** Between steps: a usable setting and active cars that fit it. */
    ghost predicate Valid()
      reads this
    {
      WellFormed(setting) && AllOk(cars, setting, t)
    }

    constructor (setting: Setting, cars: seq<Car>, dist: Metric)
      ensures this.setting == setting && this.dist == dist && this.cars == cars
      ensures t == 0.0 && finishedCars == []
    {
      this.t := 0.0;
      this.setting := setting;
      this.dist := dist;
      this.finishedCars := [];
      this.cars := cars;
    }

    /** `new`: one car per `init` entry, pushed in entry order. */
    static method New(setting: Setting, j: Json, dist: Metric) returns (r: Option<RoundaboutSim>)
      requires setting.nInter > 0
      ensures r.Some? <==> LoadCars(j, setting).Some?
      ensures r.Some? ==> (fresh(r.value) && r.value.setting == setting && r.value.dist == dist &&
        r.value.t == 0.0 && r.value.finishedCars == [] && r.value.cars == LoadCars(j, setting).value)
    {
      if !HasKey(j, "init") {
        return None;
      }
      var es := Entries(Get(j, "init"));
      var cs := [];
      for k := 0 to |es|
        invariant LoadAll(es[..k], setting) == Some(cs)
      {
        LoadAllExtend(es, setting, k, cs);
        var c := LoadCar(es[k].0, es[k].1, setting);
        if c.None? {
          LoadAllPrefix(es, setting, k + 1);
          return None;
        }
        cs := cs + [c.value];
      }
      assert es[..|es|] == es;
      var sim := new RoundaboutSim(setting, cs, dist);
      r := Some(sim);
    }

    /** `update`: one step of the engine applied to the simulator. A
        shared id stops the program before anything is written back; a
        step in which no car moved or finished while cars remain stops it
        after the new state is written. */
    method Update() returns (r: Outcome<bool>)
      requires Valid()
      modifies this
      ensures old(StepOf(cars, t, setting, dist)).Clashed? ==>
        r.Panic? && t == old(t) && cars == old(cars) && finishedCars == old(finishedCars)
      ensures old(StepOf(cars, t, setting, dist)).Stepped? ==>
        var v := old(StepOf(cars, t, setting, dist));
        t == old(t) + v.tick && finishedCars == old(finishedCars) + v.finished && cars == v.remaining &&
        r == if v.progress || v.remaining == [] then Done(v.remaining == []) else Panic(NoProgressMessage)
      ensures r.Done? ==> Valid() && (r.value <==> cars == [])
      ensures r.Done? ==> |finishedCars| + |cars| == old(|finishedCars| + |cars|)
      ensures r.Done? ==> old(t) + Min(setting.tick, MinUpdateTick) <= t <= old(t) + setting.tick
    {
      var v := RunStep(cars, t, setting, dist);
      if v.Clashed? {
        return Panic("have the same id");
      }
      assert AllOk(v.remaining, setting, t + v.tick) && |v.finished| + |v.remaining| == |cars|;
      t, finishedCars, cars := t + v.tick, finishedCars + v.finished, v.remaining;
      var allFinished := |cars| == 0;
      if !(v.progress || allFinished) {
        return Panic(NoProgressMessage);
      }
      r := Done(allFinished);
    }

    /** `update` seen from `sim_run`: what one step keeps and how far the
        clock moves. */
    method CheckedUpdate() returns (r: Outcome<bool>)
      requires Valid()
      modifies this
      ensures r.Done? ==> Valid() && (r.value <==> cars == [])
      ensures r.Done? ==> |finishedCars| + |cars| == old(|finishedCars| + |cars|)
      ensures r.Done? ==> old(t) + Min(setting.tick, MinUpdateTick) <= t
    {
      r := Update();
    }

    /** `sim_run` on a loaded simulator with a non-negative time budget:
        step until every car finished or the clock reaches the budget.
        `Done(true)` is the source's `Some`, `Done(false)` its `None`. */
    method Run(maxT: real) returns (r: Outcome<bool>)
      requires Valid() && maxT >= 0.0
      modifies this
      ensures r.Done? ==> Valid() && |finishedCars| + |cars| == old(|finishedCars| + |cars|)
      ensures r == Done(true) ==> cars == []
      ensures r == Done(false) ==> maxT <= t
    {
      var m := Min(setting.tick, MinUpdateTick);
      var finished := false;
      while (t < maxT || maxT < 0.0) && !finished
        invariant Valid() && |finishedCars| + |cars| == old(|finishedCars| + |cars|)
        invariant finished ==> cars == []
        decreases if finished then 0 else Steps(maxT - t, m)
      {
        ghost var t0 := t;
        var step := CheckedUpdate();
        if !step.Done? {
          return step;
        }
        StepsDrop(maxT - t0, maxT - t, m);
        finished := finished || step.value;
      }
      r := Done(finished);
    }
  }

  /** A prefix that cannot be loaded makes the whole list fail. */
  lemma {:induction false} LoadAllPrefix(es: seq<(string, Json)>, s: Setting, k: nat)
    requires s.nInter > 0 && k <= |es| && LoadAll(es[..k], s).None?
    ensures LoadAll(es, s).None?
  {
    var i :| 0 <= i < k && !Loadable(es[..k][i].0, es[..k][i].1, s);
    assert es[..k][i] == es[i];
  }

  /** How many more steps of at least m fit into the time left. */
  function Steps(left: real, m: real): nat
    requires m > 0.0
  {
    if left > 0.0 then (left / m).Floor + 1 else 0
  }

  /** A step of at least m uses up at least one of them. */
  lemma StepsDrop(a: real, b: real, m: real)
    requires m > 0.0 && b <= a - m && a > 0.0
    ensures Steps(b, m) < Steps(a, m)
  {
    var x, y := a / m, b / m;
    QuotientBelow(a, b, m);
    assert (x - 1.0).Floor == x.Floor - 1;
  }

  /** Dividing by a positive m keeps the order and turns a gap of m into 1. */
  lemma QuotientBelow(a: real, b: real, m: real)
    requires m > 0.0 && b <= a - m
    ensures b / m <= a / m - 1.0
  {
    var x, y := a / m, b / m;
    assert y * m == b && x * m == a;
    assert (y - (x - 1.0)) * m == b - (a - m);
    if y > x - 1.0 {
      ProductSign(y - (x - 1.0), m);
    }
  }
}
