/** Scenario settings (src/setting.rs): the switch-conflict policy, the
    immutable settings record, its JSON form and the scenario generators. */
module Setting {
  import opened Common
  import opened JsonValue

  /** How a switch-into-lane conflict is resolved. */
  datatype SwitchPolicy = SwitchFirst | StraightFirst

  datatype Setting = Setting(
    nInter: Usize,        // number of exit points on the outer lane
    rLanes: seq<real>,    // lane radii, outermost first
    tick: real,           // largest step duration
    switchPolicy: SwitchPolicy)

  const LanesMessage: string := "lanes should be of len > 0 and sorted in decreasing order"

  /** `RoundaboutSimSetting::default()`. */
  function Default(): (s: Setting)
    ensures WellFormed(s) && s.nInter > 0 && s.switchPolicy == StraightFirst
  {
    Setting(2, [1.0], 0.1, StraightFirst)
  }

  /** Radii never grow from the outer lane inward; equal radii are allowed. */
  predicate NonIncreasing(rs: seq<real>) {
    forall i, j :: 0 <= i < j < |rs| ==> rs[i] >= rs[j]
  }

  /** `slice::is_sorted`: every adjacent pair is in order. */
  predicate IsSorted(xs: seq<real>) {
    forall i :: 0 <= i < |xs| - 1 ==> xs[i] <= xs[i + 1]
  }

  function Reverse(xs: seq<real>): (r: seq<real>)
    ensures |r| == |xs| && forall i :: 0 <= i < |xs| ==> r[i] == xs[|xs| - 1 - i]
  {
    if |xs| == 0 then [] else Reverse(xs[1..]) + [xs[0]]
  }

  /** The assertion of `new` and `gen_random` (reverse, then `is_sorted`)
      accepts exactly the non-increasing radius lists. */
  lemma SortedReverseIsNonIncreasing(rs: seq<real>)
    ensures IsSorted(Reverse(rs)) <==> NonIncreasing(rs)
  {
    var rev := Reverse(rs);
    if IsSorted(rev) {
      forall i, j | 0 <= i < j < |rs| ensures rs[i] >= rs[j] {
        AdjacentOrderSpans(rev, |rs| - 1 - j, |rs| - 1 - i);
      }
    }
  }

  lemma {:induction false} AdjacentOrderSpans(xs: seq<real>, a: int, b: int)
    requires IsSorted(xs) && 0 <= a <= b < |xs|
    ensures xs[a] <= xs[b]
    decreases b - a
  {
    if a < b {
      AdjacentOrderSpans(xs, a + 1, b);
    }
  }

  /** What the engine needs of a setting: at least one lane, radii positive
      and non-increasing, and a positive tick. */
  predicate WellFormed(s: Setting) {
    |s.rLanes| > 0 && NonIncreasing(s.rLanes) && s.rLanes[|s.rLanes| - 1] > 0.0 && s.tick > 0.0
  }

  /** `default()`: two exits, one lane of radius 1, tick 0.1, and the
      `StraightFirst` policy; it is well formed. */
  lemma DefaultSetting()
    ensures Default().nInter == 2 && Default().rLanes == [1.0] && Default().tick == 0.1
    ensures Default().switchPolicy == StraightFirst
    ensures WellFormed(Default())
  {
  }

  function LanesJson(rs: seq<real>): (r: seq<Json>)
    ensures |r| == |rs| && forall i :: 0 <= i < |rs| ==> r[i] == Number(rs[i])
  {
    if |rs| == 0 then [] else LanesJson(rs[..|rs| - 1]) + [Number(rs[|rs| - 1])]
  }

  /** `to_json`: the policy written is always "StraightFirst". */
  function ToJson(s: Setting): (j: Json)
    ensures Get(j, "n_inter") == Number(s.nInter as real) && Get(j, "tick") == Number(s.tick)
    ensures Get(j, "r_lanes") == Array(LanesJson(s.rLanes))
    ensures Get(j, "switch_policy") == Str("StraightFirst")
  {
    var fields := [("n_inter", Number(s.nInter as real)),
                   ("tick", Number(s.tick)),
                   ("r_lanes", Array(LanesJson(s.rLanes))),
                   ("switch_policy", Str("StraightFirst"))];
    SettingFields(fields);
    Object(fields)
  }

  /** The push loop of `new` over `r_lanes`: `None` as soon as one entry is
      not a number. */
  function ParseLanes(items: seq<Json>): (r: Option<seq<real>>)
    ensures r.Some? <==> forall i :: 0 <= i < |items| ==> items[i].Number?
    ensures r.Some? ==> |r.value| == |items| && forall i :: 0 <= i < |items| ==> r.value[i] == items[i].n
  {
    if |items| == 0 then Some([])
    else match ParseLanes(items[..|items| - 1])
      case None => None
      case Some(rs) =>
        if items[|items| - 1].Number? then Some(rs + [items[|items| - 1].n]) else None
  }

  /** The `switch_policy` field: the default when the key is absent,
      `SwitchFirst` for that exact string, `StraightFirst` for any other
      string, and `None` for a present non-string. */
  function PolicyOf(j: Json): (r: Option<SwitchPolicy>)
    ensures !HasKey(j, "switch_policy") ==> r == Some(Default().switchPolicy)
    ensures HasKey(j, "switch_policy") ==>
      r == match Get(j, "switch_policy")
           case Str(name) => Some(if name == "SwitchFirst" then SwitchFirst else StraightFirst)
           case _ => None
  {
    if HasKey(j, "switch_policy") then
      match AsStr(Get(j, "switch_policy"))
      case None => None
      case Some(name) => Some(if name == "SwitchFirst" then SwitchFirst else StraightFirst)
    else Some(Default().switchPolicy)
  }

  /** `RoundaboutSimSetting::new` as a value: `Absent` for a non-numeric
      lane, `n_inter` or `tick` and for a non-string policy, `Panic` when
      the lanes are empty or not in decreasing order. */
  function Build(j: Json): (r: Outcome<Setting>)
    ensures r.Done? ==> |r.value.rLanes| > 0 && NonIncreasing(r.value.rLanes)
    ensures r.Done? ==> Some(r.value.switchPolicy) == PolicyOf(j)
    ensures r.Done? ==>
      Some(r.value.nInter) == AsUsize(Get(j, "n_inter")) &&
      Some(r.value.rLanes) == ParseLanes(Members(Get(j, "r_lanes"))) &&
      Some(r.value.tick) == AsF32(Get(j, "tick"))
    ensures r.Absent? <==>
      ParseLanes(Members(Get(j, "r_lanes"))).None? ||
      (|ParseLanes(Members(Get(j, "r_lanes"))).value| > 0 &&
       NonIncreasing(ParseLanes(Members(Get(j, "r_lanes"))).value) &&
       (AsUsize(Get(j, "n_inter")).None? || AsF32(Get(j, "tick")).None? || PolicyOf(j).None?))
    ensures r.Panic? <==> (ParseLanes(Members(Get(j, "r_lanes"))).Some? &&
                           !(|ParseLanes(Members(Get(j, "r_lanes"))).value| > 0 &&
                             NonIncreasing(ParseLanes(Members(Get(j, "r_lanes"))).value)))
  {
    match ParseLanes(Members(Get(j, "r_lanes")))
    case None => Absent
    case Some(rs) =>
      SortedReverseIsNonIncreasing(rs);
      if !(|rs| > 0 && IsSorted(Reverse(rs))) then Panic(LanesMessage)
      else
        match (AsUsize(Get(j, "n_inter")), AsF32(Get(j, "tick")), PolicyOf(j))
        case (Some(n), Some(tick), Some(policy)) => Done(Setting(n, rs, tick, policy))
        case _ => Absent
  }

  /** `new`, which collects the lane radii with a push loop. */
  method New(j: Json) returns (r: Outcome<Setting>)
    ensures r == Build(j)
  {
    var items := Members(Get(j, "r_lanes"));
    var rLanes: seq<real> := [];
    for i := 0 to |items|
      invariant ParseLanes(items[..i]) == Some(rLanes)
    {
      assert items[..i + 1][..i] == items[..i];
      var x := AsF32(items[i]);
      if x.None? {
        assert ParseLanes(items[..i + 1]).None?;
        assert !items[i].Number?;
        return Absent;
      }
      rLanes := rLanes + [x.value];
    }
    assert items[..|items|] == items;
    SortedReverseIsNonIncreasing(rLanes);
    if !(|rLanes| > 0 && IsSorted(Reverse(rLanes))) {
      return Panic(LanesMessage);
    }
    var nInter := AsUsize(Get(j, "n_inter"));
    if nInter.None? {
      return Absent;
    }
    var tick := AsF32(Get(j, "tick"));
    if tick.None? {
      return Absent;
    }
    var policy: SwitchPolicy;
    if HasKey(j, "switch_policy") {
      var name := AsStr(Get(j, "switch_policy"));
      if name.None? {
        return Absent;
      }
      policy := if name.value == "SwitchFirst" then SwitchFirst else StraightFirst;
    } else {
      policy := Default().switchPolicy;
    }
    return Done(Setting(nInter.value, rLanes, tick.value, policy));
  }

  /** Reading back what `to_json` wrote keeps `n_inter`, the radii and the
      tick, but the policy always comes back as `StraightFirst`. */
  lemma ToJsonRoundTrip(s: Setting)
    requires |s.rLanes| > 0 && NonIncreasing(s.rLanes)
    ensures Build(ToJson(s)) == Done(s.(switchPolicy := StraightFirst))
  {
    BuildOfSettingFields(s, ToJson(s).fields);
  }

  /** The same holds once an `init` object has been added, as the
      scenario generators do. */
  lemma WithInitRoundTrip(s: Setting, init: Json)
    requires |s.rLanes| > 0 && NonIncreasing(s.rLanes)
    ensures Build(Insert(ToJson(s), "init", init)) == Done(s.(switchPolicy := StraightFirst))
  {
    var base := ToJson(s);
    assert "init"[0] == 'i';
    PutFresh(base.fields, "init", init);
    BuildOfSettingFields(s, base.fields + [("init", init)]);
  }

  lemma BuildOfSettingFields(s: Setting, fields: seq<(string, Json)>)
    requires |s.rLanes| > 0 && NonIncreasing(s.rLanes)
    requires |fields| >= 4 && fields[..4] == ToJson(s).fields
    ensures Build(Object(fields)) == Done(s.(switchPolicy := StraightFirst))
  {
    var j := Object(fields);
    assert fields[0] == ToJson(s).fields[0];
    assert fields[1] == ToJson(s).fields[1];
    assert fields[2] == ToJson(s).fields[2];
    assert fields[3] == ToJson(s).fields[3];
    SettingFields(fields);
    assert Members(Get(j, "r_lanes")) == LanesJson(s.rLanes);
    var p := ParseLanes(LanesJson(s.rLanes));
    assert p.Some?;
    assert p.value == s.rLanes;
    SortedReverseIsNonIncreasing(s.rLanes);
    assert AsUsize(Get(j, "n_inter")) == Some(s.nInter);
    assert AsF32(Get(j, "tick")) == Some(s.tick);
    assert PolicyOf(j) == Some(StraightFirst);
  }

  /** Looking up each key of a list that starts with the four keys
      `to_json` writes, in its order. */
  lemma SettingFields(fields: seq<(string, Json)>)
    requires |fields| >= 4
    requires fields[0].0 == "n_inter" && fields[1].0 == "tick"
    requires fields[2].0 == "r_lanes" && fields[3].0 == "switch_policy"
    ensures Lookup(fields, "n_inter") == fields[0].1
    ensures Lookup(fields, "tick") == fields[1].1
    ensures Lookup(fields, "r_lanes") == fields[2].1
    ensures Lookup(fields, "switch_policy") == fields[3].1
    ensures HasKey(Object(fields), "switch_policy")
  {
    // The four keys already differ in their first letter.
    var n, tk, rl, sp := fields[0].0, fields[1].0, fields[2].0, fields[3].0;
    assert n[0] == 'n' && tk[0] == 't' && rl[0] == 'r' && sp[0] == 's';
    assert n != tk && n != rl && n != sp && tk != rl && tk != sp && rl != sp;
    LookupFour(fields, n, tk, rl, sp);
    assert Object(fields).fields[3].0 == "switch_policy";
  }

  /** The preconditions `gen_random` asserts before drawing any random
      value: at least one car, one exit and one lane, radii in decreasing
      order. The random draws themselves are not modelled. */
  function GenRandomAdmits(nCars: Usize, nInter: Usize, rLanes: seq<real>): (ok: bool)
    ensures ok <==> nCars > 0 && nInter > 0 && |rLanes| > 0 && NonIncreasing(rLanes)
  {
    SortedReverseIsNonIncreasing(rLanes);
    nCars > 0 && nInter > 0 && |rLanes| > 0 && IsSorted(Reverse(rLanes))
  }

  /** The setting `gen_circular` writes: the default one with `n` exits. */
  function CircularSetting(n: Usize): Setting {
    Default().(nInter := n)
  }

  /** The angle at which car `id` of the circular scenario starts: its
      own exit, `id` steps of 2Pi / n. */
  function CircularTheta(id: nat, n: nat): real
    requires n > 0
  {
    TwoPi / (n as real) * (id as real)
  }

  /** Car `id` of the circular scenario: lane 0, speed 1, heading for the
      exit of the next car, starting at its own exit angle. */
  function CircularCar(id: nat, n: nat): Json
    requires n > 0
  {
    Object([("vel", Number(1.0)),
            ("lane", Number(0.0)),
            ("dst", Number(((id + 1) % n) as real)),
            ("theta", Number(CircularTheta(id, n)))])
  }

  function CircularEntries(n: nat, count: nat): (r: seq<(string, Json)>)
    requires n > 0
    ensures |r| == count && forall i :: 0 <= i < count ==> r[i] == (NatToString(i), CircularCar(i, n))
  {
    if count == 0 then [] else CircularEntries(n, count - 1) + [(NatToString(count - 1), CircularCar(count - 1, n))]
  }

  /** The object `gen_circular(n)` returns. */
  function CircularScenario(n: Usize): Json
    requires n > 0
  {
    Insert(ToJson(CircularSetting(n)), "init", Object(CircularEntries(n, n)))
  }

  lemma NatToStringInjective(a: nat, b: nat)
    requires NatToString(a) == NatToString(b)
    ensures a == b
  {
    DigitsOfNatToString(a);
    DigitsOfNatToString(b);
  }

  lemma {:induction false} PutFresh(fields: seq<(string, Json)>, key: string, v: Json)
    requires forall i :: 0 <= i < |fields| ==> fields[i].0 != key
    ensures Put(fields, key, v) == fields + [(key, v)]
  {
    if |fields| > 0 {
      PutFresh(fields[1..], key, v);
    }
  }

  /** The message of the failed `assert!(n_cars > 0)` of `gen_circular`. */
  const NoCarsMessage: string := "assertion failed: n_cars > 0"

  /** `gen_circular`, which asserts that there is a car and then fills the
      `init` object in a `for` loop. */
  method GenCircular(n: Usize) returns (r: Outcome<Json>)
    ensures n == 0 ==> r == Panic(NoCarsMessage)
    ensures n > 0 ==> r == Done(CircularScenario(n))
  {
    if n == 0 {
      return Panic(NoCarsMessage);
    }
    var cars := Object([]);
    for id := 0 to n
      invariant cars == Object(CircularEntries(n, id))
    {
      var car := CircularCar(id, n);
      forall i | 0 <= i < |cars.fields| ensures cars.fields[i].0 != NatToString(id) {
        if cars.fields[i].0 == NatToString(id) {
          NatToStringInjective(i, id);
        }
      }
      PutFresh(cars.fields, NatToString(id), car);
      cars := Insert(cars, NatToString(id), car);
    }
    var j := ToJson(CircularSetting(n));
    j := Insert(j, "init", cars);
    r := Done(j);
  }

  /** The circular scenario loads as the default setting with `n` exits. */
  lemma CircularSettingLoads(n: Usize)
    requires n > 0
    ensures Build(CircularScenario(n)) == Done(CircularSetting(n))
  {
    WithInitRoundTrip(CircularSetting(n), Object(CircularEntries(n, n)));
  }
}
