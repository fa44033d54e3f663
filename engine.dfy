/** The imperative step of `RoundaboutSim::update` (src/lib.rs), whose
    loops are proved to compute the phases of module Step. */
module Engine {
  import opened Common
  import opened Setting
  import opened Cars
  import opened Drivers
  import opened Collision
  import opened Lanes
  import opened Step

  predicate Moving(cs: seq<Car>, s: Setting) {
    forall i :: 0 <= i < |cs| ==> cs[i].lane < |s.rLanes| && cs[i].vel > 0.0
  }

  /** byLane is the lane map `update` builds over cs. */
  ghost predicate Grouping(cs: seq<Car>, byLane: map<nat, seq<nat>>) {
    (forall k :: k in byLane <==> exists i :: 0 <= i < |cs| && cs[i].lane == k) &&
    (forall k :: k in byLane ==> byLane[k] == LaneIndices(cs, k))
  }

  /** What the phases need of the lane map: every car's lane is a key,
      and each key maps to its lane list. */
  ghost predicate Covers(cs: seq<Car>, byLane: map<nat, seq<nat>>) {
    (forall i :: 0 <= i < |cs| ==> cs[i].lane in byLane) &&
    (forall k :: k in byLane ==> byLane[k] == LaneIndices(cs, k))
  }

  /** The lane map depends only on lanes, so it stays valid while the
      phases change actions and radii. */
  lemma CoversLayout(a: seq<Car>, b: seq<Car>, byLane: map<nat, seq<nat>>)
    requires Covers(a, byLane) && SameLayout(a, b)
    ensures Covers(b, byLane)
  {
    forall k | k in byLane
      ensures byLane[k] == LaneIndices(b, k)
    {
      LayoutGroups(a, b, k);
    }
    assert forall i :: 0 <= i < |a| ==> a[i].lane == b[i].lane;
  }

  // ---------------------------------------------------------------------
  // Proposals

  /** The loop asking every driver for an action. */
  method ProposeActions(cs: seq<Car>, ts: real, s: Setting, dist: Metric) returns (r: seq<Car>)
    requires forall i :: 0 <= i < |cs| ==> DriverReady(cs[i], s)
    ensures r == Propose(cs, ts, s, dist)
  {
    r := cs;
    for i := 0 to |cs|
      invariant |r| == |cs|
      invariant forall j :: 0 <= j < |cs| ==> r[j] == if j < i then cs[j].(action := Drive(cs[j], ts, s, dist)) else cs[j]
    {
      var a := DriveCar(cs[i], ts, s, dist);
      r := r[i := r[i].(action := a)];
    }
  }

  // ---------------------------------------------------------------------
  // Following check

  /** The outcomes of the check for every car. */
  function Times(cs: seq<Car>, s: Setting): (r: seq<Outcome<real>>)
    requires Moving(cs, s)
    ensures |r| == |cs| && forall i :: 0 <= i < |cs| ==> r[i] == FollowTime(cs, i, s)
  {
    seq(|cs|, i requires 0 <= i < |cs| => FollowTime(cs, i, s))
  }

  /** The tick bound of each outcome. */
  function BoundsOf(ts: seq<Outcome<real>>): (r: seq<Option<real>>)
    ensures |r| == |ts| && forall i :: 0 <= i < |ts| ==>
      r[i] == if ts[i].Done? && ts[i].value > MinUpdateTick then Some(ts[i].value) else None
  {
    seq(|ts|, i requires 0 <= i < |ts| =>
      if ts[i].Done? && ts[i].value > MinUpdateTick then Some(ts[i].value) else None)
  }

  /** The cars of the lanes in d went through the check, whose outcomes
      are ts: none of them panicked, the too-close ones stopped, and tick
      accounts for them. */
  ghost predicate Followed(ts: seq<Outcome<real>>, cap: real, cs: seq<Car>, d: set<nat>, r: seq<Car>, tick: real) {
    |r| == |cs| == |ts| &&
    (forall i :: 0 <= i < |cs| && i in d ==> !ts[i].Panic?) &&
    (forall i :: 0 <= i < |cs| ==>
      r[i] == if i in d && ts[i].Done? && ts[i].value <= MinUpdateTick then cs[i].(action := Stop) else cs[i]) &&
    TickOn(BoundsOf(ts), cap, d, tick)
  }

  /** One follower of the nested loop: compare with the next car of the
      lane, stop the follower when it is too close, lower the tick to its
      time otherwise. */
  method FollowOne(r: seq<Car>, f: nat, lead: nat, s: Setting, tick: real)
    returns (clash: bool, r': seq<Car>, tick': real)
    requires f < |r| && lead < |r| && r[f].lane < |s.rLanes| && r[f].vel > 0.0
    ensures var time := StraightCollision(r[f], r[lead], s);
      (clash <==> time.Panic?) &&
      (!clash ==>
        r' == (if time.Done? && time.value <= MinUpdateTick then r[f := r[f].(action := Stop)] else r) &&
        tick' == (if time.Done? && time.value > MinUpdateTick && time.value < tick then time.value else tick))
  {
    var time := StraightCollision(r[f], r[lead], s);
    clash, r', tick' := false, r, tick;
    match time
    case Panic(_) =>
      clash := true;
    case Absent =>
    case Done(v) =>
      if v <= MinUpdateTick {
        r' := r[f := r[f].(action := Stop)];
      } else if v < tick {
        tick' := v;
      }
  }

  /** The check never looks at the action of the car ahead. */
  lemma LeadActionIgnored(follow: Car, precede: Car, s: Setting, a: Action)
    requires follow.lane < |s.rLanes| && follow.vel > 0.0
    ensures StraightCollision(follow, precede.(action := a), s) == StraightCollision(follow, precede, s)
  {
    var x := StraightCollision(follow, precede.(action := a), s);
    var y := StraightCollision(follow, precede, s);
    assert Gap(follow, precede.(action := a)) == Gap(follow, precede);
    if x.Done? {
      assert y.Done? && x.value == y.value;
      assert x == Done(x.value) && y == Done(y.value);
    } else if x.Panic? {
      assert y.Panic? && x.message == y.message;
      assert x == Panic(x.message) && y == Panic(y.message);
    }
  }

  /** The outcome for each member of a lane list is the check against the
      next member, when the list has more than one. */
  ghost predicate LaneOutcomes(cs: seq<Car>, s: Setting, g: seq<nat>, ts: seq<Outcome<real>>)
    requires forall q :: 0 <= q < |g| ==> g[q] < |cs| && g[q] < |ts|
    requires forall q :: 0 <= q < |g| ==> cs[g[q]].lane < |s.rLanes| && cs[g[q]].vel > 0.0
  {
    forall q {:trigger Member(g, q)} :: 0 <= q < |g| ==>
      ts[Member(g, q)] == if |g| > 1 then StraightCollision(cs[Member(g, q)], cs[g[(q + 1) % |g|]], s) else Absent
  }

  /** The member at position q of a lane list; the facts of LaneOutcomes
      are only drawn where a proof names a position this way. */
  function Member(g: seq<nat>, q: nat): nat
    requires q < |g|
  {
    g[q]
  }

  lemma OutcomesOfLane(cs: seq<Car>, s: Setting, k: nat)
    requires Moving(cs, s)
    ensures var g := LaneIndices(cs, k); LaneOutcomes(cs, s, g, Times(cs, s))
  {
    var g := LaneIndices(cs, k);
    forall q | 0 <= q < |g|
      ensures Times(cs, s)[Member(g, q)] ==
        if |g| > 1 then StraightCollision(cs[Member(g, q)], cs[g[(q + 1) % |g|]], s) else Absent
    {
      LeaderInGroup(cs, k, q);
    }
  }

  /** The list of a lane not yet checked meets the inner loop's needs. */
  lemma LaneFits(cs: seq<Car>, s: Setting, k: nat, done: set<nat>, lanes: set<nat>)
    requires Moving(cs, s) && k in lanes
    requires forall i :: 0 <= i < |cs| ==> (i in done <==> cs[i].lane !in lanes)
    ensures var g := LaneIndices(cs, k);
      (forall q :: 0 <= q < |g| ==> g[q] < |cs| && g[q] !in done) &&
      (forall q :: 0 <= q < |g| ==> cs[g[q]].lane < |s.rLanes| && cs[g[q]].vel > 0.0) &&
      (forall p, q :: 0 <= p < q < |g| ==> g[p] < g[q]) &&
      LaneOutcomes(cs, s, g, Times(cs, s))
  {
    OutcomesOfLane(cs, s, k);
    LaneIndicesIncreasing(cs, k);
  }

  /** Checking the list of lane k moves the lane to the checked ones. */
  lemma DoneStep(cs: seq<Car>, k: nat, lanes: set<nat>, done0: set<nat>, done: set<nat>)
    requires k in lanes
    requires forall i :: 0 <= i < |cs| ==> (i in done0 <==> cs[i].lane !in lanes)
    requires forall i :: i in done0 ==> i < |cs|
    requires done == done0 + Seen(LaneIndices(cs, k), |LaneIndices(cs, k)|)
    ensures forall i :: 0 <= i < |cs| ==> (i in done <==> cs[i].lane !in lanes - {k})
    ensures forall i :: i in done ==> i < |cs|
  {
    var g := LaneIndices(cs, k);
    SeenAll(g, |g|);
    forall i | i in done
      ensures i < |cs|
    {
      if i !in done0 {
        var q :| 0 <= q < |g| && g[q] == i;
      }
    }
    forall i | 0 <= i < |cs| && cs[i].lane == k
      ensures i in done
    {
      var q :| 0 <= q < |g| && g[q] == i;
    }
  }


  /** A panic in a lane list is a panic of the whole check. */
  lemma ClashAt(cs: seq<Car>, s: Setting, i: nat)
    requires Moving(cs, s) && i < |cs| && Times(cs, s)[i].Panic?
    ensures Clash(cs, s)
  {
    assert FollowTime(cs, i, s).Panic?;
  }

  /** The inner loop of the check, over the lane list g. */
  method FollowLane(ghost cs: seq<Car>, g: seq<nat>, s: Setting, r0: seq<Car>, tick0: real,
                    ghost ts: seq<Outcome<real>>, ghost done0: set<nat>)
    returns (clash: bool, r: seq<Car>, tick: real, ghost done: set<nat>, ghost at: nat)
    requires Followed(ts, s.tick, cs, done0, r0, tick0)
    requires LaneCtx(cs, s, g, ts, done0)
    ensures clash ==> at < |g| && ts[g[at]].Panic?
    ensures !clash ==> Followed(ts, s.tick, cs, done, r, tick)
    ensures !clash ==> done == done0 + Seen(g, |g|)
  {
    r, tick, clash, done, at := r0, tick0, false, done0, 0;
    var p := 0;
    while p < |g|
      invariant 0 <= p <= |g|
      invariant Followed(ts, s.tick, cs, done0 + Seen(g, p), r, tick)
    {
      var c;
      c, r, tick := FollowAt(cs, g, p, s, r, tick, ts, done0);
      if c {
        clash, at := true, p;
        return;
      }
      p := p + 1;
    }
    done := done0 + Seen(g, |g|);
  }

  /** What the follow check of one lane relies on: the lane's cars, in
      increasing order, none checked yet, each with its outcome. */
  ghost predicate LaneCtx(cs: seq<Car>, s: Setting, g: seq<nat>, ts: seq<Outcome<real>>, done0: set<nat>) {
    |ts| == |cs| &&
    (forall q :: 0 <= q < |g| ==> g[q] < |cs| && g[q] !in done0) &&
    (forall q :: 0 <= q < |g| ==> cs[g[q]].lane < |s.rLanes| && cs[g[q]].vel > 0.0) &&
    (forall a, b :: 0 <= a < b < |g| ==> g[a] < g[b]) &&
    LaneOutcomes(cs, s, g, ts)
  }

  /** The follower at position p, once the first p were checked. */
  method FollowAt(ghost cs: seq<Car>, g: seq<nat>, p: nat, s: Setting, r0: seq<Car>, tick0: real,
                  ghost ts: seq<Outcome<real>>, ghost done0: set<nat>)
    returns (clash: bool, r: seq<Car>, tick: real)
    requires p < |g|
    requires Followed(ts, s.tick, cs, done0 + Seen(g, p), r0, tick0)
    requires LaneCtx(cs, s, g, ts, done0)
    ensures clash ==> ts[g[p]].Panic?
    ensures !clash ==> Followed(ts, s.tick, cs, done0 + Seen(g, p + 1), r, tick)
  {
    SeenBefore(g, p);
    clash, r, tick := FollowStep(cs, g, p, s, r0, tick0, ts, done0 + Seen(g, p));
    assert Seen(g, p + 1) == Seen(g, p) + {g[p]};
    assert done0 + Seen(g, p + 1) == done0 + Seen(g, p) + {g[p]};
  }

  /** The members of the first p positions of a lane list. */
  ghost function Seen(g: seq<nat>, p: nat): set<nat>
    requires p <= |g|
  {
    if p == 0 then {} else Seen(g, p - 1) + {g[p - 1]}
  }

  lemma {:induction false} SeenAll(g: seq<nat>, p: nat)
    requires p <= |g|
    ensures forall i :: i in Seen(g, p) <==> exists q :: 0 <= q < p && g[q] == i
  {
    if p > 0 {
      SeenAll(g, p - 1);
    }
  }

  /** In a strictly increasing list, a member is not among the earlier ones. */
  lemma SeenBefore(g: seq<nat>, p: nat)
    requires p < |g| && forall a, b :: 0 <= a < b < |g| ==> g[a] < g[b]
    ensures g[p] !in Seen(g, p)
  {
    SeenAll(g, p);
  }

  /** The body of the inner loop for the follower at position p of the
      lane list g. */
  method FollowStep(ghost cs: seq<Car>, g: seq<nat>, p: nat, s: Setting, r0: seq<Car>, tick0: real,
                    ghost ts: seq<Outcome<real>>, ghost done: set<nat>)
    returns (clash: bool, r: seq<Car>, tick: real)
    requires Followed(ts, s.tick, cs, done, r0, tick0)
    requires p < |g| && g[p] !in done
    requires forall q :: 0 <= q < |g| ==> g[q] < |cs|
    requires forall q :: 0 <= q < |g| ==> cs[g[q]].lane < |s.rLanes| && cs[g[q]].vel > 0.0
    requires LaneOutcomes(cs, s, g, ts)
    ensures clash ==> ts[g[p]].Panic?
    ensures !clash ==> Followed(ts, s.tick, cs, done + {g[p]}, r, tick)
  {
    var f := g[p];
    assert ts[f] == if |g| > 1 then StraightCollision(cs[f], cs[g[(p + 1) % |g|]], s) else Absent by {
      assert Member(g, p) == f;
    }
    r, tick, clash := r0, tick0, false;
    if |g| > 1 {
      ModBelow((p + 1) % |g|, |g|);
      var lead := g[(p + 1) % |g|];
      assert r[f] == cs[f];
      if r[lead] != cs[lead] {
        LeadActionIgnored(cs[f], cs[lead], s, Stop);
      }
      assert StraightCollision(r[f], r[lead], s) == ts[f];
      clash, r, tick := FollowOne(r, f, lead, s, tick);
      if clash {
        return;
      }
    }
    TickOnAdd(BoundsOf(ts), s.tick, done, tick0, f);
  }

  /** The same-lane check of `update`, over the lanes of byLane in any
      order: it reports a shared id, or stops the too-close followers and
      returns the tick. */
  method FollowPhase(cs: seq<Car>, byLane: map<nat, seq<nat>>, s: Setting)
    returns (clash: bool, r: seq<Car>, tick: real)
    requires Moving(cs, s) && Covers(cs, byLane)
    ensures clash <==> Clash(cs, s)
    ensures !clash ==> r == AfterFollow(cs, s) && tick == StepTick(cs, s)
  {
    ghost var ts := Times(cs, s);
    r, tick, clash := cs, s.tick, false;
    var lanes := byLane.Keys;
    ghost var done: set<nat> := {};
    while lanes != {}
      invariant lanes <= byLane.Keys
      invariant forall i :: 0 <= i < |cs| ==> (i in done <==> cs[i].lane !in lanes)
      invariant forall i :: i in done ==> i < |cs|
      invariant Followed(ts, s.tick, cs, done, r, tick)
      decreases |lanes|
    {
      var k :| k in lanes;
      clash, r, tick, done := FollowLaneOf(cs, byLane[k], k, s, lanes, r, tick, ts, done);
      if clash {
        return;
      }
      lanes := lanes - {k};
    }
    FollowDone(cs, s, ts, done, r, tick);
  }

  /** The check of lane k, whose list is g: a shared id is a clash, and
      otherwise the lane joins the checked ones. */
  method FollowLaneOf(ghost cs: seq<Car>, g: seq<nat>, ghost k: nat, s: Setting, ghost lanes: set<nat>,
                      r0: seq<Car>, tick0: real, ghost ts: seq<Outcome<real>>, ghost done0: set<nat>)
    returns (clash: bool, r: seq<Car>, tick: real, ghost done: set<nat>)
    requires Moving(cs, s) && ts == Times(cs, s) && k in lanes && g == LaneIndices(cs, k)
    requires forall i :: 0 <= i < |cs| ==> (i in done0 <==> cs[i].lane !in lanes)
    requires forall i :: i in done0 ==> i < |cs|
    requires Followed(ts, s.tick, cs, done0, r0, tick0)
    ensures clash ==> Clash(cs, s)
    ensures !clash ==> Followed(ts, s.tick, cs, done, r, tick)
    ensures !clash ==> forall i :: 0 <= i < |cs| ==> (i in done <==> cs[i].lane !in lanes - {k})
    ensures !clash ==> forall i :: i in done ==> i < |cs|
  {
    LaneFits(cs, s, k, done0, lanes);
    ghost var at;
    clash, r, tick, done, at := FollowLane(cs, g, s, r0, tick0, ts, done0);
    if clash {
      ClashAt(cs, s, g[at]);
      return;
    }
    DoneStep(cs, k, lanes, done0, done);
  }

  /** Once every car went through the check, its results are those of
      Step. */
  lemma FollowDone(cs: seq<Car>, s: Setting, ts: seq<Outcome<real>>, done: set<nat>, r: seq<Car>, tick: real)
    requires Moving(cs, s) && ts == Times(cs, s)
    requires forall i :: 0 <= i < |cs| ==> i in done
    requires Followed(ts, s.tick, cs, done, r, tick)
    ensures !Clash(cs, s) && r == AfterFollow(cs, s) && tick == StepTick(cs, s)
  {
    var xs := BoundsOf(ts);
    var after := AfterFollow(cs, s);
    forall i | 0 <= i < |cs|
      ensures !FollowTime(cs, i, s).Panic? && xs[i] == BoundOf(cs, i, s) && r[i] == after[i]
    {
      assert ts[i] == FollowTime(cs, i, s);
    }
    assert xs == Bounds(cs, s);
    MinBoundOn(xs, s.tick, |cs|);
    TickUnique(xs, s.tick, done, Upto(|cs|), tick, StepTick(cs, s));
  }

  // ---------------------------------------------------------------------
  // Switch arbitration

  /** What the arbitration needs of the cars. */
  predicate Admissible(cs: seq<Car>, s: Setting) {
    Positive(s) && LanesExist(cs, s) &&
    forall i :: 0 <= i < |cs| ==>
      ActionFits(cs[i].action, cs[i].lane, |s.rLanes|) && (cs[i].action.Switch? ==> cs[i].action.diff != 0)
  }

  predicate Arbitrable(cs: seq<Car>, s: Setting) {
    Admissible(cs, s) && SortedByAngle(cs)
  }

  /** Switcher i collides with car j, whether or not j is a candidate. */
  predicate BlocksVia(cs: seq<Car>, s: Setting, tick: real, i: nat, j: nat)
    requires i < |cs| && j < |cs| && Positive(s) && cs[j].lane < |s.rLanes|
  {
    cs[i].action.Switch? && SwitchCollisionAsWritten(cs[i], cs[j], tick, s)
  }

  /** Some switcher of d collides with car j. */
  ghost predicate HitFrom(cs: seq<Car>, s: Setting, tick: real, d: set<nat>, j: nat)
    requires j < |cs| && Positive(s) && LanesExist(cs, s)
  {
    exists i :: 0 <= i < |cs| && i in d && Blocks(cs, s, tick, i, j)
  }

  /** Car j once the switchers in d were arbitrated. */
  ghost function ArbitratedOn(cs: seq<Car>, s: Setting, tick: real, d: set<nat>, j: nat): (c: Car)
    requires j < |cs| && Positive(s) && LanesExist(cs, s)
    ensures c.lane == cs[j].lane && Angle(c) == Angle(cs[j])
  {
    if s.switchPolicy.StraightFirst? then
      (if j in d && Blocked(cs, s, tick, j) then Halt(cs[j], s) else cs[j])
    else if HitFrom(cs, s, tick, d, j) then cs[j].(action := Stop) else cs[j]
  }

  ghost predicate Arbitrated(cs: seq<Car>, s: Setting, tick: real, d: set<nat>, r: seq<Car>)
    requires Positive(s) && LanesExist(cs, s)
  {
    |r| == |cs| && forall j :: 0 <= j < |cs| ==> r[j] == ArbitratedOn(cs, s, tick, d, j)
  }

  /** Some candidate checked so far blocks switcher i. */
  ghost predicate BlockedBy(cs: seq<Car>, s: Setting, tick: real, i: nat, js: seq<nat>)
    requires Positive(s) && LanesExist(cs, s) && i < |cs|
    requires forall q :: 0 <= q < |js| ==> js[q] < |cs|
  {
    exists q :: 0 <= q < |js| && BlocksVia(cs, s, tick, i, js[q])
  }

  /** Car x inside the arbitration of switcher i, once the candidates in
      js were checked. */
  ghost function PartialOn(cs: seq<Car>, s: Setting, tick: real, d: set<nat>, i: nat, js: seq<nat>, x: nat): (c: Car)
    requires Positive(s) && LanesExist(cs, s) && i < |cs| && x < |cs|
    requires forall q :: 0 <= q < |js| ==> js[q] < |cs|
    ensures c.lane == cs[x].lane && Angle(c) == Angle(cs[x])
  {
    if s.switchPolicy.StraightFirst? then
      (if x != i then ArbitratedOn(cs, s, tick, d, x)
       else if BlockedBy(cs, s, tick, i, js) then Halt(cs[i], s) else cs[i])
    else if HitFrom(cs, s, tick, d, x) || (x in js && BlocksVia(cs, s, tick, i, x))
    then cs[x].(action := Stop) else cs[x]
  }

  ghost predicate Partial(cs: seq<Car>, s: Setting, tick: real, d: set<nat>, i: nat, js: seq<nat>, r: seq<Car>)
    requires Positive(s) && LanesExist(cs, s) && i < |cs|
    requires forall q :: 0 <= q < |js| ==> js[q] < |cs|
  {
    |r| == |cs| && forall x :: 0 <= x < |cs| ==> r[x] == PartialOn(cs, s, tick, d, i, js, x)
  }

  /** The closure applied to a switcher and one car of its target lane:
      on a collision, `StraightFirst` halts the switcher on its own lane,
      the other policy stops the other car. */
  method ResolvePair(r: seq<Car>, i: nat, j: nat, s: Setting, tick: real) returns (r': seq<Car>)
    requires i < |r| && j < |r| && r[i].lane < |s.rLanes| && r[j].lane < |s.rLanes| && Positive(s)
    ensures r' == PairResult(r, i, j, s, tick)
  {
    r' := r;
    if SwitchCollisionAsWritten(r[i], r[j], tick, s) {
      match s.switchPolicy
      case StraightFirst =>
        r' := r[i := r[i].(pos := Polar(s.rLanes[r[i].lane], Arg(r[i].pos)), action := Stop)];
      case SwitchFirst =>
        r' := r[j := r[j].(action := Stop)];
    }
  }

  /** The result of `ResolvePair`, as a function. */
  function PairResult(r: seq<Car>, i: nat, j: nat, s: Setting, tick: real): seq<Car>
    requires i < |r| && j < |r| && r[i].lane < |s.rLanes| && r[j].lane < |s.rLanes| && Positive(s)
  {
    if !SwitchCollisionAsWritten(r[i], r[j], tick, s) then r
    else if s.switchPolicy.StraightFirst? then r[i := Halt(r[i], s)]
    else r[j := r[j].(action := Stop)]
  }

  /** One pair check extends the partial arbitration of switcher i. */
  lemma PairStep(cs: seq<Car>, s: Setting, tick: real, d: set<nat>, i: nat, js: seq<nat>, j: nat, r: seq<Car>)
    requires Admissible(cs, s) && i < |cs| && i !in d && cs[i].action.Switch?
    requires forall q :: 0 <= q < |js| ==> js[q] < |cs| && cs[js[q]].lane == cs[i].lane + cs[i].action.diff
    requires j < |cs| && cs[j].lane == cs[i].lane + cs[i].action.diff
    requires Partial(cs, s, tick, d, i, js, r)
    ensures Partial(cs, s, tick, d, i, js + [j], PairResult(r, i, j, s, tick))
  {
    assert j != i by { assert ActionFits(cs[i].action, cs[i].lane, |s.rLanes|); }
    if s.switchPolicy.StraightFirst? {
      PairStepStraightFirst(cs, s, tick, d, i, js, j, r);
    } else {
      PairStepSwitchFirst(cs, s, tick, d, i, js, j, r);
    }
  }

  lemma PairStepStraightFirst(cs: seq<Car>, s: Setting, tick: real, d: set<nat>, i: nat, js: seq<nat>, j: nat, r: seq<Car>)
    requires Admissible(cs, s) && i < |cs| && i !in d && cs[i].action.Switch? && s.switchPolicy.StraightFirst?
    requires forall q :: 0 <= q < |js| ==> js[q] < |cs|
    requires j < |cs| && j != i
    requires Partial(cs, s, tick, d, i, js, r)
    ensures Partial(cs, s, tick, d, i, js + [j], PairResult(r, i, j, s, tick))
  {
    var js' := js + [j];
    var r' := PairResult(r, i, j, s, tick);
    assert forall q :: 0 <= q < |js| ==> js'[q] == js[q];
    assert BlockedBy(cs, s, tick, i, js') <==>
      BlockedBy(cs, s, tick, i, js) || BlocksVia(cs, s, tick, i, j) by {
      if BlocksVia(cs, s, tick, i, j) { assert BlocksVia(cs, s, tick, i, js'[|js|]); }
    }
    assert r[j] == ArbitratedOn(cs, s, tick, d, j);
    if BlockedBy(cs, s, tick, i, js) {
      assert r[i] == Halt(cs[i], s);
      assert r' == r;
    } else if r[j] == cs[j] {
      assert r[i] == cs[i];
    } else {
      assert r[i] == cs[i] && r[j].action == Stop && cs[j].action.Switch?;
      assert r' == r;
    }
    assert r'[i] == PartialOn(cs, s, tick, d, i, js', i);
    forall x | 0 <= x < |cs| ensures r'[x] == PartialOn(cs, s, tick, d, i, js', x) {
      if x != i {
        assert r'[x] == r[x];
      }
    }
  }

  lemma PairStepSwitchFirst(cs: seq<Car>, s: Setting, tick: real, d: set<nat>, i: nat, js: seq<nat>, j: nat, r: seq<Car>)
    requires Admissible(cs, s) && i < |cs| && i !in d && cs[i].action.Switch? && s.switchPolicy.SwitchFirst?
    requires forall q :: 0 <= q < |js| ==> js[q] < |cs|
    requires j < |cs| && j != i
    requires Partial(cs, s, tick, d, i, js, r)
    ensures Partial(cs, s, tick, d, i, js + [j], PairResult(r, i, j, s, tick))
  {
    var js' := js + [j];
    var r' := PairResult(r, i, j, s, tick);
    assert !HitFrom(cs, s, tick, d, i);
    assert r[i] == cs[i];
    if r[j] != cs[j] {
      assert r' == r;
    }
    forall x | 0 <= x < |cs| ensures r'[x] == PartialOn(cs, s, tick, d, i, js', x) {
      assert x in js' <==> x in js || x == j;
      if x != j {
        assert r'[x] == r[x];
      }
    }
  }

  /** Arbitration of switcher i starts with no candidate checked. */
  lemma PartialStart(cs: seq<Car>, s: Setting, tick: real, d: set<nat>, i: nat, r: seq<Car>)
    requires Positive(s) && LanesExist(cs, s) && i < |cs| && i !in d
    requires Arbitrated(cs, s, tick, d, r)
    ensures Partial(cs, s, tick, d, i, [], r)
  {
  }

  /** Once both candidates of switcher i were checked, i is arbitrated. */
  lemma PartialEnd(cs: seq<Car>, s: Setting, tick: real, d: set<nat>, i: nat, r: seq<Car>)
    requires Admissible(cs, s) && i < |cs| && cs[i].action.Switch?
    requires Partial(cs, s, tick, d, i, Candidates(cs, i), r)
    ensures Arbitrated(cs, s, tick, d + {i}, r)
  {
    forall x | 0 <= x < |cs| ensures r[x] == ArbitratedOn(cs, s, tick, d + {i}, x) {
      if s.switchPolicy.StraightFirst? {
        if x == i {
          BlockedByCandidates(cs, s, tick, i);
        }
      } else {
        assert ActionFits(cs[i].action, cs[i].lane, |s.rLanes|);
        HitFromAdd(cs, s, tick, d, i, x);
      }
    }
  }

  lemma BlockedByCandidates(cs: seq<Car>, s: Setting, tick: real, i: nat)
    requires Admissible(cs, s) && i < |cs| && cs[i].action.Switch?
    ensures BlockedBy(cs, s, tick, i, Candidates(cs, i)) <==> Blocked(cs, s, tick, i)
  {
    var js := Candidates(cs, i);
    assert ActionFits(cs[i].action, cs[i].lane, |s.rLanes|);
    if BlockedBy(cs, s, tick, i, js) {
      var q :| 0 <= q < |js| && BlocksVia(cs, s, tick, i, js[q]);
      assert Blocks(cs, s, tick, i, js[q]);
    }
    if Blocked(cs, s, tick, i) {
      var j :| 0 <= j < |cs| && Blocks(cs, s, tick, i, j);
      var q :| 0 <= q < |js| && js[q] == j;
      assert BlocksVia(cs, s, tick, i, js[q]);
    }
  }

  lemma HitFromAdd(cs: seq<Car>, s: Setting, tick: real, d: set<nat>, i: nat, x: nat)
    requires Positive(s) && LanesExist(cs, s) && i < |cs| && x < |cs| && cs[i].action.Switch?
    requires ActionFits(cs[i].action, cs[i].lane, |s.rLanes|)
    ensures HitFrom(cs, s, tick, d + {i}, x) <==>
      HitFrom(cs, s, tick, d, x) || (x in Candidates(cs, i) && BlocksVia(cs, s, tick, i, x))
  {
    var e := d + {i};
    if HitFrom(cs, s, tick, d, x) {
      var w :| 0 <= w < |cs| && w in d && Blocks(cs, s, tick, w, x);
      assert w in e;
    } else if x in Candidates(cs, i) && BlocksVia(cs, s, tick, i, x) {
      assert i in e && Blocks(cs, s, tick, i, x);
    }
  }

  /** A car that does not switch changes nothing when its turn comes. */
  lemma NoSwitch(cs: seq<Car>, s: Setting, tick: real, d: set<nat>, i: nat, r: seq<Car>)
    requires Admissible(cs, s) && i < |cs| && !cs[i].action.Switch?
    requires Arbitrated(cs, s, tick, d, r)
    ensures Arbitrated(cs, s, tick, d + {i}, r)
  {
    forall x | 0 <= x < |cs| ensures r[x] == ArbitratedOn(cs, s, tick, d + {i}, x) {
      NoSwitchAt(cs, s, tick, d, i, x);
    }
  }

  lemma NoSwitchAt(cs: seq<Car>, s: Setting, tick: real, d: set<nat>, i: nat, x: nat)
    requires Positive(s) && LanesExist(cs, s) && i < |cs| && x < |cs| && !cs[i].action.Switch?
    ensures ArbitratedOn(cs, s, tick, d + {i}, x) == ArbitratedOn(cs, s, tick, d, x)
  {
    if s.switchPolicy.StraightFirst? {
      if x == i {
        assert !Blocked(cs, s, tick, i);
      } else {
        assert x in d + {i} <==> x in d;
      }
    } else {
      NoSwitchHit(cs, s, tick, d, i, x);
    }
  }

  /** A car that does not switch hits nobody. */
  lemma NoSwitchHit(cs: seq<Car>, s: Setting, tick: real, d: set<nat>, i: nat, x: nat)
    requires Positive(s) && LanesExist(cs, s) && i < |cs| && x < |cs| && !cs[i].action.Switch?
    ensures HitFrom(cs, s, tick, d + {i}, x) <==> HitFrom(cs, s, tick, d, x)
  {
    if HitFrom(cs, s, tick, d + {i}, x) {
      var w :| 0 <= w < |cs| && w in d + {i} && Blocks(cs, s, tick, w, x);
      assert w in d;
    }
    if HitFrom(cs, s, tick, d, x) {
      var w :| 0 <= w < |cs| && w in d && Blocks(cs, s, tick, w, x);
      assert w in d + {i};
    }
  }

  /** A switcher not yet arbitrated is untouched: neither policy changes
      a switcher before its own turn. */
  lemma SwitcherLive(cs: seq<Car>, s: Setting, tick: real, d: set<nat>, i: nat, r: seq<Car>)
    requires Admissible(cs, s) && i < |cs| && i !in d
    requires Arbitrated(cs, s, tick, d, r)
    ensures r[i].action.Switch? <==> cs[i].action.Switch?
    ensures cs[i].action.Switch? ==> r[i] == cs[i]
  {
    if s.switchPolicy.SwitchFirst? && HitFrom(cs, s, tick, d, i) {
      var w :| 0 <= w < |cs| && w in d && Blocks(cs, s, tick, w, i);
      assert Merging(cs[w], cs[i]);
    }
  }

  /** The arbitration of car i, which does nothing unless it switches. */
  method ResolveSwitcher(r: seq<Car>, byLane: map<nat, seq<nat>>, s: Setting, tick: real, i: nat,
                         ghost cs: seq<Car>, ghost d: set<nat>) returns (r': seq<Car>)
    requires Arbitrable(cs, s) && Covers(cs, byLane)
    requires i < |cs| && i !in d && Arbitrated(cs, s, tick, d, r)
    ensures Arbitrated(cs, s, tick, d + {i}, r')
  {
    SwitcherLive(cs, s, tick, d, i, r);
    if !r[i].action.Switch? {
      NoSwitch(cs, s, tick, d, i, r);
      r' := r;
    } else {
      PartialStart(cs, s, tick, d, i, r);
      r' := ResolveMerge(r, byLane, s, tick, i, cs, d);
    }
  }

  /** The arbitration of switcher i on the lane map. */
  method ResolveMerge(r: seq<Car>, byLane: map<nat, seq<nat>>, s: Setting, tick: real, i: nat,
                      ghost cs: seq<Car>, ghost d: set<nat>) returns (r': seq<Car>)
    requires Arbitrable(cs, s) && Covers(cs, byLane)
    requires i < |cs| && i !in d && Arbitrated(cs, s, tick, d, r)
    requires cs[i].action.Switch? && r[i] == cs[i] && Partial(cs, s, tick, d, i, [], r)
    ensures Arbitrated(cs, s, tick, d + {i}, r')
  {
    var next := r[i].lane + r[i].action.diff;
    if next >= 0 && next as nat in byLane {
      TargetKeys(cs, s, tick, d, r, byLane, i);
      r' := MergeInto(r, byLane[next as nat], s, tick, i, cs, d);
    } else {
      NoTarget(cs, byLane, i);
      PartialEnd(cs, s, tick, d, i, r);
      r' := r;
    }
  }

  /** The arbitration of switcher i against the cars of its target lane,
      other: its candidates are found by binary search over their angles. */
  method MergeInto(r: seq<Car>, other: seq<nat>, s: Setting, tick: real, i: nat,
                   ghost cs: seq<Car>, ghost d: set<nat>) returns (r': seq<Car>)
    requires Admissible(cs, s) && i < |cs| == |r| && i !in d
    requires cs[i].action.Switch? && r[i] == cs[i] && Partial(cs, s, tick, d, i, [], r)
    requires cs[i].lane + cs[i].action.diff >= 0
    requires other == LaneIndices(cs, cs[i].lane + cs[i].action.diff)
    requires forall p :: 0 <= p < |other| ==> other[p] < |r|
    requires Keys(r, other) == Keys(cs, other)
    requires forall p, q :: 0 <= p < q < |other| ==> Keys(r, other)[p] <= Keys(r, other)[q]
    ensures Arbitrated(cs, s, tick, d + {i}, r')
  {
    var keys := Keys(r, other);
    var idx := BinarySearch(keys, Angle(r[i]));
    CandidatesAre(cs, i, other, idx);
    r' := CheckCandidates(r, other, idx, s, tick, i, cs, d);
  }

  /** The lane list of the target lane, and its angles as the binary
      search sees them in the current state. */
  lemma TargetKeys(cs: seq<Car>, s: Setting, tick: real, d: set<nat>, r: seq<Car>, byLane: map<nat, seq<nat>>, i: nat)
    requires Arbitrable(cs, s) && Covers(cs, byLane) && Arbitrated(cs, s, tick, d, r)
    requires i < |cs| && cs[i].action.Switch? && r[i] == cs[i]
    requires cs[i].lane + cs[i].action.diff >= 0 && (cs[i].lane + cs[i].action.diff) as nat in byLane
    ensures var other := byLane[(cs[i].lane + cs[i].action.diff) as nat];
      other == LaneIndices(cs, cs[i].lane + cs[i].action.diff) &&
      (forall p :: 0 <= p < |other| ==> other[p] < |r|) &&
      Keys(r, other) == Keys(cs, other) &&
      forall p, q :: 0 <= p < q < |other| ==> Keys(r, other)[p] <= Keys(r, other)[q]
  {
    var k := cs[i].lane + cs[i].action.diff;
    var other := LaneIndices(cs, k);
    GroupSorted(cs, k);
    KeysKept(cs, s, tick, d, r, other);
  }

  /** Arbitration moves no car along or across lanes, so the angles a lane
      list sees are those of the sorted cars. */
  lemma KeysKept(cs: seq<Car>, s: Setting, tick: real, d: set<nat>, r: seq<Car>, g: seq<nat>)
    requires Positive(s) && LanesExist(cs, s) && Arbitrated(cs, s, tick, d, r)
    requires forall p :: 0 <= p < |g| ==> g[p] < |cs|
    ensures Keys(r, g) == Keys(cs, g)
  {
    forall p | 0 <= p < |g|
      ensures Keys(r, g)[p] == Keys(cs, g)[p]
    {
      assert r[g[p]] == ArbitratedOn(cs, s, tick, d, g[p]);
    }
  }

  /** The candidates of switcher i, from its target lane list and the
      position the binary search found. */
  lemma CandidatesAre(cs: seq<Car>, i: nat, other: seq<nat>, idx: nat)
    requires i < |cs| && cs[i].action.Switch? && cs[i].lane + cs[i].action.diff >= 0
    requires other == LaneIndices(cs, cs[i].lane + cs[i].action.diff)
    requires idx == LowerBound(Keys(cs, other), Angle(cs[i]))
    ensures forall p :: 0 <= p < |other| ==> other[p] < |cs| && cs[other[p]].lane == cs[i].lane + cs[i].action.diff
    ensures idx <= |other|
    ensures Candidates(cs, i) == (if idx > 0 then [other[idx - 1]] else []) + (if |other| > 0 then [other[|other| - 1]] else [])
  {
  }

  /** Without a car on the target lane there is no candidate. */
  lemma NoTarget(cs: seq<Car>, byLane: map<nat, seq<nat>>, i: nat)
    requires Covers(cs, byLane) && i < |cs| && cs[i].action.Switch?
    requires cs[i].lane + cs[i].action.diff >= 0
    requires (cs[i].lane + cs[i].action.diff) as nat !in byLane
    ensures Candidates(cs, i) == []
  {
    LaneIndicesEmpty(cs, cs[i].lane + cs[i].action.diff);
  }

  /** The two checks of switcher i: the car just behind its angle on the
      target lane, then the last car of that lane. */
  method CheckCandidates(r: seq<Car>, other: seq<nat>, idx: nat, s: Setting, tick: real, i: nat,
                         ghost cs: seq<Car>, ghost d: set<nat>) returns (r': seq<Car>)
    requires Admissible(cs, s) && i < |cs| && i !in d && cs[i].action.Switch?
    requires ActionFits(cs[i].action, cs[i].lane, |s.rLanes|)
    requires forall p :: 0 <= p < |other| ==> other[p] < |cs| && cs[other[p]].lane == cs[i].lane + cs[i].action.diff
    requires idx <= |other|
    requires Candidates(cs, i) == (if idx > 0 then [other[idx - 1]] else []) + (if |other| > 0 then [other[|other| - 1]] else [])
    requires Partial(cs, s, tick, d, i, [], r)
    ensures Arbitrated(cs, s, tick, d + {i}, r')
  {
    r' := r;
    ghost var js: seq<nat> := [];
    if idx > 0 {
      PairStep(cs, s, tick, d, i, js, other[idx - 1], r');
      r' := ResolvePair(r', i, other[idx - 1], s, tick);
      js := js + [other[idx - 1]];
    }
    if |other| > 0 {
      PairStep(cs, s, tick, d, i, js, other[|other| - 1], r');
      r' := ResolvePair(r', i, other[|other| - 1], s, tick);
      js := js + [other[|other| - 1]];
    }
    assert js == Candidates(cs, i);
    PartialEnd(cs, s, tick, d, i, r');
  }

  /** The switchers of one lane list, in list order. */
  method SwitchLane(r0: seq<Car>, byLane: map<nat, seq<nat>>, g: seq<nat>, s: Setting, tick: real,
                    ghost cs: seq<Car>, ghost done0: set<nat>) returns (r: seq<Car>, ghost done: set<nat>)
    requires Arbitrable(cs, s) && Covers(cs, byLane) && Arbitrated(cs, s, tick, done0, r0)
    requires forall q :: 0 <= q < |g| ==> g[q] < |cs| && g[q] !in done0
    requires forall p, q :: 0 <= p < q < |g| ==> g[p] < g[q]
    ensures Arbitrated(cs, s, tick, done, r)
    ensures done == done0 + Seen(g, |g|)
  {
    r, done := r0, done0;
    for p := 0 to |g|
      invariant done == done0 + Seen(g, p)
      invariant Arbitrated(cs, s, tick, done, r)
    {
      SeenBefore(g, p);
      r := ResolveSwitcher(r, byLane, s, tick, g[p], cs, done);
      done := done + {g[p]};
    }
  }

  /** The lane list of lane k avoids the arbitrated cars and is
      increasing. */
  lemma SwitchLaneFits(cs: seq<Car>, byLane: map<nat, seq<nat>>, k: nat, done: set<nat>, lanes: set<nat>)
    requires Covers(cs, byLane) && k in lanes && lanes <= byLane.Keys
    requires forall i :: 0 <= i < |cs| ==> (i in done <==> cs[i].lane !in lanes)
    ensures var g := byLane[k];
      g == LaneIndices(cs, k) &&
      (forall q :: 0 <= q < |g| ==> g[q] < |cs| && g[q] !in done) &&
      (forall p, q :: 0 <= p < q < |g| ==> g[p] < g[q])
  {
    LaneIndicesIncreasing(cs, k);
  }

  /** With every car arbitrated, the state is that of Step. */
  lemma ArbitratedAll(cs: seq<Car>, s: Setting, tick: real, d: set<nat>, r: seq<Car>)
    requires Admissible(cs, s) && Arbitrated(cs, s, tick, d, r)
    requires forall i :: 0 <= i < |cs| ==> i in d
    ensures r == Arbitrate(cs, s, tick)
  {
    var a := Arbitrate(cs, s, tick);
    forall j | 0 <= j < |cs| ensures r[j] == a[j] {
      if s.switchPolicy.SwitchFirst? {
        assert HitFrom(cs, s, tick, d, j) <==> Hit(cs, s, tick, j);
      }
    }
  }

  /** The switch check of `update`, over the lanes of byLane in any order:
      its result is the arbitration of Step whatever the order. */
  method SwitchPhase(cs: seq<Car>, byLane: map<nat, seq<nat>>, s: Setting, tick: real) returns (r: seq<Car>)
    requires Arbitrable(cs, s) && Covers(cs, byLane)
    ensures r == Arbitrate(cs, s, tick)
  {
    r := cs;
    var lanes := byLane.Keys;
    ghost var done: set<nat> := {};
    while lanes != {}
      invariant lanes <= byLane.Keys
      invariant forall i :: 0 <= i < |cs| ==> (i in done <==> cs[i].lane !in lanes)
      invariant forall i :: i in done ==> i < |cs|
      invariant Arbitrated(cs, s, tick, done, r)
      decreases |lanes|
    {
      var k :| k in lanes;
      SwitchLaneFits(cs, byLane, k, done, lanes);
      ghost var doneBefore := done;
      r, done := SwitchLane(r, byLane, byLane[k], s, tick, cs, done);
      DoneStep(cs, k, lanes, doneBefore, done);
      lanes := lanes - {k};
    }
    ArbitratedAll(cs, s, tick, done, r);
  }

  // ---------------------------------------------------------------------
  // Integration

  /** A prefix of one more car has progress when the shorter one has, or
      when that car moves or finished. */
  /** The split of one more car: it joins the finished or the remaining
      cars, behind those before it. */
  lemma SplitSnoc(q: seq<Car>, i: nat, dist: Metric)
    requires i < |q|
    ensures FinishedOf(q[..i + 1], dist) ==
      FinishedOf(q[..i], dist) + (if Finished(q[i], dist) then [q[i]] else [])
    ensures Unfinished(q[..i + 1], dist) ==
      Unfinished(q[..i], dist) + (if Finished(q[i], dist) then [] else [q[i]])
  {
    assert q[..i + 1][..i] == q[..i];
  }

  lemma ProgressSnoc(q: seq<Car>, i: nat, dist: Metric)
    requires i < |q|
    ensures Progress(q[..i + 1], dist) <==>
      Progress(q[..i], dist) || q[i].action != Stop || Finished(q[i], dist)
  {
    var a, b := q[..i], q[..i + 1];
    if Progress(a, dist) {
      var k :| 0 <= k < |a| && (a[k].action != Stop || Finished(a[k], dist));
      assert b[k] == a[k];
    }
    if q[i].action != Stop || Finished(q[i], dist) {
      assert b[i] == q[i];
    }
    if Progress(b, dist) {
      var k :| 0 <= k < |b| && (b[k].action != Stop || Finished(b[k], dist));
      if k < i {
        assert a[k] == b[k];
      }
    }
  }

  /** The update loop of `update`: every car moves by its action, its
      driver's hook runs at the new time, and the cars are split into the
      finished ones and those that go on. */
  method Integrate(a: seq<Car>, tick: real, ts: real, s: Setting, dist: Metric)
    returns (done: seq<Car>, rest: seq<Car>, progress: bool)
    requires AllAdvanceReady(a, tick, ts, s)
    ensures var q := AdvanceAll(a, tick, ts, s);
      done == FinishedOf(q, dist) && rest == Unfinished(q, dist) && (progress <==> Progress(q, dist))
  {
    ghost var q := AdvanceAll(a, tick, ts, s);
    done, rest, progress := [], [], false;
    for i := 0 to |a|
      invariant done == FinishedOf(q[..i], dist) && rest == Unfinished(q[..i], dist)
      invariant progress <==> Progress(q[..i], dist)
    {
      var m := CarUpdate(a[i], tick, s);
      var c := UpdateDriver(m, ts, s);
      assert c == q[i];
      SplitSnoc(q, i, dist);
      ProgressSnoc(q, i, dist);
      if c.action != Stop {
        progress := true;
      }
      if Finished(c, dist) {
        done := done + [c];
        progress := true;
      } else {
        rest := rest + [c];
      }
    }
    assert q[..|a|] == q;
  }

  // ---------------------------------------------------------------------
  // The whole step

  /** The lane map of `update` covers the cars it was built over. */
  lemma GroupingCovers(cs: seq<Car>, byLane: map<nat, seq<nat>>)
    requires Grouping(cs, byLane)
    ensures Covers(cs, byLane)
  {
    forall i | 0 <= i < |cs| ensures cs[i].lane in byLane {
      var k := cs[i].lane;
      assert k in byLane <==> exists j :: 0 <= j < |cs| && cs[j].lane == k;
      assert 0 <= i < |cs| && cs[i].lane == k;
    }
  }

  /** One step of `update` on the active cars at time t, without touching
      the simulator: its result is StepOf. */
  method RunStep(cs: seq<Car>, t: real, s: Setting, dist: Metric) returns (v: StepValue)
    requires WellFormed(s) && AllOk(cs, s, t)
    ensures v == StepOf(cs, t, s, dist)
  {
    ProposeStage(cs, t, s, dist);
    var sorted := SortByAngle(cs);
    var byLane := LaneMap(sorted);
    var p := ProposeActions(sorted, t, s, dist);
    CoversLayout(sorted, p, byLane);
    v := RunProposed(p, byLane, t, s, dist);
  }

  /** The lane map of the sorted cars. */
  method LaneMap(cs: seq<Car>) returns (byLane: map<nat, seq<nat>>)
    ensures Covers(cs, byLane)
  {
    byLane := GroupByLane(cs);
    GroupingCovers(cs, byLane);
  }

  /** The step once every car proposed its action: the follow check, then
      the rest of the step unless it found a shared id. */
  method RunProposed(p: seq<Car>, byLane: map<nat, seq<nat>>, t: real, s: Setting, dist: Metric)
    returns (v: StepValue)
    requires Stage(p, s, t) && Covers(p, byLane)
    ensures v == if Clash(p, s) then Clashed else Advanced(p, t, s, dist)
  {
    var clash, f, tick := FollowPhase(p, byLane, s);
    if clash {
      return Clashed;
    }
    v := RunRest(p, byLane, f, tick, t, t + tick, s, dist);
  }

  /** The part of the step after a follow check without a shared id. */
  method RunRest(p: seq<Car>, byLane: map<nat, seq<nat>>, f: seq<Car>, tick: real, t: real, ts: real,
                 s: Setting, dist: Metric)
    returns (v: StepValue)
    requires Stage(p, s, t) && Covers(p, byLane)
    requires f == AfterFollow(p, s) && tick == StepTick(p, s) && ts == t + tick
    ensures v == Advanced(p, t, s, dist)
  {
    FollowKeepsStage(p, s, t);
    CoversLayout(p, f, byLane);
    StageArbitrable(f, s, t);
    var a := SwitchPhase(f, byLane, s, tick);
    AdvancedUnfold(p, t, s, dist);
    v := FinishStep(a, tick, t, ts, s, dist);
  }

  /** A stage can be arbitrated. */
  lemma StageArbitrable(cs: seq<Car>, s: Setting, t: real)
    requires Stage(cs, s, t)
    ensures Arbitrable(cs, s)
  {
  }

  /** The phases Advanced chains. */
  lemma AdvancedUnfold(p: seq<Car>, t: real, s: Setting, dist: Metric)
    requires Stage(p, s, t)
    ensures var tick := StepTick(p, s);
      tick > 0.0 && Stage(AfterFollow(p, s), s, t) &&
      Stage(Arbitrate(AfterFollow(p, s), s, tick), s, t) &&
      Advanced(p, t, s, dist) == Integrated(Arbitrate(AfterFollow(p, s), s, tick), tick, t, s, dist)
  {
    StepTickSpec(p, s);
    FollowKeepsStage(p, s, t);
    ArbitrateKeepsStage(AfterFollow(p, s), s, t, StepTick(p, s));
  }

  /** Integration and bookkeeping of the arbitrated cars a. */
  method FinishStep(a: seq<Car>, tick: real, t: real, ts: real, s: Setting, dist: Metric) returns (v: StepValue)
    requires Stage(a, s, t) && tick > 0.0 && ts == t + tick
    ensures v == Integrated(a, tick, t, s, dist)
  {
    IntegratedIs(a, tick, t, ts, s, dist);
    v := Split(a, tick, ts, s, dist);
  }

  /** The update loop, packed as a step value. */
  method Split(a: seq<Car>, tick: real, ts: real, s: Setting, dist: Metric) returns (v: StepValue)
    requires AllAdvanceReady(a, tick, ts, s)
    ensures v == Settle(AdvanceAll(a, tick, ts, s), tick, dist)
  {
    var done, rest, progress := Integrate(a, tick, ts, s, dist);
    v := Stepped(tick, done, rest, progress);
  }

  lemma IntegratedIs(a: seq<Car>, tick: real, t: real, ts: real, s: Setting, dist: Metric)
    requires Stage(a, s, t) && tick > 0.0 && ts == t + tick
    ensures AllAdvanceReady(a, tick, ts, s)
    ensures Integrated(a, tick, t, s, dist) == Settle(AdvanceAll(a, tick, ts, s), tick, dist)
  {
    AdvanceReadyAt(a, tick, t, ts, s);
  }
}
