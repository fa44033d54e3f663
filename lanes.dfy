/** How `RoundaboutSim::update` (src/lib.rs) arranges the cars before it
    checks collisions: sorted by angle, grouped by lane into index lists,
    each car followed by the next one of its lane (cyclically), and the
    lower-bound search into a lane. */
module Lanes {
  import opened Common
  import opened Cars

  /** The sort key `OrderedFloat(car.pos.arg())`. */
  function Angle(c: Car): real {
    Arg(c.pos)
  }

  predicate SortedByAngle(cs: seq<Car>) {
    forall i, j :: 0 <= i < j < |cs| ==> Angle(cs[i]) <= Angle(cs[j])
  }

  /** Insert c behind every car whose angle is not greater. */
  function InsertByAngle(q: seq<Car>, c: Car): (r: seq<Car>)
    requires SortedByAngle(q)
    ensures SortedByAngle(r)
    ensures multiset(r) == multiset(q) + multiset{c} && |r| == |q| + 1
    ensures forall i :: 0 <= i < |r| ==>
      Angle(r[i]) <= Angle(c) || (|q| > 0 && Angle(r[i]) <= Angle(q[|q| - 1]))
  {
    if |q| == 0 then [c]
    else if Angle(q[|q| - 1]) <= Angle(c) then
      SortedSnoc(q, c);
      q + [c]
    else
      var last := q[|q| - 1];
      var init := q[..|q| - 1];
      assert q == init + [last];
      var rest := InsertByAngle(init, c);
      assert forall i :: 0 <= i < |rest| ==> Angle(rest[i]) <= Angle(last);
      SortedSnoc(rest, last);
      assert multiset(rest + [last]) == multiset(rest) + multiset{last};
      rest + [last]
  }

  lemma SortedSnoc(q: seq<Car>, c: Car)
    requires SortedByAngle(q)
    requires forall i :: 0 <= i < |q| ==> Angle(q[i]) <= Angle(c)
    ensures SortedByAngle(q + [c])
    ensures forall i :: 0 <= i < |q| + 1 ==> Angle((q + [c])[i]) <= Angle(c)
  {
  }

  /** `cars.sort_by_key(|car| OrderedFloat(car.pos.arg()))`: the cars in
      non-decreasing angle order, none lost or added. */
  function SortByAngle(cs: seq<Car>): (r: seq<Car>)
    ensures SortedByAngle(r)
    ensures multiset(r) == multiset(cs) && |r| == |cs|
  {
    if |cs| == 0 then []
    else
      assert cs == cs[..|cs| - 1] + [cs[|cs| - 1]];
      InsertByAngle(SortByAngle(cs[..|cs| - 1]), cs[|cs| - 1])
  }

  /** `by_lane[k]` as indices into the sorted cars. */
  function LaneIndices(cs: seq<Car>, k: nat): (r: seq<nat>)
    ensures forall p :: 0 <= p < |r| ==> r[p] < |cs| && cs[r[p]].lane == k
    ensures forall i :: 0 <= i < |cs| && cs[i].lane == k ==> i in r
  {
    if |cs| == 0 then []
    else
      var prev := LaneIndices(cs[..|cs| - 1], k);
      if cs[|cs| - 1].lane == k then prev + [|cs| - 1] else prev
  }

  predicate Increasing(g: seq<nat>) {
    forall p, q :: 0 <= p < q < |g| ==> g[p] < g[q]
  }

  /** The indices of a lane come in increasing order, as the sorted cars
      are pushed onto `by_lane`. */
  lemma {:induction false} LaneIndicesIncreasing(cs: seq<Car>, k: nat)
    ensures Increasing(LaneIndices(cs, k))
  {
    if |cs| > 0 {
      var init := cs[..|cs| - 1];
      LaneIndicesIncreasing(init, k);
      var prev := LaneIndices(init, k);
      assert forall p :: 0 <= p < |prev| ==> prev[p] < |cs| - 1;
    }
  }

  /** Two arrangements of cars with the same lanes and the same angles,
      index by index: what the collision phases leave untouched. */
  predicate SameLayout(a: seq<Car>, b: seq<Car>) {
    |a| == |b| && forall i :: 0 <= i < |a| ==> a[i].lane == b[i].lane && Angle(a[i]) == Angle(b[i])
  }

  lemma {:induction false} LayoutGroups(a: seq<Car>, b: seq<Car>, k: nat)
    requires SameLayout(a, b)
    ensures LaneIndices(a, k) == LaneIndices(b, k)
  {
    if |a| > 0 {
      assert SameLayout(a[..|a| - 1], b[..|b| - 1]);
      LayoutGroups(a[..|a| - 1], b[..|b| - 1], k);
    }
  }

  /** Every lane list of sorted cars is in non-decreasing angle order. */
  lemma GroupSorted(cs: seq<Car>, k: nat)
    requires SortedByAngle(cs)
    ensures var g := LaneIndices(cs, k);
      forall p, q :: 0 <= p < q < |g| ==> Angle(cs[g[p]]) <= Angle(cs[g[q]])
  {
    LaneIndicesIncreasing(cs, k);
  }

  /** The first index at or after `from` whose car is on lane k. */
  function FirstOnLane(cs: seq<Car>, k: nat, from: nat): (r: Option<nat>)
    ensures r.Some? ==> from <= r.value < |cs| && cs[r.value].lane == k
    ensures r.Some? ==> forall l :: from <= l < r.value ==> cs[l].lane != k
    ensures r.None? ==> forall l :: from <= l < |cs| ==> cs[l].lane != k
    decreases |cs| - from
  {
    if from >= |cs| then None
    else if cs[from].lane == k then Some(from)
    else FirstOnLane(cs, k, from + 1)
  }

  /** The car that car i follows: the next one on its lane in angle
      order, wrapping around to the first. A car alone on its lane
      follows itself. */
  function Leader(cs: seq<Car>, i: nat): (r: nat)
    requires i < |cs|
    ensures r < |cs| && cs[r].lane == cs[i].lane
  {
    match FirstOnLane(cs, cs[i].lane, i + 1)
    case Some(j) => j
    case None =>
      var f := FirstOnLane(cs, cs[i].lane, 0);
      assert f.Some?;
      f.value
  }

  /** Within a lane list, a car's leader is the next entry. */
  lemma LeaderIsNext(cs: seq<Car>, k: nat, p: nat)
    requires p + 1 < |LaneIndices(cs, k)|
    ensures var g := LaneIndices(cs, k); Leader(cs, g[p]) == g[p + 1]
  {
    LaneIndicesIncreasing(cs, k);
    var g := LaneIndices(cs, k);
    var i, j := g[p], g[p + 1];
    assert cs[j].lane == k && i + 1 <= j;
    var f := FirstOnLane(cs, k, i + 1);
    assert f.Some?;
    var m := f.value;
    assert m <= j;
    assert m in g;
    var q :| 0 <= q < |g| && g[q] == m;
    assert q > p;
    assert m >= j;
  }

  /** The last entry of a lane list follows the first. */
  lemma LeaderWraps(cs: seq<Car>, k: nat)
    requires |LaneIndices(cs, k)| > 0
    ensures var g := LaneIndices(cs, k); Leader(cs, g[|g| - 1]) == g[0]
  {
    LaneIndicesIncreasing(cs, k);
    var g := LaneIndices(cs, k);
    var i := g[|g| - 1];
    var f := FirstOnLane(cs, k, i + 1);
    assert forall q :: 0 <= q < |g| ==> g[q] <= i;
    assert forall l :: i < l < |cs| ==> l !in g;
    assert f.None?;
    assert cs[i].lane == k && cs[g[0]].lane == k;
    var h := FirstOnLane(cs, k, 0);
    assert h.Some?;
    var m := h.value;
    assert m <= g[0];
    assert m in g;
    var q :| 0 <= q < |g| && g[q] == m;
    assert m >= g[0];
  }

  /** The pairs the engine forms, `same_lane[p]` and
      `same_lane[(p + 1) % len]`, are exactly each car and its leader. */
  lemma LeaderInGroup(cs: seq<Car>, k: nat, p: nat)
    requires p < |LaneIndices(cs, k)|
    ensures var g := LaneIndices(cs, k);
      g[(p + 1) % |g|] == Leader(cs, g[p])
  {
    var g := LaneIndices(cs, k);
    var n := |g|;
    if p + 1 < n {
      LeaderIsNext(cs, k, p);
      ModBelow(p + 1, n);
    } else {
      LeaderWraps(cs, k);
      ModBelow(0, n);
      assert p + 1 == 0 + n;
      assert g[(p + 1) % n] == g[0];
    }
  }

  lemma ModBelow(a: nat, n: nat)
    requires a < n
    ensures a % n == a && (a + n) % n == a
  {
  }

  /** The angles along a lane list. */
  function Keys(cs: seq<Car>, g: seq<nat>): (r: seq<real>)
    requires forall p :: 0 <= p < |g| ==> g[p] < |cs|
    ensures |r| == |g| && forall p :: 0 <= p < |g| ==> r[p] == Angle(cs[g[p]])
  {
    seq(|g|, p requires 0 <= p < |g| => Angle(cs[g[p]]))
  }

  /** The position of the first key not below x, `|keys|` when there is
      none. */
  function LowerBound(keys: seq<real>, x: real): (r: nat)
    ensures r <= |keys|
    ensures forall p :: 0 <= p < r ==> keys[p] < x
    ensures r < |keys| ==> keys[r] >= x
  {
    if |keys| == 0 then 0
    else if keys[0] >= x then 0
    else 1 + LowerBound(keys[1..], x)
  }

  /** `binary_search_by` on a lane list, read as the lower bound: the
      insertion point when no key equals x, the first equal key otherwise. */
  method BinarySearch(keys: seq<real>, x: real) returns (idx: nat)
    requires forall p, q :: 0 <= p < q < |keys| ==> keys[p] <= keys[q]
    ensures idx == LowerBound(keys, x)
  {
    var lo, hi := 0, |keys|;
    while lo < hi
      invariant 0 <= lo <= hi <= |keys|
      invariant forall p :: 0 <= p < lo ==> keys[p] < x
      invariant forall p :: hi <= p < |keys| ==> keys[p] >= x
      decreases hi - lo
    {
      var mid := (lo + hi) / 2;
      if keys[mid] < x {
        lo := mid + 1;
      } else {
        hi := mid;
      }
    }
    idx := lo;
    var r := LowerBound(keys, x);
    assert r < |keys| ==> keys[r] >= x;
    assert lo < |keys| ==> keys[lo] >= x;
  }

  /** Extending the cars by one extends each lane list by at most it. */
  lemma LaneIndicesSnoc(cs: seq<Car>, i: nat, k: nat)
    requires i < |cs|
    ensures LaneIndices(cs[..i + 1], k) ==
      LaneIndices(cs[..i], k) + (if cs[i].lane == k then [i] else [])
  {
    assert cs[..i + 1][..i] == cs[..i];
  }

  /** A lane no car is on has an empty list. */
  lemma {:induction false} LaneIndicesEmpty(cs: seq<Car>, k: nat)
    requires forall j :: 0 <= j < |cs| ==> cs[j].lane != k
    ensures LaneIndices(cs, k) == []
  {
    if |cs| > 0 {
      LaneIndicesEmpty(cs[..|cs| - 1], k);
    }
  }

  /** m holds the lane lists of the first i cars. */
  ghost predicate GroupsOf(cs: seq<Car>, i: nat, m: map<nat, seq<nat>>)
    requires i <= |cs|
  {
    (forall k :: k in m <==> exists j :: 0 <= j < i && cs[j].lane == k) &&
    (forall k :: k in m ==> m[k] == LaneIndices(cs[..i], k))
  }

  /** One step of the grouping loop: append car i to the list of its lane. */
  lemma GroupStep(cs: seq<Car>, i: nat, m: map<nat, seq<nat>>)
    requires i < |cs| && GroupsOf(cs, i, m)
    ensures var k := cs[i].lane;
      GroupsOf(cs, i + 1, m[k := (if k in m then m[k] else []) + [i]])
  {
    var k := cs[i].lane;
    var same := if k in m then m[k] else [];
    if k !in m {
      LaneIndicesEmpty(cs[..i], k);
    }
    assert same == LaneIndices(cs[..i], k);
    var m' := m[k := same + [i]];
    forall k' | k' in m'
      ensures m'[k'] == LaneIndices(cs[..i + 1], k')
    {
      LaneIndicesSnoc(cs, i, k');
    }
    forall k': nat
      ensures k' in m' <==> exists j :: 0 <= j < i + 1 && cs[j].lane == k'
    {
      if k' != k {
        if k' in m' {
          var j :| 0 <= j < i && cs[j].lane == k';
          assert 0 <= j < i + 1 && cs[j].lane == k';
        }
      } else {
        assert cs[i].lane == k';
      }
    }
  }

  /** The grouping loop of `update`: each lane that holds a car maps to
      the indices of the cars on it, in order. */
  method GroupByLane(cs: seq<Car>) returns (byLane: map<nat, seq<nat>>)
    ensures forall k :: k in byLane <==> exists i :: 0 <= i < |cs| && cs[i].lane == k
    ensures forall k :: k in byLane ==> byLane[k] == LaneIndices(cs, k)
  {
    byLane := map[];
    for i := 0 to |cs|
      invariant GroupsOf(cs, i, byLane)
    {
      GroupStep(cs, i, byLane);
      var k := cs[i].lane;
      var same := if k in byLane then byLane[k] else [];
      byLane := byLane[k := same + [i]];
    }
    assert cs[..|cs|] == cs;
  }
}
