/** The metrics histogram: what its buckets hold, and when that is the cumulative count. */
module Histogram {
  import opened Maps
  import opened Numbers

  type Labels = string

  predicate Bounds(b: seq<real>) { forall i, j :: 0 <= i < j < |b| ==> b[i] < b[j] }

  /** The first bucket from `i` on that takes `v`; the number of buckets if none does. */
  function SlotFrom(b: seq<real>, v: real, i: nat): (k: nat)
    requires i <= |b|
    ensures i <= k <= |b| && (k < |b| ==> v <= b[k]) && forall j :: i <= j < k ==> b[j] < v
    decreases |b| - i
  {
    if i == |b| || v <= b[i] then i else SlotFrom(b, v, i + 1)
  }

  function Slot(b: seq<real>, v: real): nat { SlotFrom(b, v, 0) }

  /** How many observations are at most `bound`: what a cumulative bucket should hold. */
  function CountLe(vs: seq<real>, bound: real): (n: nat)
    ensures n <= |vs|
  {
    if vs == [] then 0 else CountLe(vs[..|vs| - 1], bound) + if vs[|vs| - 1] <= bound then 1 else 0
  }

  /** The positions of the observations that are at most `bound`. */
  ghost function PositionsLe(vs: seq<real>, bound: real): set<nat> { set i: nat | i < |vs| && vs[i] <= bound }

  lemma PositionsNext(vs: seq<real>, bound: real)
    requires vs != []
    ensures var n := |vs| - 1;
            && n !in PositionsLe(vs[..n], bound)
            && PositionsLe(vs, bound) == PositionsLe(vs[..n], bound) + if vs[n] <= bound then {n} else {}
  {
  }

  lemma {:induction false} CountLeMeans(vs: seq<real>, bound: real)
    ensures CountLe(vs, bound) == |PositionsLe(vs, bound)|
  {
    if vs != [] {
      CountLeMeans(vs[..|vs| - 1], bound);
      PositionsNext(vs, bound);
    }
  }

  // ---------------------------------------------------------------- one observation

  predicate Monotone(c: seq<nat>) { forall i, j :: 0 <= i <= j < |c| ==> c[i] <= c[j] }

  function Bumped(c: seq<nat>, k: nat): (r: seq<nat>)
    ensures |r| == |c|
  {
    if k < |c| then c[k := c[k] + 1] else c
  }

  function Last(c: seq<nat>): nat { if c == [] then 0 else c[|c| - 1] }

  /** Each position holds the largest number up to it. */
  function RunningMax(c: seq<nat>): (r: seq<nat>)
    ensures |r| == |c|
  {
    if c == [] then [] else
      var front := RunningMax(c[..|c| - 1]);
      front + [Max(Last(front), c[|c| - 1])]
  }

  function Observed(b: seq<real>, c: seq<nat>, v: real): seq<nat> { RunningMax(Bumped(c, Slot(b, v))) }

  lemma {:induction false} RunningMaxOfBumped(c: seq<nat>, k: nat, n: nat)
    requires Monotone(c) && n <= |c|
    ensures |RunningMax(Bumped(c, k)[..n])| == n
    ensures forall i :: 0 <= i < n ==> RunningMax(Bumped(c, k)[..n])[i] == if i < k then c[i] else Max(c[i], c[k] + 1)
  {
    if n > 0 {
      RunningMaxOfBumped(c, k, n - 1);
      var p := Bumped(c, k)[..n];
      assert p[..n - 1] == Bumped(c, k)[..n - 1];
    }
  }

  /** From `k` on every bucket is at least one more than `c[k]`. */
  ghost predicate Raised(c: seq<nat>, r: seq<nat>, k: nat) {
    |r| == |c| && forall i :: 0 <= i < |c| ==> r[i] == if i < k then c[i] else Max(c[i], c[k] + 1)
  }

  /** From `k` on every count is one more. */
  ghost predicate Counted(t: seq<nat>, u: seq<nat>, k: nat) {
    |u| == |t| && forall i :: 0 <= i < |t| ==> u[i] == t[i] + if k <= i then 1 else 0
  }

  ghost predicate AtMost(c: seq<nat>, t: seq<nat>) { |c| == |t| && forall i :: 0 <= i < |c| ==> c[i] <= t[i] }

  /** What one observation does to increasing buckets: below its slot nothing, from there on each
      bucket is raised to at least one more than the slot held. */
  lemma ObservedBuckets(b: seq<real>, c: seq<nat>, v: real)
    requires Monotone(c) && |c| == |b|
    ensures var k, r := Slot(b, v), Observed(b, c, v);
            |r| == |c| && Monotone(r) && Raised(c, r, k)
  {
    var k := Slot(b, v);
    RunningMaxOfBumped(c, k, |c|);
    assert Bumped(c, k)[..|c|] == Bumped(c, k);
  }

  // ---------------------------------------------------------------- any number of observations

  function Stored(b: seq<real>, vs: seq<real>): (c: seq<nat>)
    ensures |c| == |b|
  {
    if vs == [] then seq(|b|, _ => 0) else Observed(b, Stored(b, vs[..|vs| - 1]), vs[|vs| - 1])
  }

  /** The buckets never decrease with the bound. */
  lemma {:induction false} StoredIsMonotone(b: seq<real>, vs: seq<real>)
    ensures Monotone(Stored(b, vs))
  {
    if vs != [] {
      StoredIsMonotone(b, vs[..|vs| - 1]);
      ObservedBuckets(b, Stored(b, vs[..|vs| - 1]), vs[|vs| - 1]);
    }
  }

  lemma SlotAndBound(b: seq<real>, v: real, i: nat)
    requires Bounds(b) && i < |b|
    ensures v <= b[i] <==> Slot(b, v) <= i
  {
  }

  /** No bucket ever exceeds the cumulative count. */
  lemma {:induction false} StoredAtMostTrue(b: seq<real>, vs: seq<real>, i: nat)
    requires Bounds(b) && i < |b|
    ensures Stored(b, vs)[i] <= CountLe(vs, b[i])
  {
    if vs != [] {
      var front, v := vs[..|vs| - 1], vs[|vs| - 1];
      StoredAtMostTrue(b, front, i);
      StoredIsMonotone(b, front);
      ObservedBuckets(b, Stored(b, front), v);
      SlotAndBound(b, v, i);
    }
  }

  /** What the buckets should hold. */
  function Truth(b: seq<real>, vs: seq<real>): (t: seq<nat>)
    ensures |t| == |b| && forall i :: 0 <= i < |b| ==> t[i] == CountLe(vs, b[i])
  {
    seq(|b|, i requires 0 <= i < |b| => CountLe(vs, b[i]))
  }

  /** The observations that fall into a bucket come in bucket order. */
  predicate InBucketOrder(b: seq<real>, vs: seq<real>) {
    forall i, j :: 0 <= i < j < |vs| && Slot(b, vs[i]) < |b| ==> Slot(b, vs[i]) <= Slot(b, vs[j])
  }

  predicate Exact(b: seq<real>, vs: seq<real>) { Stored(b, vs) == Truth(b, vs) }

  /** The observations in the buckets after `k`, up to `i`. */
  function Between(b: seq<real>, vs: seq<real>, k: nat, i: nat): nat {
    if vs == [] then 0
    else Between(b, vs[..|vs| - 1], k, i) + if k < Slot(b, vs[|vs| - 1]) <= i then 1 else 0
  }

  lemma {:induction false} CountsBetween(b: seq<real>, vs: seq<real>, k: nat, i: nat)
    requires Bounds(b) && k <= i < |b|
    ensures CountLe(vs, b[i]) == CountLe(vs, b[k]) + Between(b, vs, k, i)
  {
    if vs != [] {
      var n := |vs| - 1;
      CountsBetween(b, vs[..n], k, i);
      SlotAndBound(b, vs[n], k);
      SlotAndBound(b, vs[n], i);
    }
  }

  lemma {:induction false} NoneBetween(b: seq<real>, vs: seq<real>, k: nat, i: nat)
    ensures Between(b, vs, k, i) == 0 <==> forall j :: 0 <= j < |vs| ==> !(k < Slot(b, vs[j]) <= i)
  {
    if vs != [] {
      var front := vs[..|vs| - 1];
      NoneBetween(b, front, k, i);
      assert forall j :: 0 <= j < |front| ==> front[j] == vs[j];
    }
  }

  /** Raising `c` from `k` on against counting in `t` from `k` on. */
  lemma RaisedAgainstCounted(c: seq<nat>, t: seq<nat>, r: seq<nat>, u: seq<nat>, k: nat)
    requires Monotone(c) && Monotone(t) && AtMost(c, t) && Raised(c, r, k) && Counted(t, u, k)
    ensures r == u <==> c == t && (k < |c| ==> t[k] == t[|t| - 1])
  {
    if r == u {
      forall i | 0 <= i < |c| ensures c[i] == t[i] {
        assert r[i] == u[i] && (k <= i ==> c[k] <= c[i]);
      }
    }
    if c == t && (k < |c| ==> t[k] == t[|t| - 1]) {
      forall i | 0 <= i < |c| ensures r[i] == u[i] {
        assert k <= i ==> t[k] <= t[i] <= t[|t| - 1];
      }
    }
  }

  lemma {:induction false} TruthIsMonotone(b: seq<real>, vs: seq<real>)
    requires Bounds(b)
    ensures Monotone(Truth(b, vs))
  {
    forall i, j | 0 <= i <= j < |b| ensures CountLe(vs, b[i]) <= CountLe(vs, b[j]) {
      CountsBetween(b, vs, i, j);
    }
  }

  lemma {:induction false} TruthNext(b: seq<real>, front: seq<real>, v: real)
    requires Bounds(b)
    ensures Counted(Truth(b, front), Truth(b, front + [v]), Slot(b, v))
  {
    assert (front + [v])[..|front|] == front;
    forall i: nat | i < |b|
      ensures CountLe(front + [v], b[i]) == CountLe(front, b[i]) + if Slot(b, v) <= i then 1 else 0
    {
      SlotAndBound(b, v, i);
    }
  }

  lemma {:induction false} StoredNext(b: seq<real>, front: seq<real>, v: real)
    ensures Stored(b, front + [v]) == Observed(b, Stored(b, front), v)
  {
    assert (front + [v])[..|front|] == front;
  }

  lemma {:induction false} StoredBuckets(b: seq<real>, front: seq<real>, v: real)
    ensures Raised(Stored(b, front), Stored(b, front + [v]), Slot(b, v))
  {
    StoredIsMonotone(b, front);
    StoredNext(b, front, v);
    ObservedBuckets(b, Stored(b, front), v);
  }

  lemma {:induction false} StoredBelowTruth(b: seq<real>, vs: seq<real>)
    requires Bounds(b)
    ensures Monotone(Stored(b, vs)) && Monotone(Truth(b, vs)) && AtMost(Stored(b, vs), Truth(b, vs))
  {
    StoredIsMonotone(b, vs);
    TruthIsMonotone(b, vs);
    forall i: nat | i < |b| ensures Stored(b, vs)[i] <= Truth(b, vs)[i] {
      StoredAtMostTrue(b, vs, i);
    }
  }

  lemma {:induction false} ExactStep(b: seq<real>, front: seq<real>, v: real)
    requires Bounds(b)
    ensures var t, k := Truth(b, front), Slot(b, v);
            Exact(b, front + [v]) <==> Exact(b, front) && (k < |b| ==> t[k] == t[|b| - 1])
  {
    StoredBuckets(b, front, v);
    TruthNext(b, front, v);
    StoredBelowTruth(b, front);
    RaisedAgainstCounted(Stored(b, front), Truth(b, front), Stored(b, front + [v]), Truth(b, front + [v]), Slot(b, v));
  }

  lemma {:induction false} NothingBetween(b: seq<real>, vs: seq<real>, k: nat, i: nat)
    requires i <= k
    ensures Between(b, vs, k, i) == 0
  {
    if vs != [] {
      NothingBetween(b, vs[..|vs| - 1], k, i);
    }
  }

  lemma {:induction false} LaterCount(b: seq<real>, vs: seq<real>, k: nat)
    requires Bounds(b) && b != []
    ensures (k < |b| ==> Truth(b, vs)[k] == Truth(b, vs)[|b| - 1]) <==> Between(b, vs, k, |b| - 1) == 0
  {
    if k < |b| {
      CountsBetween(b, vs, k, |b| - 1);
    } else {
      NothingBetween(b, vs, k, |b| - 1);
    }
  }

  /** A last observation keeps the buckets exact just when no earlier one lies in a later bucket. */
  lemma {:induction false} ExactNext(b: seq<real>, front: seq<real>, v: real)
    requires Bounds(b) && b != []
    ensures Exact(b, front + [v]) <==> Exact(b, front) && Between(b, front, Slot(b, v), |b| - 1) == 0
  {
    ExactStep(b, front, v);
    LaterCount(b, front, Slot(b, v));
  }

  lemma {:induction false} OrderNext(b: seq<real>, front: seq<real>, v: real)
    requires b != []
    ensures InBucketOrder(b, front + [v]) <==> InBucketOrder(b, front) && Between(b, front, Slot(b, v), |b| - 1) == 0
  {
    NoneBetween(b, front, Slot(b, v), |b| - 1);
    if InBucketOrder(b, front + [v]) {
      OrderBefore(b, front, v);
    }
    if InBucketOrder(b, front) && Between(b, front, Slot(b, v), |b| - 1) == 0 {
      OrderAfter(b, front, v);
    }
  }

  lemma OrderBefore(b: seq<real>, front: seq<real>, v: real)
    requires InBucketOrder(b, front + [v])
    ensures InBucketOrder(b, front) && forall j :: 0 <= j < |front| ==> !(Slot(b, v) < Slot(b, front[j]) <= |b| - 1)
  {
    var vs := front + [v];
    forall i, j | 0 <= i < j < |front| && Slot(b, front[i]) < |b| ensures Slot(b, front[i]) <= Slot(b, front[j]) {
      assert vs[i] == front[i] && vs[j] == front[j];
    }
    forall j | 0 <= j < |front| ensures !(Slot(b, v) < Slot(b, front[j]) <= |b| - 1) {
      assert vs[j] == front[j] && vs[|front|] == v;
    }
  }

  lemma OrderAfter(b: seq<real>, front: seq<real>, v: real)
    requires InBucketOrder(b, front) && forall j :: 0 <= j < |front| ==> !(Slot(b, v) < Slot(b, front[j]) <= |b| - 1)
    ensures InBucketOrder(b, front + [v])
  {
    var vs := front + [v];
    forall i, j | 0 <= i < j < |vs| && Slot(b, vs[i]) < |b| ensures Slot(b, vs[i]) <= Slot(b, vs[j]) {
      assert vs[i] == front[i] && (if j < |front| then vs[j] == front[j] else vs[j] == v);
    }
  }

  /** The buckets hold the cumulative counts if and only if the observations came in bucket order. */
  lemma {:induction false} ExactIffInOrder(b: seq<real>, vs: seq<real>)
    requires Bounds(b)
    ensures Exact(b, vs) <==> InBucketOrder(b, vs)
    decreases |vs|
  {
    if vs == [] {
      assert Stored(b, vs) == Truth(b, vs);
    } else if b != [] {
      var front, v := vs[..|vs| - 1], vs[|vs| - 1];
      assert vs == front + [v];
      ExactIffInOrder(b, front);
      ExactNext(b, front, v);
      OrderNext(b, front, v);
    }
  }

  lemma SlotMonotone(b: seq<real>, u: real, v: real)
    requires u <= v
    ensures Slot(b, u) <= Slot(b, v)
  {
  }

  /** In particular they do when the observations never decrease. */
  lemma ExactWhenAscending(b: seq<real>, vs: seq<real>)
    requires Bounds(b) && forall i, j :: 0 <= i < j < |vs| ==> vs[i] <= vs[j]
    ensures Exact(b, vs)
  {
    forall i, j | 0 <= i < j < |vs| && Slot(b, vs[i]) < |b| ensures Slot(b, vs[i]) <= Slot(b, vs[j]) {
      SlotMonotone(b, vs[i], vs[j]);
    }
    ExactIffInOrder(b, vs);
  }

  const DEFAULT_BUCKETS: seq<real> := [1.0, 5.0, 10.0, 30.0, 60.0, 120.0, 300.0, 600.0, 1800.0, 3600.0]

  lemma DefaultBucketsAscend()
    ensures Bounds(DEFAULT_BUCKETS)
  {
  }

  /** Observing 3 and then 0.5 leaves the buckets short. */
  lemma SmallAfterLargeIsLost()
    ensures !Exact(DEFAULT_BUCKETS, [3.0, 0.5])
  {
    var b, vs := DEFAULT_BUCKETS, [3.0, 0.5];
    DefaultBucketsAscend();
    SlotAndBound(b, 3.0, 0);
    SlotAndBound(b, 3.0, 1);
    SlotAndBound(b, 0.5, 0);
    assert Slot(b, vs[0]) == 1 && Slot(b, vs[1]) == 0;
    ExactIffInOrder(b, vs);
  }

  // ---------------------------------------------------------------- the class

  datatype Series = Series(counts: seq<nat>, sum: real, total: nat)

  function NoSeries(b: seq<real>): Series { Series(seq(|b|, _ => 0), 0.0, 0) }

  function Sum(vs: seq<real>): real { if vs == [] then 0.0 else Sum(vs[..|vs| - 1]) + vs[|vs| - 1] }

  lemma {:induction false} SumMeans(vs: seq<real>, ws: seq<real>, v: real)
    ensures Sum(vs + ws) == Sum(vs) + Sum(ws) && Sum([v]) == v
  {
    assert [v][..0] == [];
    if ws == [] {
      assert vs + ws == vs;
    } else {
      var n := |ws| - 1;
      SumMeans(vs, ws[..n], v);
      assert (vs + ws)[..|vs + ws| - 1] == vs + ws[..n];
    }
  }

  /** The numbers stored after these observations. */
  function SeriesOf(b: seq<real>, vs: seq<real>): Series { Series(Stored(b, vs), Sum(vs), |vs|) }

  lemma SeriesNext(b: seq<real>, vs: seq<real>, v: real)
    ensures SeriesOf(b, vs + [v]) == Series(Observed(b, Stored(b, vs), v), Sum(vs) + v, |vs| + 1)
  {
    StoredNext(b, vs, v);
    assert (vs + [v])[..|vs|] == vs;
  }

  /** For each label set the stored numbers are those of its observations. */
  ghost predicate Reflects(b: seq<real>, series: map<Labels, Series>, observed: map<Labels, seq<real>>) {
    series.Keys == observed.Keys && forall key :: key in observed ==> series[key] == SeriesOf(b, observed[key])
  }

  lemma ReflectsNext(b: seq<real>, series: map<Labels, Series>, observed: map<Labels, seq<real>>, key: Labels,
                     s: Series, v: real)
    requires Reflects(b, series, observed) && s == SeriesOf(b, Of(observed, key) + [v])
    ensures Reflects(b, series[key := s], observed[key := Of(observed, key) + [v]])
  {
  }

  /** One observation: it is added to the sum and counted once in the total; the buckets below it stay, and
      from the first one that takes it on each holds at least one more than that one did. */
  ghost predicate AddsOne(b: seq<real>, s: Series, r: Series, v: real) {
    && r.sum == s.sum + v && r.total == s.total + 1 && |s.counts| == |r.counts| == |b|
    && (forall i :: 0 <= i < |b| && b[i] < v ==> r.counts[i] == s.counts[i])
    && forall k, i :: 0 <= k <= i < |b| && v <= b[k] && (forall j :: 0 <= j < k ==> b[j] < v) ==>
         r.counts[i] == if s.counts[i] > s.counts[k] then s.counts[i] else s.counts[k] + 1
  }

  lemma SeriesAddsOne(b: seq<real>, vs: seq<real>, v: real)
    requires Bounds(b)
    ensures AddsOne(b, SeriesOf(b, vs), SeriesOf(b, vs + [v]), v)
  {
    SeriesNext(b, vs, v);
    StoredIsMonotone(b, vs);
    ObservedBuckets(b, Stored(b, vs), v);
    forall i: nat | i < |b| && b[i] < v ensures i < Slot(b, v) {
      SlotAndBound(b, v, i);
    }
    forall k: nat | k < |b| && v <= b[k] && (forall j :: 0 <= j < k ==> b[j] < v) ensures k == Slot(b, v) {
      SlotAndBound(b, v, k);
    }
  }

  class Metric {
    const buckets: seq<real>
    var series: map<Labels, Series>
    ghost var observed: map<Labels, seq<real>>

    ghost predicate Valid()
      reads this
    {
      Reflects(buckets, series, observed)
    }

    constructor (buckets: seq<real>)
      ensures Valid() && observed == map[] && this.buckets == buckets
    {
      this.buckets := buckets;
      series, observed := map[], map[];
    }

    method Observe(value: real, key: Labels)
      requires Valid()
      modifies this
      ensures Valid() && observed == old(observed)[key := Of(old(observed), key) + [value]]
      ensures key in series && series == old(series)[key := series[key]]
      ensures Bounds(buckets) ==>
                AddsOne(buckets, if key in old(series) then old(series)[key] else NoSeries(buckets), series[key], value)
    {
      var s := if key in series then series[key] else NoSeries(buckets);
      var next := NextSeries(buckets, s, Of(observed, key), value);
      ReflectsNext(buckets, series, observed, key, next, value);
      if Bounds(buckets) {
        SeriesAddsOne(buckets, Of(observed, key), value);
      }
      series := series[key := next];
      observed := observed[key := Of(observed, key) + [value]];
    }
  }

  method NextSeries(b: seq<real>, s: Series, ghost vs: seq<real>, value: real) returns (next: Series)
    requires s == SeriesOf(b, vs)
    ensures next == SeriesOf(b, vs + [value])
  {
    var bumped := CountOnce(b, s.counts, value);
    var raised := Raise(bumped);
    SeriesNext(b, vs, value);
    next := Series(raised, s.sum + value, s.total + 1);
  }

  /** The first loop: only the first bucket that takes the value counts it. */
  method CountOnce(b: seq<real>, c: seq<nat>, value: real) returns (r: seq<nat>)
    requires |c| == |b|
    ensures r == Bumped(c, Slot(b, value))
  {
    r := c;
    var seen := false;
    for i := 0 to |b|
      invariant |r| == |c| && (seen <==> Slot(b, value) < i)
      invariant r == if seen then Bumped(c, Slot(b, value)) else c
    {
      if value <= b[i] && !seen {
        r := r[i := r[i] + 1];
        seen := true;
      }
    }
  }

  /** The second loop: every bucket is raised to the largest before it. */
  method Raise(c: seq<nat>) returns (r: seq<nat>)
    ensures r == RunningMax(c)
  {
    r := c;
    var running: nat := 0;
    for i := 0 to |c|
      invariant |r| == |c| && r[..i] == RunningMax(c[..i]) && r[i..] == c[i..] && running == Last(RunningMax(c[..i]))
    {
      assert c[..i + 1][..i] == c[..i] && r[i] == r[i..][0] == c[i];
      if r[i] > running {
        running := r[i];
      }
      ghost var before := r;
      r := r[i := running];
      assert r[..i + 1] == before[..i] + [running] && r[i + 1..] == before[i..][1..] == c[i + 1..];
    }
    assert r[..|c|] == r && c[..|c|] == c;
  }
}
