/** Latency percentiles: picks from the sorted samples, the sampling loop that fills the
    buffer, the merge of per-worker samples, and the insertion-sort median. */
module Percentile {
  import opened Shellsort
  import opened Words

  const PCTL_FLOOR: nat := 20_000
  const MAX_LAT: nat := 2_000_000

  // ----- order statistics, without sorting -----

  function AtMost(xs: seq<real>, w: real): nat {
    if xs == [] then 0 else (if xs[0] <= w then 1 else 0) + AtMost(xs[1..], w)
  }

  function Less(xs: seq<real>, w: real): nat {
    if xs == [] then 0 else (if xs[0] < w then 1 else 0) + Less(xs[1..], w)
  }

  /** v is the sample of rank r (from 0) of xs, in whatever order xs is. */
  ghost predicate IsOrderStatistic(xs: seq<real>, r: nat, v: real) {
    v in xs && Less(xs, v) <= r < AtMost(xs, v)
  }

  lemma {:induction false} CountsConcat(xs: seq<real>, ys: seq<real>, w: real)
    ensures AtMost(xs + ys, w) == AtMost(xs, w) + AtMost(ys, w)
    ensures Less(xs + ys, w) == Less(xs, w) + Less(ys, w)
  {
    if xs == [] {
      assert xs + ys == ys;
    } else {
      CountsConcat(xs[1..], ys, w);
      assert (xs + ys)[1..] == xs[1..] + ys;
    }
  }

  lemma RemoveOne(ys: seq<real>, k: nat, w: real)
    requires k < |ys|
    ensures var zs := ys[..k] + ys[k + 1..];
            && AtMost(ys, w) == AtMost(zs, w) + (if ys[k] <= w then 1 else 0)
            && Less(ys, w) == Less(zs, w) + (if ys[k] < w then 1 else 0)
            && multiset(ys) == multiset(zs) + multiset{ys[k]}
  {
    assert ys == ys[..k] + ys[k..];
    CountsConcat(ys[..k], ys[k..], w);
    CountsConcat(ys[..k], ys[k + 1..], w);
    assert ys[k..][1..] == ys[k + 1..];
    assert ys[k..] == [ys[k]] + ys[k + 1..];
  }

  lemma Cancel(a: multiset<real>, b: multiset<real>, x: real)
    requires a + multiset{x} == b + multiset{x}
    ensures a == b
  {
    assert a == a + multiset{x} - multiset{x};
    assert b == b + multiset{x} - multiset{x};
  }

  lemma {:induction false} CountsPermute(xs: seq<real>, ys: seq<real>, w: real)
    requires multiset(xs) == multiset(ys)
    ensures AtMost(xs, w) == AtMost(ys, w) && Less(xs, w) == Less(ys, w)
    decreases |xs|
  {
    if xs == [] {
      assert |ys| == |multiset(ys)| == 0;
    } else {
      var x := xs[0];
      assert x in multiset(ys);
      var k :| 0 <= k < |ys| && ys[k] == x;
      var zs := ys[..k] + ys[k + 1..];
      RemoveOne(ys, k, w);
      assert xs == [x] + xs[1..];
      Cancel(multiset(xs[1..]), multiset(zs), x);
      CountsPermute(xs[1..], zs, w);
    }
  }

  lemma {:induction false} CountsMonotone(xs: seq<real>, v: real, w: real)
    requires v < w
    ensures AtMost(xs, v) <= Less(xs, w)
  {
    if xs != [] {
      CountsMonotone(xs[1..], v, w);
    }
  }

  /** A rank determines its value. */
  lemma OrderStatisticUnique(xs: seq<real>, r: nat, v: real, w: real)
    requires IsOrderStatistic(xs, r, v) && IsOrderStatistic(xs, r, w)
    ensures v == w
  {
    if v < w {
      CountsMonotone(xs, v, w);
    } else if w < v {
      CountsMonotone(xs, w, v);
    }
  }

  /** Order statistics depend on the samples only, not on the order they come in. */
  lemma OrderStatisticPermutes(xs: seq<real>, ys: seq<real>, r: nat, v: real)
    requires multiset(xs) == multiset(ys) && IsOrderStatistic(xs, r, v)
    ensures IsOrderStatistic(ys, r, v)
  {
    CountsPermute(xs, ys, v);
    assert v in multiset(ys);
  }

  lemma {:induction false} CountBounds(s: seq<real>, lo: nat, hi: nat, v: real)
    requires lo <= hi <= |s|
    requires forall i :: 0 <= i < lo ==> s[i] < v
    requires forall i :: 0 <= i < hi ==> s[i] <= v
    ensures lo <= Less(s, v) && hi <= AtMost(s, v)
  {
    if hi > 0 {
      CountBounds(s[1..], if lo > 0 then lo - 1 else 0, hi - 1, v);
    }
  }

  lemma {:induction false} LessBound(s: seq<real>, r: nat, v: real)
    requires r <= |s| && forall i :: r <= i < |s| ==> v <= s[i]
    ensures Less(s, v) <= r
  {
    if s != [] {
      LessBound(s[1..], if r > 0 then r - 1 else 0, v);
    }
  }

  lemma SortedHoldsStatistics(s: seq<real>, r: nat)
    requires Sorted(s) && r < |s|
    ensures IsOrderStatistic(s, r, s[r])
  {
    CountBounds(s, 0, r + 1, s[r]);
    LessBound(s, r, s[r]);
  }

  /** Two sorted arrangements of the same samples are the same array, so it does not
      matter which sort ran. */
  lemma SortedUnique(s: seq<real>, t: seq<real>)
    requires Sorted(s) && Sorted(t) && multiset(s) == multiset(t)
    ensures s == t
  {
    assert |s| == |multiset(s)| == |multiset(t)| == |t|;
    forall r | 0 <= r < |s| ensures s[r] == t[r] {
      SortedHoldsStatistics(s, r);
      SortedHoldsStatistics(t, r);
      OrderStatisticPermutes(s, t, r, s[r]);
      OrderStatisticUnique(t, r, s[r], t[r]);
    }
  }

  // ----- percentiles -----

  /** The index nearest to y, halves going up, cut off at the last of n. */
  function Nearest(y: real, n: nat): (r: nat)
    requires n > 0 && 0.0 <= y
    ensures r < n
    ensures y <= (n - 1) as real ==> r as real - 0.5 <= y < r as real + 0.5
    ensures y >= (n - 1) as real ==> r == n - 1
  {
    var idx := (y + 0.5).Floor;
    if idx >= n then n - 1 else idx
  }

  function Target(n: nat, q: real): (y: real)
    requires n > 0 && 0.0 <= q
    ensures 0.0 <= y
  {
    ScaleOne(q, (n - 1) as real);
    q * (n - 1) as real
  }

  /** Index read by `pick` for quantile q of n samples. */
  function Rank(n: nat, q: real): (r: nat)
    requires n > 0 && 0.0 <= q
    ensures r < n
  {
    Nearest(Target(n, q), n)
  }

  lemma Scale(x: real, y: real, k: real)
    requires x <= y && 0.0 <= k
    ensures x * k <= y * k
  {
    assert (y - x) * k >= 0.0;
  }

  function Pick(sorted: seq<real>, q: real): (v: real)
    requires 0.0 <= q
    ensures sorted == [] ==> v == 0.0
  {
    if sorted == [] then 0.0 else sorted[Rank(|sorted|, q)]
  }

  datatype Pctl = Pctl(p10: real, p50: real, p90: real, p99: real, p999: real, max: real)

  function Ticks(sorted: seq<real>): Pctl
    requires sorted != []
  {
    Pctl(Pick(sorted, 0.1), Pick(sorted, 0.5), Pick(sorted, 0.9),
         Pick(sorted, 0.99), Pick(sorted, 0.999), sorted[|sorted| - 1])
  }

  function Scaled(p: Pctl, k: real): Pctl {
    Pctl(p.p10 * k, p.p50 * k, p.p90 * k, p.p99 * k, p.p999 * k, p.max * k)
  }

  /** `pctl_from` and `pctl_of`, with k nanoseconds per tick. */
  function PctlOf(sorted: seq<real>, k: real): Pctl {
    if sorted == [] then Pctl(0.0, 0.0, 0.0, 0.0, 0.0, 0.0) else Scaled(Ticks(sorted), k)
  }

  lemma ScaleOne(q: real, m: real)
    requires 0.0 <= q && 0.0 <= m
    ensures 0.0 <= q * m
    ensures q <= 1.0 ==> q * m <= m
    ensures q >= 1.0 ==> q * m >= m
  {
    if q <= 1.0 {
      assert (1.0 - q) * m >= 0.0;
      assert (1.0 - q) * m == m - q * m;
    } else {
      assert (q - 1.0) * m >= 0.0;
      assert (q - 1.0) * m == q * m - m;
    }
  }

  /** r is the index nearest to y, the higher one when y is halfway. */
  ghost predicate IsNearest(r: nat, y: real) {
    r as real - 0.5 <= y < r as real + 0.5
  }

  lemma TargetRange(n: nat, q: real)
    requires n > 0 && 0.0 <= q
    ensures Target(n, q) == q * (n - 1) as real
    ensures q <= 1.0 ==> Target(n, q) <= (n - 1) as real
    ensures q >= 1.0 ==> Target(n, q) >= (n - 1) as real
  {
    ScaleOne(q, (n - 1) as real);
  }

  /** Up to quantile 1 the index is the one nearest to q * (n - 1); from 1 on it is the last. */
  lemma RankNearest(n: nat, q: real)
    requires n > 0 && 0.0 <= q
    ensures q <= 1.0 ==> Rank(n, q) as real - 0.5 <= q * (n - 1) as real < Rank(n, q) as real + 0.5
    ensures q >= 1.0 ==> Rank(n, q) == n - 1
  {
    hide Nearest, Target;
    TargetRange(n, q);
  }

  lemma NearestMonotone(y: real, z: real, n: nat)
    requires n > 0 && 0.0 <= y <= z
    ensures Nearest(y, n) <= Nearest(z, n)
  {
    assert (y + 0.5).Floor as real <= y + 0.5 <= z + 0.5 < ((z + 0.5).Floor + 1) as real;
  }

  lemma RankMonotone(n: nat, q: real, q': real)
    requires n > 0 && 0.0 <= q <= q'
    ensures Rank(n, q) <= Rank(n, q')
  {
    hide Nearest, Target;
    TargetMonotone(n, q, q');
    NearestMonotone(Target(n, q), Target(n, q'), n);
  }

  lemma TargetMonotone(n: nat, q: real, q': real)
    requires n > 0 && 0.0 <= q <= q'
    ensures Target(n, q) <= Target(n, q')
  {
    Scale(q, q', (n - 1) as real);
  }

  ghost predicate Ordered(p: Pctl) {
    p.p10 <= p.p50 <= p.p90 <= p.p99 <= p.p999 <= p.max
  }

  /** v is the sample that stands at the index nearest to q * (n - 1) once they are in order. */
  ghost predicate AtQuantile(xs: seq<real>, q: real, v: real) {
    exists r: nat :: r < |xs| && IsNearest(r, q * (|xs| - 1) as real) && IsOrderStatistic(xs, r, v)
  }

  ghost predicate StatisticsOf(xs: seq<real>, t: Pctl)
    requires xs != []
  {
    && AtQuantile(xs, 0.1, t.p10) && AtQuantile(xs, 0.5, t.p50) && AtQuantile(xs, 0.9, t.p90)
    && AtQuantile(xs, 0.99, t.p99) && AtQuantile(xs, 0.999, t.p999)
    && IsOrderStatistic(xs, |xs| - 1, t.max)
  }

  /** p is t with every entry converted at k nanoseconds per tick. */
  ghost predicate Converted(t: Pctl, p: Pctl, k: real) {
    && p.p10 == t.p10 * k && p.p50 == t.p50 * k && p.p90 == t.p90 * k
    && p.p99 == t.p99 * k && p.p999 == t.p999 * k && p.max == t.max * k
  }

  lemma PickIsStatistic(xs: seq<real>, s: seq<real>, r: nat)
    requires Sorted(s) && multiset(xs) == multiset(s) && r < |s|
    ensures |xs| == |s| && IsOrderStatistic(xs, r, s[r])
  {
    assert |xs| == |multiset(xs)| == |s|;
    SortedHoldsStatistics(s, r);
    OrderStatisticPermutes(s, xs, r, s[r]);
  }

  lemma TicksOrdered(s: seq<real>)
    requires Sorted(s) && s != []
    ensures Ordered(Ticks(s))
  {
    RankMonotone(|s|, 0.1, 0.5);
    RankMonotone(|s|, 0.5, 0.9);
    RankMonotone(|s|, 0.9, 0.99);
    RankMonotone(|s|, 0.99, 0.999);
  }

  lemma ScaledOrdered(p: Pctl, k: real)
    requires Ordered(p) && 0.0 <= k
    ensures Ordered(Scaled(p, k))
  {
    var r := Scaled(p, k);
    assert r.p10 <= r.p50 by { Scale(p.p10, p.p50, k); }
    assert r.p50 <= r.p90 by { Scale(p.p50, p.p90, k); }
    assert r.p90 <= r.p99 by { Scale(p.p90, p.p99, k); }
    assert r.p99 <= r.p999 by { Scale(p.p99, p.p999, k); }
    assert r.p999 <= r.max by { Scale(p.p999, p.max, k); }
  }

  lemma PickAtQuantile(xs: seq<real>, s: seq<real>, q: real)
    requires Sorted(s) && multiset(xs) == multiset(s) && s != [] && 0.0 <= q <= 1.0
    ensures AtQuantile(xs, q, Pick(s, q))
  {
    hide Rank;
    var r := Rank(|s|, q);
    PickIsStatistic(xs, s, r);
    RankNearest(|s|, q);
    assert r < |xs| && IsNearest(r, q * (|xs| - 1) as real) && IsOrderStatistic(xs, r, Pick(s, q));
  }

  /** What is read off the sorted buffer are the order statistics of the samples as taken. */
  lemma TicksMeaning(xs: seq<real>, s: seq<real>)
    requires Sorted(s) && multiset(xs) == multiset(s) && s != []
    ensures xs != [] && StatisticsOf(xs, Ticks(s)) && Ordered(Ticks(s))
  {
    hide AtQuantile, Pick;
    PickIsStatistic(xs, s, |s| - 1);
    PickAtQuantile(xs, s, 0.1);
    PickAtQuantile(xs, s, 0.5);
    PickAtQuantile(xs, s, 0.9);
    PickAtQuantile(xs, s, 0.99);
    PickAtQuantile(xs, s, 0.999);
    TicksOrdered(s);
  }

  /** The report read off the sorted buffer. */
  lemma ReportMeaning(xs: seq<real>, s: seq<real>, k: real)
    requires Sorted(s) && multiset(xs) == multiset(s) && 0.0 <= k
    ensures |xs| == |s|
    ensures xs == [] ==> PctlOf(s, k) == Pctl(0.0, 0.0, 0.0, 0.0, 0.0, 0.0)
    ensures xs != [] ==> StatisticsOf(xs, Ticks(s)) && Converted(Ticks(s), PctlOf(s, k), k)
    ensures xs != [] ==> Ordered(Ticks(s)) && Ordered(PctlOf(s, k))
  {
    hide StatisticsOf, Ticks;
    assert |xs| == |multiset(xs)| == |s|;
    if xs != [] {
      TicksMeaning(xs, s);
      ScaledOrdered(Ticks(s), k);
    }
  }

  /** A quantile determines one value of a sample multiset. */
  lemma QuantileUnique(xs: seq<real>, q: real, v: real, w: real)
    requires AtQuantile(xs, q, v) && AtQuantile(xs, q, w)
    ensures v == w
  {
    var y := q * (|xs| - 1) as real;
    var r: nat :| r < |xs| && IsNearest(r, y) && IsOrderStatistic(xs, r, v);
    var t: nat :| t < |xs| && IsNearest(t, y) && IsOrderStatistic(xs, t, w);
    assert r == t;
    OrderStatisticUnique(xs, r, v, w);
  }

  /** The report is a function of the sample multiset: two runs over the same samples in any
      two orders report the same percentiles. */
  lemma PctlOrderFree(xs: seq<real>, ys: seq<real>, s: seq<real>, t: seq<real>, k: real)
    requires multiset(xs) == multiset(ys)
    requires Sorted(s) && multiset(s) == multiset(xs)
    requires Sorted(t) && multiset(t) == multiset(ys)
    ensures PctlOf(s, k) == PctlOf(t, k)
  {
    SortedUnique(s, t);
  }

  // ----- the sampling loop -----

  /** Passes that `pctl_run` decides to make: the fewest that reach `floor` samples, cut
      back to what fits in `cap`, and at least one. */
  method PassCount(perPass: nat, floor: nat, cap: nat) returns (npasses: nat)
    ensures npasses >= 1 && (perPass == 0 ==> npasses == 1)
    ensures npasses > 1 ==> npasses * perPass < floor + perPass && npasses * perPass <= cap
    ensures perPass > 0 ==> floor <= npasses * perPass || cap < npasses * perPass + perPass
  {
    npasses := if perPass > 0 then (floor + perPass - 1) / perPass else 1;
    if perPass > 0 {
      Ceiling(floor, perPass);
    }
    if npasses < 1 {
      npasses := 1;
    }
    while perPass > 0 && npasses > 1 && npasses * perPass > cap
      invariant npasses >= 1 && (perPass == 0 ==> npasses == 1)
      invariant npasses > 1 ==> npasses * perPass < floor + perPass
      invariant perPass > 0 ==> floor <= npasses * perPass || cap < npasses * perPass + perPass
    {
      assert (npasses - 1) * perPass == npasses * perPass - perPass;
      npasses := npasses - 1;
    }
  }

  lemma Ceiling(x: nat, d: nat)
    requires 0 < d
    ensures x <= (x + d - 1) / d * d < x + d
  {
    var c := (x + d - 1) / d;
    assert x + d - 1 == c * d + (x + d - 1) % d;
  }

  /** With the bench's constants the floor is always reached and the buffer never outgrown. */
  lemma FloorReached(perPass: nat, npasses: nat, total: nat)
    requires 0 < perPass <= MAX_LAT && npasses >= 1 && total == npasses * perPass
    requires npasses > 1 ==> total < PCTL_FLOOR + perPass && total <= MAX_LAT
    requires PCTL_FLOOR <= total || MAX_LAT < total + perPass
    ensures PCTL_FLOOR <= total <= MAX_LAT && total < PCTL_FLOOR + perPass
  {
    assert total == perPass + (npasses - 1) * perPass;
  }

  /** `pctl_run`: `stream(i)` is the i-th latency measured, `perPass` of them per pass. */
  method PctlRun(perPass: nat, stream: nat -> real, lat: array<real>, k: real) returns (p: Pctl, nsamp: nat, ghost t: Pctl)
    requires perPass <= MAX_LAT == lat.Length && 0.0 <= k
    modifies lat
    ensures perPass == 0 ==> nsamp == 0 && p == Pctl(0.0, 0.0, 0.0, 0.0, 0.0, 0.0)
    ensures perPass > 0 ==> PCTL_FLOOR <= nsamp <= MAX_LAT && nsamp < PCTL_FLOOR + perPass
    ensures exists m :: nsamp == m * perPass
    ensures perPass > 0 ==> StatisticsOf(seq(nsamp, i requires 0 <= i => stream(i)), t)
    ensures perPass > 0 ==> Converted(t, p, k) && Ordered(t) && Ordered(p)
  {
    hide StatisticsOf, Ticks, PctlOf, Converted, Ordered, Sorted;
    var npasses := PassCount(perPass, PCTL_FLOOR, MAX_LAT);
    if perPass > 0 {
      FloorReached(perPass, npasses, npasses * perPass);
    }
    nsamp := 0;
    var pass := 0;
    while pass < npasses && nsamp < MAX_LAT
      invariant pass <= npasses && nsamp == pass * perPass <= npasses * perPass
      invariant perPass == 0 ==> nsamp == 0
      invariant nsamp <= MAX_LAT
      invariant forall i :: 0 <= i < nsamp ==> lat[i] == stream(i)
    {
      NextMultiple(pass, npasses, perPass);
      var i := 0;
      while i < perPass
        invariant i <= perPass
        invariant forall x :: 0 <= x < nsamp + i ==> lat[x] == stream(x)
      {
        lat[nsamp + i] := stream(nsamp + i);
        i := i + 1;
      }
      nsamp := nsamp + perPass;
      pass := pass + 1;
    }
    if nsamp == 0 {
      p := Pctl(0.0, 0.0, 0.0, 0.0, 0.0, 0.0);
      t := p;
      return;
    }
    AllPassesMade(pass, npasses, perPass);
    ghost var xs := seq(nsamp, i requires 0 <= i => stream(i));
    assert lat[..nsamp] == xs;
    ghost var passes, moves := Sort(lat, nsamp);
    p := PctlOf(lat[..nsamp], k);
    t := Ticks(lat[..nsamp]);
    ReportMeaning(xs, lat[..nsamp], k);
  }

  lemma AllPassesMade(pass: nat, npasses: nat, perPass: nat)
    requires pass <= npasses && npasses * perPass <= MAX_LAT && perPass > 0
    requires pass == npasses || pass * perPass >= MAX_LAT
    ensures pass == npasses
  {
    if pass < npasses {
      NextMultiple(pass, npasses, perPass);
    }
  }

  // ----- merging per-worker samples -----

  /** Samples of worker i: its slice of the shared buffer, up to its own count. */
  function Slices(lat: seq<real>, nlat: seq<nat>, slice: nat, workers: nat): (xss: seq<seq<real>>)
    requires workers <= |nlat| && |nlat| * slice <= |lat|
    requires forall i :: 0 <= i < |nlat| ==> nlat[i] <= slice
    ensures |xss| == workers
  {
    if workers == 0 then []
    else
      NextMultiple(workers - 1, |nlat|, slice);
      Slices(lat, nlat, slice, workers - 1) +
      [lat[(workers - 1) * slice..(workers - 1) * slice + nlat[workers - 1]]]
  }

  lemma {:induction false} SliceAt(lat: seq<real>, nlat: seq<nat>, slice: nat, workers: nat, i: nat)
    requires i < workers <= |nlat| && |nlat| * slice <= |lat|
    requires forall j :: 0 <= j < |nlat| ==> nlat[j] <= slice
    ensures i * slice + slice <= |lat|
    ensures Slices(lat, nlat, slice, workers)[i] == lat[i * slice..i * slice + nlat[i]]
    decreases workers
  {
    NextMultiple(i, |nlat|, slice);
    if i < workers - 1 {
      SliceAt(lat, nlat, slice, workers - 1, i);
    }
  }

  function Concat(xss: seq<seq<real>>): seq<real> {
    if xss == [] then [] else Concat(xss[..|xss| - 1]) + xss[|xss| - 1]
  }

  function Union(xss: seq<seq<real>>): multiset<real> {
    if xss == [] then multiset{} else Union(xss[..|xss| - 1]) + multiset(xss[|xss| - 1])
  }

  /** The merged sample holds every value exactly as often as the workers do together. */
  lemma {:induction false} ConcatIsUnion(xss: seq<seq<real>>)
    ensures multiset(Concat(xss)) == Union(xss)
  {
    if xss != [] {
      ConcatIsUnion(xss[..|xss| - 1]);
    }
  }

  lemma SlicesSnoc(lat: seq<real>, nlat: seq<nat>, slice: nat, i: nat)
    requires i < |nlat| && |nlat| * slice <= |lat| && forall j :: 0 <= j < |nlat| ==> nlat[j] <= slice
    ensures i * slice + slice <= |nlat| * slice
    ensures Concat(Slices(lat, nlat, slice, i + 1)) ==
            Concat(Slices(lat, nlat, slice, i)) + lat[i * slice..i * slice + nlat[i]]
  {
    NextMultiple(i, |nlat|, slice);
    var xss := Slices(lat, nlat, slice, i + 1);
    assert xss[..i] == Slices(lat, nlat, slice, i);
  }

  method CopySlice(lat: array<real>, from: nat, count: nat, pack: array<real>, at: nat) returns (npack: nat)
    requires lat != pack && from + count <= lat.Length && at + count <= pack.Length
    modifies pack
    ensures npack == at + count && pack[..npack] == old(pack[..at]) + lat[..][from..from + count]
  {
    npack := at;
    for k := 0 to count
      invariant npack == at + k && pack[..npack] == old(pack[..at]) + lat[..][from..from + k]
    {
      pack[npack] := lat[from + k];
      npack := npack + 1;
    }
  }

  /** The merge loop of `run_cfg`. */
  method Pack(lat: array<real>, nlat: seq<nat>, slice: nat, pack: array<real>) returns (npack: nat)
    requires lat != pack && |nlat| * slice <= lat.Length <= pack.Length
    requires forall i :: 0 <= i < |nlat| ==> nlat[i] <= slice
    modifies pack
    ensures npack <= pack.Length && pack[..npack] == Concat(Slices(lat[..], nlat, slice, |nlat|))
  {
    hide Slices, Concat;
    NothingPacked(lat[..], nlat, slice);
    npack := 0;
    for i := 0 to |nlat|
      invariant npack <= i * slice <= |nlat| * slice
      invariant pack[..npack] == Concat(Slices(lat[..], nlat, slice, i))
    {
      SlicesSnoc(lat[..], nlat, slice, i);
      NextMultiple(i, |nlat|, slice);
      npack := CopySlice(lat, i * slice, nlat[i], pack, npack);
    }
  }

  lemma NothingPacked(lat: seq<real>, nlat: seq<nat>, slice: nat)
    requires |nlat| * slice <= |lat| && forall j :: 0 <= j < |nlat| ==> nlat[j] <= slice
    ensures Concat(Slices(lat, nlat, slice, 0)) == []
  {
  }

  /** The report of `run_cfg` is about the union of the workers' samples. */
  method MergedReport(lat: array<real>, nlat: seq<nat>, slice: nat, pack: array<real>, k: real)
    returns (p: Pctl, ghost t: Pctl)
    requires lat != pack && |nlat| * slice <= lat.Length <= pack.Length && 0.0 <= k
    requires forall i :: 0 <= i < |nlat| ==> nlat[i] <= slice
    modifies pack
    ensures var xss := Slices(lat[..], nlat, slice, |nlat|);
            && multiset(Concat(xss)) == Union(xss)
            && if Concat(xss) == [] then p == Pctl(0.0, 0.0, 0.0, 0.0, 0.0, 0.0)
               else StatisticsOf(Concat(xss), t) && Converted(t, p, k) && Ordered(p)
  {
    hide Slices, Concat, Union, StatisticsOf, Ticks, PctlOf, Converted, Ordered, Sorted;
    ghost var xss := Slices(lat[..], nlat, slice, |nlat|);
    ConcatIsUnion(xss);
    var npack := Pack(lat, nlat, slice, pack);
    ghost var passes, moves := Sort(pack, npack);
    p := PctlOf(pack[..npack], k);
    t := if npack > 0 then Ticks(pack[..npack]) else p;
    ReportMeaning(Concat(xss), pack[..npack], k);
  }

  // ----- median -----

  /** `median_f64`: insertion sort, which is the gap-1 pass, then the middle entry. */
  method Median(xs: array<real>, n: nat) returns (m: real)
    requires 0 < n <= xs.Length
    modifies xs
    ensures IsOrderStatistic(old(xs[..n]), n / 2, m)
    ensures Sorted(xs[..n]) && multiset(xs[..n]) == multiset(old(xs[..n]))
    ensures xs[n..] == old(xs[n..])
  {
    ghost var moves := GapPass(xs, n, 1);
    SortedFromGap1(xs[..n]);
    PickIsStatistic(old(xs[..n]), xs[..n], n / 2);
    m := xs[n / 2];
  }
}
