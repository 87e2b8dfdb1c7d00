/** Throughput recovery from cumulative observations (`analyze_recovery.py`), over
    exact reals. */
module Recovery {
  import opened Options

  const TOLERANCE: real := 0.00000001

  // ----- coalesce: one observation per time -----

  ghost predicate Ascending(ts: seq<real>) {
    forall i :: 0 < i < |ts| ==> ts[i - 1] <= ts[i]
  }

  ghost predicate CountsAscend(cs: seq<int>) {
    forall i :: 0 < i < |cs| ==> cs[i - 1] <= cs[i]
  }

  ghost predicate Increasing(ts: seq<real>) {
    forall i :: 0 < i < |ts| ==> ts[i - 1] < ts[i]
  }

  datatype Samples = Samples(times: seq<real>, counts: seq<int>, duplicates: nat)

  /** Observation i is the last at its time. */
  predicate LastAt(times: seq<real>, i: nat)
    requires i < |times|
  {
    i + 1 == |times| || times[i + 1] != times[i]
  }

  /** Which of the first k observations are last at their time. */
  function Positions(times: seq<real>, k: nat): (ps: seq<nat>)
    requires k <= |times|
    ensures |ps| <= k && forall i :: 0 <= i < |ps| ==> ps[i] < k
  {
    if k == 0 then []
    else if LastAt(times, k - 1) then Positions(times, k - 1) + [k - 1]
    else Positions(times, k - 1)
  }

  function Gather<T>(xs: seq<T>, ps: seq<nat>): (r: seq<T>)
    requires forall i :: 0 <= i < |ps| ==> ps[i] < |xs|
    ensures |r| == |ps| && forall i :: 0 <= i < |ps| ==> r[i] == xs[ps[i]]
  {
    seq(|ps|, i requires 0 <= i < |ps| => xs[ps[i]])
  }

  /** The last observation at each time, and how many others there were. */
  function Kept(times: seq<real>, counts: seq<int>): Samples
    requires |times| == |counts|
  {
    var ps := Positions(times, |times|);
    Samples(Gather(times, ps), Gather(counts, ps), |times| - |ps|)
  }

  /** The positions kept so far: the k-th observation may yet be replaced. */
  function KeptSoFar(times: seq<real>, k: nat): (ps: seq<nat>)
    requires 0 < k <= |times|
    ensures 0 < |ps| <= k && ps[|ps| - 1] == k - 1 && forall i :: 0 <= i < |ps| ==> ps[i] < k
  {
    Positions(times, k - 1) + [k - 1]
  }

  lemma KeptStep<T>(times: seq<real>, xs: seq<T>, k: nat)
    requires 0 < k < |times| == |xs|
    ensures var old_, new_ := Gather(xs, KeptSoFar(times, k)), Gather(xs, KeptSoFar(times, k + 1));
            new_ == if times[k] == times[k - 1] then old_[|old_| - 1 := xs[k]] else old_ + [xs[k]]
  {
    var ps := KeptSoFar(times, k);
    assert KeptSoFar(times, k + 1) == if times[k] == times[k - 1] then ps[|ps| - 1 := k] else ps + [k];
  }

  lemma KeptAtEnd(times: seq<real>)
    requires |times| > 0
    ensures KeptSoFar(times, |times|) == Positions(times, |times|)
  {}

  /** None stands for the ValueError. */
  method Coalesce(times: seq<real>, counts: seq<int>) returns (r: Option<Samples>)
    ensures var n := if |times| < |counts| then |times| else |counts|;
            && (r.Some? <==> Ascending(times[..n]) && CountsAscend(counts[..n]))
            && (r.Some? ==> r.value == Kept(times[..n], counts[..n]))
  {
    var n := if |times| < |counts| then |times| else |counts|;
    r := CoalesceZipped(times[..n], counts[..n]);
  }

  method CoalesceZipped(ts: seq<real>, cs: seq<int>) returns (r: Option<Samples>)
    requires |ts| == |cs|
    ensures r.Some? <==> Ascending(ts) && CountsAscend(cs)
    ensures r.Some? ==> r.value == Kept(ts, cs)
  {
    if |ts| == 0 {
      return Some(Samples([], [], 0));
    }
    var t, c, duplicates := [ts[0]], [cs[0]], 0;
    var k := 1;
    while k < |ts|
      invariant 1 <= k <= |ts| && duplicates == k - |t| && duplicates >= 0
      invariant forall i :: 0 < i < k ==> ts[i - 1] <= ts[i] && cs[i - 1] <= cs[i]
      invariant KeptState(ts, cs, k, t, c)
    {
      var stamp, count := ts[k], cs[k];
      KeptLast(ts, cs, k, t, c);
      if stamp < t[|t| - 1] || count < c[|c| - 1] {
        return None;
      }
      KeptNext(ts, cs, k, t, c);
      if stamp == t[|t| - 1] {
        c := c[|c| - 1 := count];
        duplicates := duplicates + 1;
      } else {
        t, c := t + [stamp], c + [count];
      }
      k := k + 1;
    }
    KeptAtEnd(ts);
    r := Some(Samples(t, c, duplicates));
  }

  ghost predicate KeptState(ts: seq<real>, cs: seq<int>, k: nat, t: seq<real>, c: seq<int>) {
    && 0 < k <= |ts| == |cs|
    && t == Gather(ts, KeptSoFar(ts, k)) && c == Gather(cs, KeptSoFar(ts, k))
  }

  lemma KeptLast(ts: seq<real>, cs: seq<int>, k: nat, t: seq<real>, c: seq<int>)
    requires KeptState(ts, cs, k, t, c)
    ensures |t| == |c| > 0 && t[|t| - 1] == ts[k - 1] && c[|c| - 1] == cs[k - 1]
  {}

  lemma KeptNext(ts: seq<real>, cs: seq<int>, k: nat, t: seq<real>, c: seq<int>)
    requires KeptState(ts, cs, k, t, c) && k < |ts|
    ensures |t| == |c| > 0
    ensures ts[k] == ts[k - 1] ==> KeptState(ts, cs, k + 1, t, c[|c| - 1 := cs[k]])
    ensures ts[k] != ts[k - 1] ==> KeptState(ts, cs, k + 1, t + [ts[k]], c + [cs[k]])
  {
    KeptStep(ts, ts, k);
    KeptStep(ts, cs, k);
    if ts[k] == ts[k - 1] { assert t[|t| - 1 := ts[k]] == t; }
  }

  lemma {:induction false} PositionsAscend(times: seq<real>, k: nat, i: nat, j: nat)
    requires k <= |times| && i < j < |Positions(times, k)|
    ensures Positions(times, k)[i] < Positions(times, k)[j]
  {
    if j < |Positions(times, k - 1)| { PositionsAscend(times, k - 1, i, j); }
  }

  lemma {:induction false} PositionsExact(times: seq<real>, k: nat, p: nat)
    requires k <= |times|
    ensures p in Positions(times, k) <==> p < k && LastAt(times, p)
  {
    if k > 0 { PositionsExact(times, k - 1, p); }
  }

  lemma {:induction false} AscendingApart(times: seq<real>, i: nat, j: nat)
    requires Ascending(times) && i <= j < |times|
    ensures times[i] <= times[j]
  {
    if i < j { AscendingApart(times, i, j - 1); }
  }

  lemma {:induction false} CountsApart(cs: seq<int>, i: nat, j: nat)
    requires CountsAscend(cs) && i <= j < |cs|
    ensures cs[i] <= cs[j]
  {
    if i < j { CountsApart(cs, i, j - 1); }
  }

  /** What is kept of ascending observations is strictly increasing in time and
      ascending in count, as `rolling` demands. */
  lemma KeptIncreases(times: seq<real>, counts: seq<int>)
    requires |times| == |counts| && Ascending(times) && CountsAscend(counts)
    ensures Increasing(Kept(times, counts).times) && CountsAscend(Kept(times, counts).counts)
  {
    var ps := Positions(times, |times|);
    forall i | 0 < i < |ps| ensures times[ps[i - 1]] < times[ps[i]] && counts[ps[i - 1]] <= counts[ps[i]] {
      PositionsAscend(times, |times|, i - 1, i);
      PositionsExact(times, |times|, ps[i - 1]);
      assert ps[i - 1] in ps;
      AscendingApart(times, ps[i - 1] + 1, ps[i]);
      CountsApart(counts, ps[i - 1], ps[i]);
    }
  }

  /** No time is lost. */
  lemma {:induction false} EveryTimeKept(times: seq<real>, counts: seq<int>, i: nat)
    requires |times| == |counts| && i < |times|
    ensures times[i] in Kept(times, counts).times
    decreases |times| - i
  {
    if LastAt(times, i) {
      PositionsExact(times, |times|, i);
      var ps := Positions(times, |times|);
      var k :| 0 <= k < |ps| && ps[k] == i;
      assert Kept(times, counts).times[k] == times[i];
    } else {
      EveryTimeKept(times, counts, i + 1);
    }
  }

  /** Every sample kept is the last observation of its time, with the count of that one. */
  lemma LastCountKept(times: seq<real>, counts: seq<int>, k: nat) returns (i: nat)
    requires |times| == |counts| && Ascending(times) && k < |Kept(times, counts).times|
    ensures i < |times| && Kept(times, counts).times[k] == times[i] && Kept(times, counts).counts[k] == counts[i]
    ensures forall j :: i < j < |times| ==> times[j] != times[i]
  {
    var ps := Positions(times, |times|);
    i := ps[k];
    PositionsExact(times, |times|, i);
    assert i in ps;
    forall j | i < j < |times| ensures times[j] != times[i] {
      AscendingApart(times, i, i + 1);
      AscendingApart(times, i + 1, j);
    }
  }

  /** How many of the first n observations have the time of their predecessor. */
  function Repeats(times: seq<real>, n: nat): nat
    requires n <= |times|
  {
    if n <= 1 then 0 else Repeats(times, n - 1) + if times[n - 1] == times[n - 2] then 1 else 0
  }

  lemma {:induction false} KeptSoFarCounts(times: seq<real>, n: nat)
    requires 0 < n <= |times|
    ensures |KeptSoFar(times, n)| + Repeats(times, n) == n
  {
    if n > 1 {
      KeptSoFarCounts(times, n - 1);
      assert LastAt(times, n - 2) <==> times[n - 1] != times[n - 2];
    }
  }

  /** The duplicates are the observations with the time of their predecessor. */
  lemma DuplicatesCounted(times: seq<real>, counts: seq<int>)
    requires |times| == |counts|
    ensures Kept(times, counts).duplicates == Repeats(times, |times|)
  {
    if times != [] {
      KeptSoFarCounts(times, |times|);
      KeptAtEnd(times);
    }
  }

  // ----- rolling: smoothed rates -----

  predicate Missed(times: seq<real>, maxGap: real, i: nat)
    requires 0 < i < |times|
  {
    times[i] - times[i - 1] > maxGap
  }

  /** bad[i]: steps above the limit among the first i. */
  function Bad(times: seq<real>, maxGap: real, i: nat): nat
    requires i < |times|
  {
    if i == 0 then 0 else Bad(times, maxGap, i - 1) + if Missed(times, maxGap, i) then 1 else 0
  }

  /** Every step from observation j to observation i is within the limit. */
  ghost predicate Observed(times: seq<real>, maxGap: real, j: nat, i: nat)
    requires i < |times|
  {
    forall k :: j < k <= i ==> times[k] - times[k - 1] <= maxGap
  }

  lemma {:induction false} PrefixCountsDecide(times: seq<real>, maxGap: real, j: nat, i: nat)
    requires j <= i < |times|
    ensures Bad(times, maxGap, j) <= Bad(times, maxGap, i)
    ensures Bad(times, maxGap, i) == Bad(times, maxGap, j) <==> Observed(times, maxGap, j, i)
  {
    if j < i {
      PrefixCountsDecide(times, maxGap, j, i - 1);
      assert Observed(times, maxGap, j, i) <==> Observed(times, maxGap, j, i - 1) && !Missed(times, maxGap, i);
    }
  }

  /** How many of the times are at most x. */
  ghost predicate CountsUpTo(times: seq<real>, x: real, n: nat) {
    n <= |times| && (forall k :: 0 <= k < n ==> times[k] <= x) && (forall k :: n <= k < |times| ==> x < times[k])
  }

  /** `bisect_right` */
  method BisectRight(times: seq<real>, x: real) returns (n: nat)
    requires Ascending(times)
    ensures CountsUpTo(times, x, n)
  {
    var lo, hi := 0, |times|;
    while lo < hi
      invariant 0 <= lo <= hi <= |times|
      invariant forall k :: 0 <= k < lo ==> times[k] <= x
      invariant forall k :: hi <= k < |times| ==> x < times[k]
    {
      var mid := (lo + hi) / 2;
      if x < times[mid] {
        forall k | mid <= k < |times| ensures x < times[k] { AscendingApart(times, mid, k); }
        hi := mid;
      } else {
        forall k | 0 <= k <= mid ensures times[k] <= x { AscendingApart(times, k, mid); }
        lo := mid + 1;
      }
    }
    n := lo;
  }

  /** Observation j opens the window that ends at observation i: it is the last at least
      the width (less the tolerance) before it. */
  ghost predicate Opens(times: seq<real>, width: real, j: nat, i: nat) {
    && j < i < |times|
    && times[j] <= times[i] - width + TOLERANCE
    && forall k :: j < k < |times| ==> times[i] - width + TOLERANCE < times[k]
  }

  ghost predicate Window(times: seq<real>, width: real, maxGap: real, j: nat, i: nat) {
    Opens(times, width, j, i) && Observed(times, maxGap, j, i)
  }

  /** The rate at i is the mean over its window; no window, no rate. */
  ghost predicate RateAt(times: seq<real>, counts: seq<int>, width: real, maxGap: real, i: nat, r: Option<real>)
    requires |times| <= |counts|
  {
    if exists j: nat :: Window(times, width, maxGap, j, i)
    then r.Some? && exists j: nat :: Window(times, width, maxGap, j, i) && times[j] < times[i]
                                     && r.value == (counts[i] - counts[j]) as real / (times[i] - times[j])
    else r.None?
  }

  lemma OpensUnique(times: seq<real>, width: real, i: nat, j: nat, k: nat)
    requires Opens(times, width, j, i) && Opens(times, width, k, i)
    ensures j == k
  {}

  /** There is only one rate that RateAt admits. */
  lemma RateUnique(
    times: seq<real>, counts: seq<int>, width: real, maxGap: real, i: nat, r: Option<real>, q: Option<real>)
    requires |times| <= |counts|
    requires RateAt(times, counts, width, maxGap, i, r) && RateAt(times, counts, width, maxGap, i, q)
    ensures r == q
  {
    if r.Some? {
      var j: nat :| Window(times, width, maxGap, j, i) && times[j] < times[i]
                    && r.value == (counts[i] - counts[j]) as real / (times[i] - times[j]);
      var k: nat :| Window(times, width, maxGap, k, i) && times[k] < times[i]
                    && q.value == (counts[i] - counts[k]) as real / (times[i] - times[k]);
      OpensUnique(times, width, i, j, k);
    }
  }

  ghost predicate Steady(times: seq<real>, counts: seq<int>)
    requires |times| <= |counts|
  {
    forall i :: 0 < i < |times| ==> times[i - 1] < times[i] && counts[i - 1] <= counts[i]
  }

  method Prefix(times: seq<real>, counts: seq<int>, maxGap: real) returns (bad: Option<seq<nat>>)
    requires |times| <= |counts|
    ensures bad.Some? <==> Steady(times, counts)
    ensures bad.Some? ==> |times| <= |bad.value|
    ensures bad.Some? ==> forall i :: 0 <= i < |times| ==> bad.value[i] == Bad(times, maxGap, i)
  {
    if |times| == 0 {
      return Some([0]);
    }
    var b := [0];
    while |b| < |times|
      invariant 1 <= |b| <= |times| && SteadyUpTo(times, counts, |b|) && PrefixOf(times, maxGap, b)
      decreases |times| - |b|
    {
      var i := |b|;
      if times[i] <= times[i - 1] || counts[i] < counts[i - 1] {
        return None;
      }
      PrefixGrows(times, maxGap, b);
      b := b + [b[i - 1] + if times[i] - times[i - 1] > maxGap then 1 else 0];
    }
    bad := Some(b);
  }

  ghost predicate SteadyUpTo(times: seq<real>, counts: seq<int>, n: nat) {
    n <= |times| <= |counts| && forall k :: 0 < k < n ==> times[k - 1] < times[k] && counts[k - 1] <= counts[k]
  }

  ghost predicate PrefixOf(times: seq<real>, maxGap: real, b: seq<nat>) {
    |b| <= |times| && forall k :: 0 <= k < |b| ==> b[k] == Bad(times, maxGap, k)
  }

  lemma PrefixGrows(times: seq<real>, maxGap: real, b: seq<nat>)
    requires PrefixOf(times, maxGap, b) && 0 < |b| < |times|
    ensures var i := |b|;
      PrefixOf(times, maxGap, b + [b[i - 1] + if times[i] - times[i - 1] > maxGap then 1 else 0])
  {}

  /** None stands for the ValueError. */
  method Rolling(times: seq<real>, counts: seq<int>, width: real, maxGap: real) returns (out: Option<seq<Option<real>>>)
    requires |times| <= |counts|
    ensures out.Some? <==> Steady(times, counts)
    ensures out.Some? ==> |out.value| == |times|
    ensures out.Some? ==> forall i :: 0 <= i < |times| ==> RateAt(times, counts, width, maxGap, i, out.value[i])
  {
    var bad := Prefix(times, counts, maxGap);
    if bad.None? {
      return None;
    }
    var rates := [];
    var i := 0;
    while i < |times|
      invariant 0 <= i <= |times| && |rates| == i
      invariant forall k :: 0 <= k < i ==> RateAt(times, counts, width, maxGap, k, rates[k])
    {
      var r := RateOf(times, counts, width, maxGap, bad.value, i);
      rates := rates + [r];
      i := i + 1;
    }
    out := Some(rates);
  }

  lemma {:induction false} IncreasingApart(times: seq<real>, i: nat, j: nat)
    requires Increasing(times) && i < j < |times|
    ensures times[i] < times[j]
  {
    if i < j - 1 { IncreasingApart(times, i, j - 1); }
  }

  method RateOf(times: seq<real>, counts: seq<int>, width: real, maxGap: real, bad: seq<nat>, i: nat)
    returns (r: Option<real>)
    requires |times| <= |counts| && Increasing(times) && i < |times| <= |bad|
    requires forall k :: 0 <= k < |times| ==> bad[k] == Bad(times, maxGap, k)
    ensures RateAt(times, counts, width, maxGap, i, r)
  {
    var n := BisectRight(times, times[i] - width + TOLERANCE);
    var m: int := n;
    var j := m - 1;
    if j >= 0 && i > j {
      PrefixCountsDecide(times, maxGap, j, i);
      IncreasingApart(times, j, i);
    }
    if j >= 0 && i > j && bad[i] == bad[j] {
      assert Window(times, width, maxGap, j, i);
      r := Some((counts[i] - counts[j]) as real / (times[i] - times[j]));
    } else {
      NoWindow(times, width, maxGap, i, n);
      r := None;
    }
  }

  lemma OpensBefore(times: seq<real>, width: real, i: nat, n: nat, j: nat)
    requires Opens(times, width, j, i) && CountsUpTo(times, times[i] - width + TOLERANCE, n)
    ensures j == n - 1
  {
    assert j < n;
    assert times[n - 1] <= times[i] - width + TOLERANCE;
  }

  lemma NoWindow(times: seq<real>, width: real, maxGap: real, i: nat, n: nat)
    requires i < |times| && CountsUpTo(times, times[i] - width + TOLERANCE, n)
    requires n == 0 || i < n || !Observed(times, maxGap, n - 1, i)
    ensures !exists j: nat :: Window(times, width, maxGap, j, i)
  {
    forall j: nat ensures !Window(times, width, maxGap, j, i) {
      if Opens(times, width, j, i) { OpensBefore(times, width, i, n, j); }
    }
  }

  // ----- sustained: the run detector -----

  datatype Point = Point(time: real, rate: Option<real>)

  /** What is asked of a recovery. */
  datatype Goal = Goal(anchor: real, threshold: real, hold: real, maxGap: real)

  datatype Recovered = Recovered(start: real, confirmed: real)

  predicate Fast(p: Point, g: Goal) {
    p.rate.Some? && p.rate.value >= g.threshold
  }

  /** The points at or after the anchor among the first k. */
  function After(ps: seq<Point>, g: Goal, k: nat): (r: seq<Point>)
    requires k <= |ps|
    ensures |r| <= k
  {
    if k == 0 then []
    else if ps[k - 1].time < g.anchor then After(ps, g, k - 1)
    else After(ps, g, k - 1) + [ps[k - 1]]
  }

  /** Points b to e are all fast and close to one another. */
  ghost predicate Run(ps: seq<Point>, g: Goal, b: nat, e: nat) {
    && b <= e < |ps|
    && (forall i :: b <= i <= e ==> Fast(ps[i], g))
    && (forall i :: b < i <= e ==> ps[i].time - ps[i - 1].time <= g.maxGap)
  }

  /** Where the longest run that ends at e begins; e + 1 if there is none. */
  function Begin(ps: seq<Point>, g: Goal, e: nat): (b: nat)
    requires e < |ps|
    ensures b <= e + 1 && (b <= e <==> Fast(ps[e], g))
  {
    if !Fast(ps[e], g) then e + 1
    else if e > 0 && Fast(ps[e - 1], g) && ps[e].time - ps[e - 1].time <= g.maxGap then Begin(ps, g, e - 1)
    else e
  }

  lemma {:induction false} BeginIsEarliest(ps: seq<Point>, g: Goal, e: nat)
    requires e < |ps| && Fast(ps[e], g)
    ensures Run(ps, g, Begin(ps, g, e), e)
    ensures forall b: nat :: Run(ps, g, b, e) ==> Begin(ps, g, e) <= b
  {
    if e > 0 && Fast(ps[e - 1], g) && ps[e].time - ps[e - 1].time <= g.maxGap {
      BeginIsEarliest(ps, g, e - 1);
      forall b: nat | Run(ps, g, b, e) ensures Begin(ps, g, e) <= b {
        assert b < e ==> Run(ps, g, b, e - 1);
      }
    }
  }

  /** Point e ends a run that has lasted. */
  predicate Confirms(ps: seq<Point>, g: Goal, e: nat)
    requires e < |ps|
  {
    Fast(ps[e], g) && ps[e].time - ps[Begin(ps, g, e)].time >= g.hold - TOLERANCE
  }

  function Report(ps: seq<Point>, g: Goal, e: nat): Recovered
    requires e < |ps| && Fast(ps[e], g)
  {
    Recovered(ps[Begin(ps, g, e)].time - g.anchor, ps[e].time - g.anchor)
  }

  /** The first confirmation, if any. */
  ghost predicate Earliest(ps: seq<Point>, g: Goal, r: Option<Recovered>) {
    match r
    case None => forall e :: 0 <= e < |ps| ==> !Confirms(ps, g, e)
    case Some(v) => exists e: nat :: e < |ps| && Confirms(ps, g, e) && v == Report(ps, g, e)
                                     && forall k :: 0 <= k < e ==> !Confirms(ps, g, k)
  }

  /** Adding points after a confirmation changes nothing. */
  lemma {:induction false} BeginPrefix(ps: seq<Point>, g: Goal, more: seq<Point>, e: nat)
    requires e < |ps|
    ensures Begin(ps + more, g, e) == Begin(ps, g, e)
  {
    if e > 0 { BeginPrefix(ps, g, more, e - 1); }
  }

  lemma EarliestPrefix(ps: seq<Point>, g: Goal, more: seq<Point>, r: Option<Recovered>)
    requires r.Some? && Earliest(ps, g, r)
    ensures Earliest(ps + more, g, r)
  {
    var e: nat :| e < |ps| && Confirms(ps, g, e) && r.value == Report(ps, g, e)
                  && forall k :: 0 <= k < e ==> !Confirms(ps, g, k);
    forall k: nat | k <= e ensures Confirms(ps + more, g, k) <==> Confirms(ps, g, k) {
      BeginPrefix(ps, g, more, k);
    }
    BeginPrefix(ps, g, more, e);
    assert Report(ps + more, g, e) == Report(ps, g, e);
  }

  lemma {:induction false} AfterPrefix(ps: seq<Point>, g: Goal, k: nat, n: nat) returns (more: seq<Point>)
    requires k <= n <= |ps|
    ensures After(ps, g, n) == After(ps, g, k) + more
  {
    more := [];
    if k < n {
      more := AfterPrefix(ps, g, k, n - 1);
      if ps[n - 1].time >= g.anchor { more := more + [ps[n - 1]]; }
    }
  }

  /** The detector's memory after the points seen so far. */
  ghost predicate Tracks(seen: seq<Point>, g: Goal, begun: Option<real>, previous: Option<real>) {
    if seen == [] then begun.None? && previous.None?
    else
      var e := |seen| - 1;
      && previous == Some(seen[e].time)
      && begun == if Fast(seen[e], g) then Some(seen[Begin(seen, g, e)].time) else None
  }

  predicate Continues(seen: seq<Point>, g: Goal, p: Point) {
    seen != [] && Fast(seen[|seen| - 1], g) && p.time - seen[|seen| - 1].time <= g.maxGap
  }

  /** One more point: where its run begins. */
  lemma BeginNext(seen: seq<Point>, g: Goal, p: Point)
    requires Fast(p, g)
    ensures Begin(seen + [p], g, |seen|)
         == if Continues(seen, g, p) then Begin(seen, g, |seen| - 1) else |seen|
  {
    if seen != [] { BeginPrefix(seen, g, [p], |seen| - 1); }
  }

  lemma NoneYet(seen: seq<Point>, g: Goal, p: Point)
    requires Earliest(seen, g, None) && !Confirms(seen + [p], g, |seen|)
    ensures Earliest(seen + [p], g, None)
  {
    forall k | 0 <= k < |seen| + 1 ensures !Confirms(seen + [p], g, k) {
      if k < |seen| {
        BeginPrefix(seen, g, [p], k);
        assert !Confirms(seen, g, k);
      }
    }
  }

  lemma FirstHere(seen: seq<Point>, g: Goal, p: Point)
    requires Earliest(seen, g, None) && Confirms(seen + [p], g, |seen|)
    ensures Earliest(seen + [p], g, Some(Report(seen + [p], g, |seen|)))
  {
    forall k | 0 <= k < |seen| ensures !Confirms(seen + [p], g, k) {
      BeginPrefix(seen, g, [p], k);
      assert !Confirms(seen, g, k);
    }
  }

  /** The body of the loop for a point at or after the anchor. */
  method Observe(g: Goal, begun: Option<real>, previous: Option<real>, p: Point, ghost seen: seq<Point>)
    returns (begun': Option<real>, done: bool)
    requires Tracks(seen, g, begun, previous) && Earliest(seen, g, None)
    ensures Tracks(seen + [p], g, begun', Some(p.time))
    ensures done == Confirms(seen + [p], g, |seen|)
    ensures done ==> begun'.Some?
    ensures done ==> Report(seen + [p], g, |seen|) == Recovered(begun'.value - g.anchor, p.time - g.anchor)
  {
    begun' := begun;
    var slow := p.rate.None? || p.rate.value < g.threshold;
    if slow || (previous.Some? && p.time - previous.value > g.maxGap) {
      begun' := None;
    }
    done := false;
    if !slow {
      BeginNext(seen, g, p);
      if begun'.None? {
        begun' := Some(p.time);
      }
      done := p.time - begun'.value >= g.hold - TOLERANCE;
    }
  }

  /** `sustained`: the earliest confirmation among the points at or after the anchor. */
  method Sustained(times: seq<real>, rates: seq<Option<real>>, g: Goal) returns (r: Option<Recovered>)
    ensures var ps := Zip(times, rates); Earliest(After(ps, g, |ps|), g, r)
  {
    var ps := Zip(times, rates);
    var begun: Option<real>, previous: Option<real> := None, None;
    var k := 0;
    while k < |ps|
      invariant 0 <= k <= |ps|
      invariant Tracks(After(ps, g, k), g, begun, previous) && Earliest(After(ps, g, k), g, None)
    {
      if ps[k].time >= g.anchor {
        ghost var seen := After(ps, g, k);
        var done;
        begun, done := Observe(g, begun, previous, ps[k], seen);
        if done {
          r := Some(Recovered(begun.value - g.anchor, ps[k].time - g.anchor));
          FirstHere(seen, g, ps[k]);
          ghost var more := AfterPrefix(ps, g, k + 1, |ps|);
          EarliestPrefix(After(ps, g, k + 1), g, more, r);
          return;
        }
        NoneYet(seen, g, ps[k]);
        previous := Some(ps[k].time);
      }
      k := k + 1;
    }
    r := None;
  }

  function Zip(times: seq<real>, rates: seq<Option<real>>): (ps: seq<Point>)
    ensures |ps| == if |times| < |rates| then |times| else |rates|
    ensures forall i :: 0 <= i < |ps| ==> ps[i] == Point(times[i], rates[i])
  {
    var n := if |times| < |rates| then |times| else |rates|;
    seq(n, i requires 0 <= i < n => Point(times[i], rates[i]))
  }

  // ----- What a confirmation means -----

  ghost predicate Ordered(ps: seq<Point>) {
    forall i, j :: 0 <= i <= j < |ps| ==> ps[i].time <= ps[j].time
  }

  /** Some run that ends at e is long enough. */
  ghost predicate Qualifies(ps: seq<Point>, g: Goal, e: nat) {
    exists b: nat :: Run(ps, g, b, e) && ps[e].time - ps[b].time >= g.hold - TOLERANCE
  }

  /** The detector, which tracks only the longest run, misses none. */
  lemma ConfirmsExactly(ps: seq<Point>, g: Goal, e: nat)
    requires Ordered(ps) && e < |ps|
    ensures Confirms(ps, g, e) <==> Qualifies(ps, g, e)
  {
    if Fast(ps[e], g) {
      BeginIsEarliest(ps, g, e);
      if Qualifies(ps, g, e) {
        var b: nat :| Run(ps, g, b, e) && ps[e].time - ps[b].time >= g.hold - TOLERANCE;
        assert ps[Begin(ps, g, e)].time <= ps[b].time;
      }
    }
  }

  /** Point e is the first to end a qualifying run. */
  ghost predicate FirstQualifying(ps: seq<Point>, g: Goal, e: nat) {
    e < |ps| && Qualifies(ps, g, e) && forall k: nat :: k < e ==> !Qualifies(ps, g, k)
  }

  lemma ConfirmedFirst(ps: seq<Point>, g: Goal, r: Option<Recovered>) returns (e: nat)
    requires Ordered(ps) && Earliest(ps, g, r) && r.Some?
    ensures FirstQualifying(ps, g, e) && Fast(ps[e], g) && r.value == Report(ps, g, e)
  {
    e :| e < |ps| && Confirms(ps, g, e) && r.value == Report(ps, g, e)
         && forall k :: 0 <= k < e ==> !Confirms(ps, g, k);
    ConfirmsExactly(ps, g, e);
    forall k: nat | k < e ensures !Qualifies(ps, g, k) { ConfirmsExactly(ps, g, k); }
  }

  /** A recovery is reported if and only if some qualifying run exists, and then it is
      confirmed at the first point that ends one. */
  lemma ReportedExactly(ps: seq<Point>, g: Goal, r: Option<Recovered>)
    requires Ordered(ps) && Earliest(ps, g, r)
    ensures r.Some? <==> exists e: nat :: e < |ps| && Qualifies(ps, g, e)
    ensures r.Some? ==> exists e: nat :: FirstQualifying(ps, g, e) && r.value.confirmed == ps[e].time - g.anchor
  {
    if r.Some? {
      var e := ConfirmedFirst(ps, g, r);
      assert FirstQualifying(ps, g, e) && r.value.confirmed == ps[e].time - g.anchor;
    } else {
      forall e: nat | e < |ps| ensures !Qualifies(ps, g, e) { ConfirmsExactly(ps, g, e); }
    }
  }

  lemma AlsoBefore(ps: seq<Point>, g: Goal, i: nat, j: nat)
    requires Ordered(ps) && i <= j < |ps| && ps[j].time < g.anchor
    ensures ps[i].time < g.anchor
  {}

  /** The points at or after the anchor are a suffix of ordered points. */
  lemma {:induction false} AfterIsSuffix(ps: seq<Point>, g: Goal, k: nat) returns (m: nat)
    requires Ordered(ps) && k <= |ps|
    ensures m <= k && After(ps, g, k) == ps[m..k]
    ensures forall i :: m <= i < k ==> ps[i].time >= g.anchor
  {
    if k == 0 {
      m := 0;
    } else if ps[k - 1].time < g.anchor {
      m := AfterIsSuffix(ps, g, k - 1);
      AlsoBefore(ps, g, m, k - 1);
      assert ps[m..k - 1] == [];
      m := k;
    } else {
      m := AfterIsSuffix(ps, g, k - 1);
      assert ps[m..k] == ps[m..k - 1] + [ps[k - 1]];
    }
  }

  /** From the opening j of the smoothing window of the first fast point b to the
      confirming point e, no sample is missing. */
  ghost predicate Sound(times: seq<real>, width: real, g: Goal, r: Recovered, j: nat, b: nat, e: nat) {
    && j < b <= e < |times| && Opens(times, width, j, b) && Observed(times, g.maxGap, j, e)
    && g.anchor <= times[b] && r == Recovered(times[b] - g.anchor, times[e] - g.anchor)
  }

  lemma {:induction false} IncreasingOrdered(times: seq<real>, rates: seq<Option<real>>)
    requires Increasing(times)
    ensures Ordered(Zip(times, rates))
  {
    var ps := Zip(times, rates);
    forall i, j | 0 <= i <= j < |ps| ensures ps[i].time <= ps[j].time {
      if i < j { IncreasingApart(times, i, j); }
    }
  }

  lemma ObservedJoins(times: seq<real>, maxGap: real, j: nat, b: nat, e: nat)
    requires j <= b <= e < |times| && Observed(times, maxGap, j, b) && Observed(times, maxGap, b, e)
    ensures Observed(times, maxGap, j, e)
  {}

  /** A run among the late points is a run of samples. */
  lemma RunObserved(
    times: seq<real>, rates: seq<Option<real>>, g: Goal, m: nat, late: seq<Point>, b: nat, e: nat)
    requires From(times, rates, m, late) && Run(late, g, b, e)
    ensures m + e < |times| && Observed(times, g.maxGap, m + b, m + e) && rates[m + b].Some?
    ensures late[b].time == times[m + b] && late[e].time == times[m + e]
  {
    assert Fast(late[b], g);
    forall k | m + b < k <= m + e ensures times[k] - times[k - 1] <= g.maxGap {
      assert late[k - m].time - late[k - m - 1].time <= g.maxGap;
    }
  }

  lemma LongestRun(ps: seq<Point>, g: Goal, r: Option<Recovered>) returns (b: nat, e: nat)
    requires Ordered(ps) && Earliest(ps, g, r) && r.Some?
    ensures Run(ps, g, b, e) && r.value == Recovered(ps[b].time - g.anchor, ps[e].time - g.anchor)
  {
    e := ConfirmedFirst(ps, g, r);
    b := Begin(ps, g, e);
    BeginIsEarliest(ps, g, e);
  }

  /** The points from number m on, of a list of samples. */
  ghost predicate From(times: seq<real>, rates: seq<Option<real>>, m: nat, late: seq<Point>) {
    && m <= |times| == |rates| && |late| == |times| - m
    && forall i :: 0 <= i < |late| ==> late[i] == Point(times[m + i], rates[m + i])
  }

  lemma LatePoints(times: seq<real>, rates: seq<Option<real>>, g: Goal) returns (m: nat, late: seq<Point>)
    requires |rates| == |times| && Increasing(times)
    ensures After(Zip(times, rates), g, |times|) == late && From(times, rates, m, late) && Ordered(late)
    ensures forall i :: m <= i < |times| ==> times[i] >= g.anchor
  {
    var ps := Zip(times, rates);
    IncreasingOrdered(times, rates);
    m := AfterIsSuffix(ps, g, |ps|);
    late := ps[m..];
    assert ps[m..] == ps[m..|ps|];
  }

  /** The reported run, in the samples' own numbering. */
  lemma ReportedRun(times: seq<real>, rates: seq<Option<real>>, g: Goal, r: Option<Recovered>) returns (b: nat, e: nat)
    requires |rates| == |times| && Increasing(times) && r.Some?
    requires Earliest(After(Zip(times, rates), g, |times|), g, r)
    ensures b <= e < |times| && g.anchor <= times[b] && Observed(times, g.maxGap, b, e)
    ensures rates[b].Some? && r.value == Recovered(times[b] - g.anchor, times[e] - g.anchor)
  {
    var m, late := LatePoints(times, rates, g);
    var c, k := LongestRun(late, g, r);
    RunObserved(times, rates, g, m, late, c, k);
    b, e := m + c, m + k;
  }

  /** Both analyses together: when a recovery is reported from rolling rates with the
      same gap limit, everything from the first smoothing window to the confirmation
      was observed. */
  lemma RecoveryIsObserved(
    times: seq<real>, counts: seq<int>, rates: seq<Option<real>>, width: real, g: Goal, r: Option<Recovered>)
    requires |times| <= |counts| && |rates| == |times| && Increasing(times)
    requires forall i :: 0 <= i < |times| ==> RateAt(times, counts, width, g.maxGap, i, rates[i])
    requires Earliest(After(Zip(times, rates), g, |times|), g, r) && r.Some?
    ensures exists j: nat, b: nat, e: nat :: Sound(times, width, g, r.value, j, b, e)
  {
    var b, e := ReportedRun(times, rates, g, r);
    var j := WindowOf(times, counts, width, g.maxGap, b, rates[b]);
    ObservedJoins(times, g.maxGap, j, b, e);
    assert Sound(times, width, g, r.value, j, b, e);
  }

  lemma WindowOf(times: seq<real>, counts: seq<int>, width: real, maxGap: real, i: nat, r: Option<real>)
    returns (j: nat)
    requires |times| <= |counts| && RateAt(times, counts, width, maxGap, i, r) && r.Some?
    ensures Window(times, width, maxGap, j, i)
  {
    j :| Window(times, width, maxGap, j, i);
  }
}
