/**
  Wall-clock intervals and the length of their union.

  `UnionMeasure` is the reference notion: inclusion-exclusion on lengths, blind to any order of
  events. `Busy` adds up the covered gaps of a sorted list of instants. `Share` splits each gap
  evenly among the intervals that span it. The lemmas connect the three.
 */
module Timeline {
  import opened Arithmetic

  datatype Interval = Interval(start: real, end: real)

  function Max(a: real, b: real): real { if a < b then b else a }

  function Min(a: real, b: real): real { if a < b then a else b }

  // ---------- the measure of a union of intervals ----------

  function Length(x: Interval): real { Max(0.0, x.end - x.start) }

  function Intersect(x: Interval, y: Interval): Interval {
    Interval(Max(x.start, y.start), Min(x.end, y.end))
  }

  function Clip(xs: seq<Interval>, y: Interval): (r: seq<Interval>)
    ensures |r| == |xs|
    ensures forall i :: 0 <= i < |xs| ==> r[i] == Intersect(xs[i], y)
  {
    seq(|xs|, i requires 0 <= i < |xs| => Intersect(xs[i], y))
  }

  /** |A u B| = |A| + |B| - |A n B|, one interval at a time. */
  function UnionMeasure(xs: seq<Interval>): real
    decreases |xs|
  {
    if xs == [] then 0.0
    else Length(xs[0]) + UnionMeasure(xs[1..]) - UnionMeasure(Clip(xs[1..], xs[0]))
  }

  // ---------- gaps of a sorted list of instants ----------

  predicate Spans(x: Interval, lo: real, hi: real) { x.start <= lo && hi <= x.end }

  /** How many intervals span the whole of [lo, hi]. */
  function Running(xs: seq<Interval>, lo: real, hi: real): nat {
    if xs == [] then 0 else (if Spans(xs[0], lo, hi) then 1 else 0) + Running(xs[1..], lo, hi)
  }

  ghost predicate Sorted(times: seq<real>) {
    forall i, j :: 0 <= i <= j < |times| ==> times[i] <= times[j]
  }

  ghost predicate EndpointsIn(xs: seq<Interval>, times: seq<real>) {
    && (forall i {:trigger xs[i].start in times} :: 0 <= i < |xs| ==> xs[i].start in times)
    && (forall i {:trigger xs[i].end in times} :: 0 <= i < |xs| ==> xs[i].end in times)
  }

  /** Total length of the first k gaps that some interval spans. */
  function Busy(xs: seq<Interval>, times: seq<real>, k: nat): real
    requires k < |times|
  {
    if k == 0 then 0.0
    else Busy(xs, times, k - 1)
         + if Running(xs, times[k - 1], times[k]) > 0 then times[k] - times[k - 1] else 0.0
  }

  /** What one running task gets from the gap [lo, hi]. */
  function Rate(xs: seq<Interval>, lo: real, hi: real): real {
    var n := Running(xs, lo, hi);
    if n > 0 then (hi - lo) / n as real else 0.0
  }

  /** The running total of `Rate` over the first k gaps. */
  function Clock(xs: seq<Interval>, times: seq<real>, k: nat): real
    requires k < |times|
  {
    if k == 0 then 0.0 else Clock(xs, times, k - 1) + Rate(xs, times[k - 1], times[k])
  }

  /** The part of the first k gaps that falls to x: an even split of every gap x spans. */
  function Share(x: Interval, xs: seq<Interval>, times: seq<real>, k: nat): real
    requires k < |times|
  {
    if k == 0 then 0.0
    else Share(x, xs, times, k - 1)
         + if Spans(x, times[k - 1], times[k]) then Rate(xs, times[k - 1], times[k]) else 0.0
  }

  function TotalShare(ys: seq<Interval>, xs: seq<Interval>, times: seq<real>, k: nat): real
    requires k < |times|
  {
    if ys == [] then 0.0 else Share(ys[0], xs, times, k) + TotalShare(ys[1..], xs, times, k)
  }

  // ---------- conservation: the shares add up to the busy time ----------

  lemma {:induction false} TotalShareStep(ys: seq<Interval>, xs: seq<Interval>, times: seq<real>, k: nat)
    requires k + 1 < |times|
    ensures TotalShare(ys, xs, times, k + 1)
         == TotalShare(ys, xs, times, k)
            + Times(Running(ys, times[k], times[k + 1]), Rate(xs, times[k], times[k + 1]))
  {
    if ys != [] { TotalShareStep(ys[1..], xs, times, k); }
  }

  lemma {:induction false} TotalShareZero(ys: seq<Interval>, xs: seq<Interval>, times: seq<real>)
    requires |times| > 0
    ensures TotalShare(ys, xs, times, 0) == 0.0
  {
    if ys != [] { TotalShareZero(ys[1..], xs, times); }
  }

  lemma SplitsEvenly(gap: real, n: nat)
    requires n > 0
    ensures n as real * (gap / n as real) == gap
  {}

  /** The running tasks together get the whole gap. */
  lemma RatesAddUp(xs: seq<Interval>, lo: real, hi: real)
    ensures Times(Running(xs, lo, hi), Rate(xs, lo, hi)) == if Running(xs, lo, hi) > 0 then hi - lo else 0.0
  {
    var n := Running(xs, lo, hi);
    if n > 0 {
      TimesIsProduct(n, Rate(xs, lo, hi));
      SplitsEvenly(hi - lo, n);
    }
  }

  lemma {:induction false} SharesConserveBusyTime(xs: seq<Interval>, times: seq<real>, k: nat)
    requires k < |times|
    ensures TotalShare(xs, xs, times, k) == Busy(xs, times, k)
  {
    if k == 0 {
      TotalShareZero(xs, xs, times);
    } else {
      SharesConserveBusyTime(xs, times, k - 1);
      TotalShareStep(xs, xs, times, k - 1);
      RatesAddUp(xs, times[k - 1], times[k]);
    }
  }

  // ---------- the busy time is the measure of the union ----------

  lemma {:induction false} RunningOfClip(xs: seq<Interval>, y: Interval, lo: real, hi: real)
    ensures Running(Clip(xs, y), lo, hi) == if Spans(y, lo, hi) then Running(xs, lo, hi) else 0
  {
    if xs != [] {
      RunningOfClip(xs[1..], y, lo, hi);
      assert Clip(xs, y)[1..] == Clip(xs[1..], y);
    }
  }

  lemma {:induction false} BusyInclusionExclusion(xs: seq<Interval>, times: seq<real>, k: nat)
    requires xs != [] && k < |times|
    ensures Busy(xs, times, k)
         == Busy([xs[0]], times, k) + Busy(xs[1..], times, k) - Busy(Clip(xs[1..], xs[0]), times, k)
  {
    if k > 0 {
      BusyInclusionExclusion(xs, times, k - 1);
      RunningOfClip(xs[1..], xs[0], times[k - 1], times[k]);
      assert Running([xs[0]], times[k - 1], times[k]) == if Spans(xs[0], times[k - 1], times[k]) then 1 else 0;
    }
  }

  /** One interval: the spanned gaps telescope to the part of it that lies before times[k]. */
  lemma {:induction false} BusySingle(x: Interval, times: seq<real>, k: nat)
    requires k < |times| && Sorted(times) && x.start in times && x.end in times
    ensures Busy([x], times, k) == Max(0.0, Min(times[k], x.end) - x.start)
  {
    var s :| 0 <= s < |times| && times[s] == x.start;
    var e :| 0 <= e < |times| && times[e] == x.end;
    if k > 0 {
      BusySingle(x, times, k - 1);
      assert x.start <= times[k - 1] || times[k] <= x.start;
      assert x.end <= times[k - 1] || times[k] <= x.end;
      assert Running([x], times[k - 1], times[k]) == if Spans(x, times[k - 1], times[k]) then 1 else 0;
    }
  }

  lemma {:induction false} BusyOfNone(times: seq<real>, k: nat)
    requires k < |times|
    ensures Busy([], times, k) == 0.0
  {
    if k > 0 { BusyOfNone(times, k - 1); }
  }

  lemma {:induction false} BusyIsUnionMeasure(xs: seq<Interval>, times: seq<real>)
    requires |times| > 0 && Sorted(times) && EndpointsIn(xs, times)
    ensures Busy(xs, times, |times| - 1) == UnionMeasure(xs)
    decreases |xs|
  {
    var n := |times| - 1;
    if xs == [] {
      BusyOfNone(times, n);
    } else {
      BusyInclusionExclusion(xs, times, n);
      BusySingle(xs[0], times, n);
      BusyIsUnionMeasure(xs[1..], times);
      BusyIsUnionMeasure(Clip(xs[1..], xs[0]), times);
    }
  }

  /** Conservation, whatever the sorted list of instants: the shares add up to the union. */
  lemma SharesAddUpToUnion(xs: seq<Interval>, times: seq<real>)
    requires |times| > 0 && Sorted(times) && EndpointsIn(xs, times)
    ensures TotalShare(xs, xs, times, |times| - 1) == UnionMeasure(xs)
  {
    SharesConserveBusyTime(xs, times, |times| - 1);
    BusyIsUnionMeasure(xs, times);
  }

  // ---------- the work done: the number running, over the gaps ----------

  /** Each of the first k gaps, counted once for every interval that spans it. */
  function Work(xs: seq<Interval>, times: seq<real>, k: nat): real
    requires k < |times|
  {
    if k == 0 then 0.0
    else Work(xs, times, k - 1) + Times(Running(xs, times[k - 1], times[k]), times[k] - times[k - 1])
  }

  lemma {:induction false} WorkOneByOne(xs: seq<Interval>, times: seq<real>, k: nat)
    requires xs != [] && k < |times|
    ensures Work(xs, times, k) == Busy([xs[0]], times, k) + Work(xs[1..], times, k)
  {
    if k > 0 {
      WorkOneByOne(xs, times, k - 1);
      assert Running([xs[0]], times[k - 1], times[k]) == if Spans(xs[0], times[k - 1], times[k]) then 1 else 0;
    }
  }

  lemma {:induction false} WorkOfNone(times: seq<real>, k: nat)
    requires k < |times|
    ensures Work([], times, k) == 0.0
  {
    if k > 0 { WorkOfNone(times, k - 1); }
  }

  function TotalLength(xs: seq<Interval>): real {
    if xs == [] then 0.0 else Length(xs[0]) + TotalLength(xs[1..])
  }

  /** The work is the sum of the lengths, whatever the sorted list of instants. */
  lemma {:induction false} WorkIsTotalLength(xs: seq<Interval>, times: seq<real>)
    requires |times| > 0 && Sorted(times) && EndpointsIn(xs, times)
    ensures Work(xs, times, |times| - 1) == TotalLength(xs)
  {
    var n := |times| - 1;
    if xs == [] {
      WorkOfNone(times, n);
    } else {
      WorkOneByOne(xs, times, n);
      BusySingle(xs[0], times, n);
      WorkIsTotalLength(xs[1..], times);
    }
  }

  /** In no gap of positive length two intervals run at once. */
  ghost predicate OneAtATime(xs: seq<Interval>, times: seq<real>, k: nat)
    requires k < |times|
  {
    forall j :: 0 < j <= k && times[j - 1] < times[j] ==> Running(xs, times[j - 1], times[j]) <= 1
  }

  lemma {:induction false} TimesAtLeastOnce(n: nat, x: real)
    requires n > 0 && x >= 0.0
    ensures Times(n, x) >= x && (Times(n, x) == x <==> n == 1 || x == 0.0)
  {
    if n > 1 { TimesAtLeastOnce(n - 1, x); }
  }

  /** Covered time is at most the work done, and equal iff nothing runs in parallel. */
  lemma {:induction false} BusyAtMostWork(xs: seq<Interval>, times: seq<real>, k: nat)
    requires k < |times| && Sorted(times)
    ensures Busy(xs, times, k) <= Work(xs, times, k)
    ensures Busy(xs, times, k) == Work(xs, times, k) <==> OneAtATime(xs, times, k)
  {
    if k > 0 {
      BusyAtMostWork(xs, times, k - 1);
      var n := Running(xs, times[k - 1], times[k]);
      if n > 0 { TimesAtLeastOnce(n, times[k] - times[k - 1]); }
    }
  }

  // ---------- bounds ----------

  lemma RateBounds(xs: seq<Interval>, lo: real, hi: real)
    requires lo <= hi
    ensures 0.0 <= Rate(xs, lo, hi) <= hi - lo
  {
    var n, gap := Running(xs, lo, hi), hi - lo;
    if n > 0 {
      var q := gap / n as real;
      assert q * n as real == gap && 0.0 <= q;
      assert q * (n - 1) as real >= 0.0;
    }
  }

  lemma {:induction false} ShareAtMostBusyAlone(x: Interval, xs: seq<Interval>, times: seq<real>, k: nat)
    requires k < |times| && Sorted(times)
    ensures 0.0 <= Share(x, xs, times, k) <= Busy([x], times, k)
  {
    if k > 0 {
      ShareAtMostBusyAlone(x, xs, times, k - 1);
      RateBounds(xs, times[k - 1], times[k]);
      assert Running([x], times[k - 1], times[k]) == if Spans(x, times[k - 1], times[k]) then 1 else 0;
    }
  }

  /** A task is never charged more than its own elapsed time, nor less than nothing. */
  lemma ShareBounds(x: Interval, xs: seq<Interval>, times: seq<real>)
    requires |times| > 0 && Sorted(times) && x.start in times && x.end in times
    ensures 0.0 <= Share(x, xs, times, |times| - 1) <= Length(x)
  {
    ShareAtMostBusyAlone(x, xs, times, |times| - 1);
    BusySingle(x, times, |times| - 1);
  }

  // ---------- an even split only depends on the gaps inside the interval ----------

  lemma {:induction false} ShareBeforeStart(x: Interval, xs: seq<Interval>, times: seq<real>, k: nat)
    requires k < |times| && Sorted(times) && times[k] <= x.start
    ensures Share(x, xs, times, k) == 0.0
  {
    if k > 0 {
      ShareBeforeStart(x, xs, times, k - 1);
      RateBounds(xs, times[k - 1], times[k]);
    }
  }

  lemma {:induction false} ShareAfterEnd(x: Interval, xs: seq<Interval>, times: seq<real>, k: nat, n: nat)
    requires k <= n < |times| && Sorted(times) && x.end <= times[k]
    ensures Share(x, xs, times, n) == Share(x, xs, times, k)
  {
    if k < n {
      ShareAfterEnd(x, xs, times, k, n - 1);
      RateBounds(xs, times[n - 1], times[n]);
    }
  }

  // ---------- idle time ----------

  ghost predicate Covered(xs: seq<Interval>, p: real) {
    exists i :: 0 <= i < |xs| && xs[i].start <= p <= xs[i].end
  }

  lemma {:induction false} RunningPositive(xs: seq<Interval>, lo: real, hi: real)
    ensures Running(xs, lo, hi) > 0 <==> exists i :: 0 <= i < |xs| && Spans(xs[i], lo, hi)
  {
    if xs != [] {
      RunningPositive(xs[1..], lo, hi);
      if Running(xs[1..], lo, hi) > 0 {
        var i :| 0 <= i < |xs[1..]| && Spans(xs[1..][i], lo, hi);
        assert Spans(xs[i + 1], lo, hi);
      }
      if i :| 0 < i < |xs| && Spans(xs[i], lo, hi) {
        assert Spans(xs[1..][i - 1], lo, hi);
      }
    }
  }

  /** No gap of positive length is left without a running interval. */
  ghost predicate NoIdleGap(xs: seq<Interval>, times: seq<real>, k: nat)
    requires k < |times|
  {
    forall j :: 0 <= j < k && times[j] < times[j + 1] ==> Running(xs, times[j], times[j + 1]) > 0
  }

  lemma {:induction false} BusyAtMostElapsed(xs: seq<Interval>, times: seq<real>, k: nat)
    requires k < |times| && Sorted(times)
    ensures 0.0 <= Busy(xs, times, k) <= times[k] - times[0]
    ensures Busy(xs, times, k) == times[k] - times[0] <==> NoIdleGap(xs, times, k)
  {
    if k > 0 {
      BusyAtMostElapsed(xs, times, k - 1);
      assert times[k - 1] <= times[k];
      if NoIdleGap(xs, times, k) {
        assert NoIdleGap(xs, times, k - 1);
      }
      if NoIdleGap(xs, times, k - 1) && (times[k - 1] < times[k] ==> Running(xs, times[k - 1], times[k]) > 0) {
        forall j | 0 <= j < k && times[j] < times[j + 1]
          ensures Running(xs, times[j], times[j + 1]) > 0
        {
          if j == k - 1 {
            assert times[j + 1] == times[k];
          }
        }
      }
    }
  }

  /** The gap (or instant) of a sorted list that holds a point. */
  lemma {:induction false} GapOf(times: seq<real>, p: real, k: nat) returns (j: nat)
    requires k < |times| && Sorted(times) && times[0] <= p <= times[k]
    ensures (j <= k && times[j] == p) || (j < k && times[j] < p < times[j + 1])
  {
    if p == times[k] {
      j := k;
    } else if times[k - 1] < p {
      j := k - 1;
    } else {
      j := GapOf(times, p, k - 1);
    }
  }

  lemma CoveredIfNoIdleGap(xs: seq<Interval>, times: seq<real>, p: real)
    requires |times| > 0 && Sorted(times) && NoIdleGap(xs, times, |times| - 1)
    requires forall t :: t in times ==> Covered(xs, t)
    requires times[0] <= p <= times[|times| - 1]
    ensures Covered(xs, p)
  {
    var j := GapOf(times, p, |times| - 1);
    if times[j] == p {
      assert times[j] in times;
    } else {
      RunningPositive(xs, times[j], times[j + 1]);
      var i :| 0 <= i < |xs| && Spans(xs[i], times[j], times[j + 1]);
    }
  }

  /** An interval whose endpoints are instants spans a gap as soon as it meets the gap's inside. */
  lemma SpansIfMeetsInside(x: Interval, times: seq<real>, j: nat, p: real)
    requires j + 1 < |times| && Sorted(times) && x.start in times && x.end in times
    requires x.start <= p <= x.end && times[j] < p < times[j + 1]
    ensures Spans(x, times[j], times[j + 1])
  {
    var s :| 0 <= s < |times| && times[s] == x.start;
    var e :| 0 <= e < |times| && times[e] == x.end;
  }

  lemma RunningIfCovered(xs: seq<Interval>, times: seq<real>, j: nat)
    requires j + 1 < |times| && Sorted(times) && EndpointsIn(xs, times) && times[j] < times[j + 1]
    requires Covered(xs, (times[j] + times[j + 1]) / 2.0)
    ensures Running(xs, times[j], times[j + 1]) > 0
  {
    var mid := (times[j] + times[j + 1]) / 2.0;
    var i :| 0 <= i < |xs| && xs[i].start <= mid <= xs[i].end;
    SpansIfMeetsInside(xs[i], times, j, mid);
    RunningPositive(xs, times[j], times[j + 1]);
  }

  ghost predicate CoveredBetween(xs: seq<Interval>, lo: real, hi: real) {
    forall p :: lo <= p <= hi ==> Covered(xs, p)
  }

  lemma NoIdleGapIfCovered(xs: seq<Interval>, times: seq<real>, k: nat)
    requires k < |times| && Sorted(times) && EndpointsIn(xs, times)
    requires CoveredBetween(xs, times[0], times[k])
    ensures NoIdleGap(xs, times, k)
  {
    forall j | 0 <= j < k && times[j] < times[j + 1]
      ensures Running(xs, times[j], times[j + 1]) > 0
    {
      var mid := (times[j] + times[j + 1]) / 2.0;
      assert times[0] <= times[j] <= mid <= times[j + 1] <= times[k];
      RunningIfCovered(xs, times, j);
    }
  }

  /** No gap is idle exactly when every point between the first and the last instant is covered. */
  lemma NoIdleGapMeansCovered(xs: seq<Interval>, times: seq<real>)
    requires |times| > 0 && Sorted(times) && EndpointsIn(xs, times)
    requires forall t :: t in times ==> Covered(xs, t)
    ensures NoIdleGap(xs, times, |times| - 1) <==> CoveredBetween(xs, times[0], times[|times| - 1])
  {
    var n := |times| - 1;
    if CoveredBetween(xs, times[0], times[n]) {
      NoIdleGapIfCovered(xs, times, n);
    } else {
      var p :| times[0] <= p <= times[n] && !Covered(xs, p);
      if NoIdleGap(xs, times, n) {
        CoveredIfNoIdleGap(xs, times, p);
      }
    }
  }
}
