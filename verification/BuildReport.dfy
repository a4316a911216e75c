/**
  Build-time report of tools/report_build_time_ninja.py: the event sweep of SummarizeEntries.
 */
module BuildReport {
  import opened Timeline
  import opened BuildEvents

  /** One build step. */
  class Target {
    const start: real
    const end: real
    var targets: seq<string>
    var weightedDuration: real

    constructor (start: real, end: real)
      ensures this.start == start && this.end == end
      ensures targets == [] && weightedDuration == 0.0
    {
      this.start, this.end := start, end;
      targets, weightedDuration := [], 0.0;
    }

    function Duration(): real { end - start }
  }

  /** IndexError: the first event of an empty list. KeyError: a stop event of a step not running. */
  datatype Outcome =
    | IndexError
    | KeyError
    | Summary(length: real, totalCpuTime: real, weightedTotal: real)

  ghost predicate Distinct(entries: seq<Target>) {
    forall i, j :: 0 <= i < j < |entries| ==> entries[i] != entries[j]
  }

  function Intervals(entries: seq<Target>): (xs: seq<Interval>)
    ensures |xs| == |entries|
    ensures forall i :: 0 <= i < |entries| ==> xs[i] == Interval(entries[i].start, entries[i].end)
  {
    seq(|entries|, i requires 0 <= i < |entries| => Interval(entries[i].start, entries[i].end))
  }

  function TotalDuration(xs: seq<Interval>): real {
    if xs == [] then 0.0
    else TotalDuration(xs[..|xs| - 1]) + (xs[|xs| - 1].end - xs[|xs| - 1].start)
  }

  /** The CPU time is that of each step, added up. */
  lemma {:induction false} TotalDurationAdds(xs: seq<Interval>, ys: seq<Interval>, x: Interval)
    ensures TotalDuration([]) == 0.0 && TotalDuration([x]) == x.end - x.start
    ensures TotalDuration(xs + ys) == TotalDuration(xs) + TotalDuration(ys)
  {
    assert [x][..0] == [];
    if ys == [] {
      assert xs + ys == xs;
    } else {
      var n := |ys| - 1;
      assert (xs + ys)[..|xs + ys| - 1] == xs + ys[..n];
      TotalDurationAdds(xs, ys[..n], x);
    }
  }

  ghost predicate WellTimed(xs: seq<Interval>) {
    forall i :: 0 <= i < |xs| ==> xs[i].start <= xs[i].end
  }

  lemma {:induction false} TotalDurationIsLength(xs: seq<Interval>)
    requires WellTimed(xs)
    ensures TotalDuration(xs) == TotalLength(xs)
  {
    if xs != [] {
      assert xs == [xs[0]] + xs[1..];
      TotalDurationAdds([xs[0]], xs[1..], xs[0]);
      TotalDurationIsLength(xs[1..]);
    }
  }

  /**
    CPU time is the number of running steps, summed up over the gaps between instants; the weighted
    total is at most that, and equal iff no two steps ever run at once.
   */
  lemma CpuTimeIsWork(xs: seq<Interval>, times: seq<real>)
    requires |times| > 0 && Sorted(times) && EndpointsIn(xs, times) && WellTimed(xs)
    ensures TotalDuration(xs) == Work(xs, times, |times| - 1)
    ensures UnionMeasure(xs) <= TotalDuration(xs)
    ensures UnionMeasure(xs) == TotalDuration(xs) <==> OneAtATime(xs, times, |times| - 1)
  {
    TotalDurationIsLength(xs);
    WorkIsTotalLength(xs, times);
    BusyIsUnionMeasure(xs, times);
    BusyAtMostWork(xs, times, |times| - 1);
  }

  function ShareIn(xs: seq<Interval>, es: seq<Event>, i: nat): real
    requires i < |xs| && es != []
  {
    Share(xs[i], xs, EventTimes(es), |es| - 1)
  }

  /** The fair share of step i: an even split of every gap in its life among the steps running. */
  function FairShare(xs: seq<Interval>, i: nat): real
    requires i < |xs|
  {
    ShareIn(xs, EventsOf(xs), i)
  }

  // ---------- which steps run after the first k events ----------

  ghost predicate Active(xs: seq<Interval>, es: seq<Event>, k: nat, i: nat)
    requires k <= |es| && i < |xs|
  {
    StartOf(xs, i) in es[..k] && StopOf(xs, i) !in es[..k]
  }

  /** The keys are the entries that span [lo, hi]. */
  ghost predicate SpanningKeys(entries: seq<Target>, keys: set<Target>, lo: real, hi: real) {
    && (forall t :: t in keys ==> t in entries)
    && forall i :: 0 <= i < |entries| ==> (entries[i] in keys <==> Spans(Intervals(entries)[i], lo, hi))
  }

  lemma SpanningRest(entries: seq<Target>, keys: set<Target>, lo: real, hi: real)
    requires entries != [] && Distinct(entries) && SpanningKeys(entries, keys, lo, hi)
    ensures SpanningKeys(entries[1..], keys - {entries[0]}, lo, hi)
    ensures Intervals(entries)[1..] == Intervals(entries[1..])
  {
    var rest, tail := keys - {entries[0]}, entries[1..];
    forall i | 0 <= i < |tail| ensures tail[i] in rest <==> Spans(Intervals(tail)[i], lo, hi) {
      assert tail[i] == entries[i + 1] != entries[0];
    }
  }

  lemma OneKeyLess<T>(keys: set<T>, t: T)
    ensures |keys| == |keys - {t}| + if t in keys then 1 else 0
  {
    if t in keys { assert keys == (keys - {t}) + {t}; } else { assert keys == keys - {t}; }
  }

  lemma {:induction false} CountSpanning(entries: seq<Target>, keys: set<Target>, lo: real, hi: real)
    requires Distinct(entries) && SpanningKeys(entries, keys, lo, hi)
    ensures |keys| == Running(Intervals(entries), lo, hi)
  {
    if entries == [] {
      assert keys == {};
    } else {
      var t, rest := entries[0], keys - {entries[0]};
      SpanningRest(entries, keys, lo, hi);
      CountSpanning(entries[1..], rest, lo, hi);
      OneKeyLess(keys, t);
    }
  }

  /** Across a gap of positive length the active steps are the ones that span it. */
  lemma ActiveSpans(xs: seq<Interval>, es: seq<Event>, k: nat, i: nat)
    requires EventList(xs, es) && 0 < k < |es| && i < |xs| && es[k - 1].time < es[k].time
    ensures Active(xs, es, k, i) <==> Spans(xs[i], es[k - 1].time, es[k].time)
  {
    var s, e := PositionsOf(xs, es, i);
    assert StartOf(xs, i) in es[..k] <==> s < k by {
      if s < k { assert es[..k][s] == es[s]; }
    }
    assert StopOf(xs, i) in es[..k] <==> e < k by {
      if e < k { assert es[..k][e] == es[e]; }
    }
  }

  /** Who runs after k events. */
  ghost predicate Tracks(entries: seq<Target>, es: seq<Event>, k: nat, running: map<Target, real>)
    requires k <= |es|
  {
    && (forall t :: t in running ==> t in entries)
    && forall i :: 0 <= i < |entries| ==> (entries[i] in running <==> Active(Intervals(entries), es, k, i))
  }

  /** What each running step recorded at its start, plus its share of the first k gaps, is the clock. */
  ghost predicate Charged(entries: seq<Target>, xs: seq<Interval>, times: seq<real>, k: nat,
                          running: map<Target, real>, clock: real)
    requires |xs| == |entries| && k < |times|
  {
    && clock == Clock(xs, times, k)
    && forall i :: 0 <= i < |xs| && entries[i] in running ==>
         running[entries[i]] + Share(xs[i], xs, times, k) == clock
  }

  ghost predicate GapHolds(entries: seq<Target>, lo: real, hi: real, running: map<Target, real>) {
    && |running| == Running(Intervals(entries), lo, hi)
    && forall i :: 0 <= i < |entries| ==> (entries[i] in running <==> Spans(Intervals(entries)[i], lo, hi))
  }

  /** Across a positive gap len(running_tasks) is the number of steps that span it. */
  lemma RunningCount(entries: seq<Target>, es: seq<Event>, k: nat, running: map<Target, real>)
    requires Distinct(entries) && EventList(Intervals(entries), es)
    requires 0 < k < |es| && Tracks(entries, es, k, running) && es[k - 1].time < es[k].time
    ensures GapHolds(entries, es[k - 1].time, es[k].time, running)
  {
    var lo, hi := es[k - 1].time, es[k].time;
    forall i | 0 <= i < |entries|
      ensures entries[i] in running.Keys <==> Spans(Intervals(entries)[i], lo, hi)
    {
      ActiveSpans(Intervals(entries), es, k, i);
    }
    CountSpanning(entries, running.Keys, lo, hi);
    assert |running| == |running.Keys|;
  }

  lemma AdvanceClock(entries: seq<Target>, xs: seq<Interval>, times: seq<real>, k: nat, gap: real,
                     running: map<Target, real>, clock: real, clock': real)
    requires xs == Intervals(entries) && 0 < k < |times| && times[k - 1] <= times[k]
    requires times[k - 1] < times[k] ==> GapHolds(entries, times[k - 1], times[k], running)
    requires Charged(entries, xs, times, k - 1, running, clock)
    requires gap == times[k] - times[k - 1]
    requires clock' == if |running| > 0 then clock + gap / |running| as real else clock
    ensures Charged(entries, xs, times, k, running, clock')
  {
    if times[k - 1] == times[k] {
      assert Rate(xs, times[k - 1], times[k]) == 0.0;
    }
  }

  /** The step of event k is known; a start is not running yet, and a stop not stopped yet. */
  lemma EventStep(xs: seq<Interval>, es: seq<Event>, k: nat)
    requires EventList(xs, es) && k < |es|
    ensures var e := es[k];
            && e.who < |xs|
            && (e.stop ==> StopOf(xs, e.who) !in es[..k]
                           && (StartOf(xs, e.who) in es[..k] <==> xs[e.who].start <= xs[e.who].end))
            && (!e.stop ==> StopOf(xs, e.who) in es[..k] ==> xs[e.who].end < xs[e.who].start)
            && e == if e.stop then StopOf(xs, e.who) else StartOf(xs, e.who)
  {
    assert es[k] in es;
    var s, e := PositionsOf(xs, es, es[k].who);
    if s < k { assert es[..k][s] == es[s]; }
  }

  lemma PrefixStep(xs: seq<Interval>, es: seq<Event>, k: nat)
    requires EventList(xs, es) && k < |es|
    ensures forall i :: 0 <= i < |xs| ==>
              (StopOf(xs, i) in es[..k + 1] <==> StopOf(xs, i) in es[..k] || (es[k].stop && es[k].who == i))
    ensures forall i :: 0 <= i < |xs| ==>
              (StartOf(xs, i) in es[..k + 1] <==> StartOf(xs, i) in es[..k] || (!es[k].stop && es[k].who == i))
  {
    assert es[k] in es;
    assert es[..k + 1] == es[..k] + [es[k]];
  }

  lemma TracksStep(entries: seq<Target>, es: seq<Event>, k: nat, before: map<Target, real>, after: map<Target, real>)
    requires Distinct(entries) && EventList(Intervals(entries), es) && k < |es| && Tracks(entries, es, k, before)
    requires es[k].who < |entries| && StopOf(Intervals(entries), es[k].who) !in es[..k]
    requires after.Keys == if es[k].stop then before.Keys - {entries[es[k].who]} else before.Keys + {entries[es[k].who]}
    ensures Tracks(entries, es, k + 1, after)
  {
    PrefixStep(Intervals(entries), es, k);
  }

  // ---------- the sum of the charges of the finished steps ----------

  ghost function Finished(xs: seq<Interval>, es: seq<Event>, k: nat): iset<nat>
    requires k <= |es|
  {
    iset i: nat | i < |xs| && StopOf(xs, i) in es[..k]
  }

  ghost function Paid(xs: seq<Interval>, es: seq<Event>, finished: iset<nat>, n: nat): real
    requires n <= |xs| && es != []
  {
    if n == 0 then 0.0
    else Paid(xs, es, finished, n - 1) + if n - 1 in finished then ShareIn(xs, es, n - 1) else 0.0
  }

  lemma {:induction false} PaidOneMore(xs: seq<Interval>, es: seq<Event>, finished: iset<nat>, who: nat, n: nat)
    requires who < |xs| && who !in finished && n <= |xs| && es != []
    ensures Paid(xs, es, finished + iset{who}, n)
         == Paid(xs, es, finished, n) + if who < n then ShareIn(xs, es, who) else 0.0
  {
    if n > 0 { PaidOneMore(xs, es, finished, who, n - 1); }
  }

  lemma {:induction false} PaidNone(xs: seq<Interval>, es: seq<Event>, n: nat)
    requires n <= |xs| && es != []
    ensures Paid(xs, es, iset{}, n) == 0.0
  {
    if n > 0 { PaidNone(xs, es, n - 1); }
  }

  lemma {:induction false} TotalShareSnoc(ys: seq<Interval>, y: Interval, xs: seq<Interval>, times: seq<real>, k: nat)
    requires k < |times|
    ensures TotalShare(ys + [y], xs, times, k) == TotalShare(ys, xs, times, k) + Share(y, xs, times, k)
  {
    if ys == [] {
      assert [] + [y] == [y];
    } else {
      assert (ys + [y])[1..] == ys[1..] + [y];
      TotalShareSnoc(ys[1..], y, xs, times, k);
    }
  }

  lemma {:induction false} PaidAll(xs: seq<Interval>, es: seq<Event>, finished: iset<nat>, n: nat)
    requires n <= |xs| && es != [] && forall i :: 0 <= i < |xs| ==> i in finished
    ensures Paid(xs, es, finished, n) == TotalShare(xs[..n], xs, EventTimes(es), |es| - 1)
  {
    if n > 0 {
      PaidAll(xs, es, finished, n - 1);
      assert xs[..n] == xs[..n - 1] + [xs[n - 1]];
      TotalShareSnoc(xs[..n - 1], xs[n - 1], xs, EventTimes(es), |es| - 1);
    }
  }

  /** Time is conserved: once every step has finished, the charges add up to the union. */
  lemma PaidAllIsUnion(xs: seq<Interval>, es: seq<Event>, finished: iset<nat>)
    requires EventList(xs, es) && xs != [] && forall i :: 0 <= i < |xs| ==> i in finished
    ensures Paid(xs, es, finished, |xs|) == UnionMeasure(xs)
  {
    PaidAll(xs, es, finished, |xs|);
    assert xs[..|xs|] == xs;
    InstantsSorted(xs, es);
    InstantsHoldEndpoints(xs, es);
    SharesAddUpToUnion(xs, EventTimes(es));
  }

  // ---------- SummarizeEntries ----------

  /** The state of the scan in front of event k. */
  ghost predicate Scanning(entries: seq<Target>, es: seq<Event>, k: nat, running: map<Target, real>,
                           lastTime: real, clock: real, total: real)
    requires es != []
  {
    var xs := Intervals(entries);
    var last := if k == 0 then 0 else k - 1;
    && k <= |es| && (k == 0 ==> running == map[])
    && lastTime == EventTimes(es)[last]
    && Tracks(entries, es, k, running)
    && Charged(entries, xs, EventTimes(es), last, running, clock)
    && total == Paid(xs, es, Finished(xs, es, k), |xs|)
  }

  /** What accumulating (time - last_time) / num_running does to the charges. */
  lemma ScanGap(entries: seq<Target>, es: seq<Event>, k: nat, running: map<Target, real>,
                lastTime: real, clock: real, total: real, gap: real, clock': real)
    requires Distinct(entries) && EventList(Intervals(entries), es) && k < |es|
    requires Scanning(entries, es, k, running, lastTime, clock, total)
    requires gap == es[k].time - lastTime
    requires clock' == if |running| > 0 then clock + gap / |running| as real else clock
    ensures Charged(entries, Intervals(entries), EventTimes(es), k, running, clock')
  {
    if k > 0 {
      var times := EventTimes(es);
      assert Leq(es[k - 1], es[k]);
      assert times[k - 1] == es[k - 1].time == lastTime && times[k] == es[k].time;
      assert times[k - 1] < times[k] ==> GapHolds(entries, times[k - 1], times[k], running) by {
        if es[k - 1].time < es[k].time { RunningCount(entries, es, k, running); }
      }
      AdvanceClock(entries, Intervals(entries), times, k, gap, running, clock, clock');
    }
  }

  lemma ScanStart(entries: seq<Target>, es: seq<Event>, k: nat, running: map<Target, real>, clock: real, total: real)
    requires Distinct(entries) && EventList(Intervals(entries), es) && k < |es| && !es[k].stop && es[k].who < |entries|
    requires forall i :: 0 <= i < |entries| && StopOf(Intervals(entries), i) in es[..k] ==>
               entries[i].start <= entries[i].end
    requires Tracks(entries, es, k, running)
    requires Charged(entries, Intervals(entries), EventTimes(es), k, running, clock)
    requires total == Paid(Intervals(entries), es, Finished(Intervals(entries), es, k), |entries|)
    ensures Scanning(entries, es, k + 1, running[entries[es[k].who] := clock], es[k].time, clock, total)
  {
    var xs, running' := Intervals(entries), running[entries[es[k].who] := clock];
    assert Tracks(entries, es, k + 1, running') by {
      EventStep(xs, es, k);
      TracksStep(entries, es, k, running, running');
    }
    assert Charged(entries, xs, EventTimes(es), k, running', clock) by {
      EventStep(xs, es, k);
      InstantsSorted(xs, es);
      ShareBeforeStart(xs[es[k].who], xs, EventTimes(es), k);
    }
    assert Finished(xs, es, k + 1) == Finished(xs, es, k) by {
      PrefixStep(xs, es, k);
    }
  }

  lemma StoppedShare(entries: seq<Target>, es: seq<Event>, k: nat, running: map<Target, real>, clock: real)
    requires EventList(Intervals(entries), es) && k < |es| && es[k].stop && es[k].who < |entries|
    requires Charged(entries, Intervals(entries), EventTimes(es), k, running, clock) && entries[es[k].who] in running
    ensures clock - running[entries[es[k].who]] == ShareIn(Intervals(entries), es, es[k].who)
  {
    var xs, who := Intervals(entries), es[k].who;
    EventStep(xs, es, k);
    InstantsSorted(xs, es);
    ShareAfterEnd(xs[who], xs, EventTimes(es), k, |es| - 1);
  }

  lemma StoppedPaid(xs: seq<Interval>, es: seq<Event>, k: nat)
    requires EventList(xs, es) && k < |es| && es[k].stop && es[k].who < |xs|
    ensures Paid(xs, es, Finished(xs, es, k + 1), |xs|)
         == Paid(xs, es, Finished(xs, es, k), |xs|) + ShareIn(xs, es, es[k].who)
  {
    EventStep(xs, es, k);
    PrefixStep(xs, es, k);
    PaidOneMore(xs, es, Finished(xs, es, k), es[k].who, |xs|);
    assert Finished(xs, es, k + 1) == Finished(xs, es, k) + iset{es[k].who};
  }

  lemma ScanStop(entries: seq<Target>, es: seq<Event>, k: nat, running: map<Target, real>, clock: real, total: real)
    requires Distinct(entries) && EventList(Intervals(entries), es) && k < |es| && es[k].stop && es[k].who < |entries|
    requires Tracks(entries, es, k, running) && entries[es[k].who] in running
    requires Charged(entries, Intervals(entries), EventTimes(es), k, running, clock)
    requires total == Paid(Intervals(entries), es, Finished(Intervals(entries), es, k), |entries|)
    ensures var w := clock - running[entries[es[k].who]];
            && w == ShareIn(Intervals(entries), es, es[k].who)
            && Scanning(entries, es, k + 1, running - {entries[es[k].who]}, es[k].time, clock, total + w)
  {
    var xs, running' := Intervals(entries), running - {entries[es[k].who]};
    StoppedShare(entries, es, k, running, clock);
    StoppedPaid(xs, es, k);
    assert Tracks(entries, es, k + 1, running') by {
      EventStep(xs, es, k);
      TracksStep(entries, es, k, running, running');
    }
  }

  lemma ScanBegins(entries: seq<Target>, es: seq<Event>)
    requires EventList(Intervals(entries), es) && es != []
    ensures Scanning(entries, es, 0, map[], es[0].time, 0.0, 0.0)
  {
    var xs := Intervals(entries);
    assert Finished(xs, es, 0) == iset{};
    PaidNone(xs, es, |xs|);
  }

  lemma ScanEnds(entries: seq<Target>, es: seq<Event>, running: map<Target, real>, lastTime: real, clock: real,
                 total: real)
    requires EventList(Intervals(entries), es) && es != []
    requires Scanning(entries, es, |es|, running, lastTime, clock, total)
    ensures running == map[] && total == UnionMeasure(Intervals(entries))
    ensures forall i :: 0 <= i < |entries| ==> StopOf(Intervals(entries), i) in es[..|es|]
  {
    var xs := Intervals(entries);
    assert es[..|es|] == es;
    forall i | 0 <= i < |xs| ensures StopOf(xs, i) in es {
      assert IsEventOf(xs, StopOf(xs, i));
    }
    assert forall t :: t in running ==> t in entries;
    assert running.Keys == {};
    PaidAllIsUnion(xs, es, Finished(xs, es, |es|));
  }

  ghost predicate Settled(entries: seq<Target>, es: seq<Event>, k: nat)
    requires k <= |es| && es != []
    reads entries
  {
    forall i :: 0 <= i < |entries| && StopOf(Intervals(entries), i) in es[..k] ==>
      && entries[i].start <= entries[i].end
      && entries[i].weightedDuration == ShareIn(Intervals(entries), es, i)
  }

  /** target.SetWeightedDuration(weighted_duration) for the step that event k stops. */
  method Settle(entries: seq<Target>, ghost es: seq<Event>, ghost k: nat, target: Target, weightedDuration: real)
    requires Distinct(entries) && EventList(Intervals(entries), es) && k < |es| && Settled(entries, es, k)
    requires es[k].stop && es[k].who < |entries| && target == entries[es[k].who] && target.start <= target.end
    requires weightedDuration == ShareIn(Intervals(entries), es, es[k].who)
    modifies target`weightedDuration
    ensures Settled(entries, es, k + 1)
  {
    target.weightedDuration := weightedDuration;
    PrefixStep(Intervals(entries), es, k);
  }

  /** A stop event: the step is charged for its time; not ok is the KeyError of a step not running. */
  method StopTarget(entries: seq<Target>, events: seq<Event>, k: nat, target: Target, running: map<Target, real>,
                    lastWeightedTime: real, weightedTotal: real)
    returns (ok: bool, running': map<Target, real>, weightedTotal': real)
    requires Distinct(entries) && EventList(Intervals(entries), events) && k < |events| && events[k].stop
    requires events[k].who < |entries| && target == entries[events[k].who]
    requires Tracks(entries, events, k, running) && Settled(entries, events, k)
    requires Charged(entries, Intervals(entries), EventTimes(events), k, running, lastWeightedTime)
    requires weightedTotal == Paid(Intervals(entries), events, Finished(Intervals(entries), events, k), |entries|)
    modifies entries`weightedDuration
    ensures ok <==> target.start <= target.end
    ensures ok ==> Scanning(entries, events, k + 1, running', events[k].time, lastWeightedTime, weightedTotal')
    ensures ok ==> Settled(entries, events, k + 1)
  {
    EventStep(Intervals(entries), events, k);
    if target !in running {
      return false, running, weightedTotal;
    }
    ScanStop(entries, events, k, running, lastWeightedTime, weightedTotal);
    var weightedDuration := lastWeightedTime - running[target];
    Settle(entries, events, k, target, weightedDuration);
    return true, running - {target}, weightedTotal + weightedDuration;
  }

  /** One round of the scan; not ok is a step that stops before it starts. */
  method ProcessEvent(entries: seq<Target>, events: seq<Event>, k: nat, running: map<Target, real>,
                      lastTime: real, lastWeightedTime: real, weightedTotal: real)
    returns (ok: bool, running': map<Target, real>, time: real, lastWeightedTime': real, weightedTotal': real)
    requires Distinct(entries) && EventList(Intervals(entries), events) && k < |events|
    requires Scanning(entries, events, k, running, lastTime, lastWeightedTime, weightedTotal)
    requires Settled(entries, events, k)
    modifies entries`weightedDuration
    ensures ok ==> Scanning(entries, events, k + 1, running', time, lastWeightedTime', weightedTotal')
    ensures ok ==> Settled(entries, events, k + 1)
    ensures !ok ==> !WellTimed(Intervals(entries))
  {
    var event := events[k];
    time, lastWeightedTime', running', weightedTotal' := event.time, lastWeightedTime, running, weightedTotal;
    EventStep(Intervals(entries), events, k);
    var target := entries[event.who];
    var numRunning, gap := |running|, time - lastTime;
    if numRunning > 0 {
      lastWeightedTime' := lastWeightedTime' + gap / numRunning as real;
    }
    ScanGap(entries, events, k, running, lastTime, lastWeightedTime, weightedTotal, gap, lastWeightedTime');
    if !event.stop {
      ScanStart(entries, events, k, running, lastWeightedTime', weightedTotal);
      PrefixStep(Intervals(entries), events, k);
      running' := running[target := lastWeightedTime'];
      ok := true;
    } else {
      ok, running', weightedTotal' := StopTarget(entries, events, k, target, running, lastWeightedTime', weightedTotal);
    }
  }

  /** The scan over the sorted events. */
  method ScanEvents(entries: seq<Target>, events: seq<Event>) returns (ok: bool, weightedTotal: real)
    requires entries != [] && Distinct(entries) && EventList(Intervals(entries), events)
    modifies entries`weightedDuration
    ensures ok <==> WellTimed(Intervals(entries))
    ensures ok ==> weightedTotal == UnionMeasure(Intervals(entries))
    ensures ok ==> forall i :: 0 <= i < |entries| ==>
                     entries[i].weightedDuration == ShareIn(Intervals(entries), events, i)
  {
    weightedTotal := 0.0;
    var running: map<Target, real> := map[];
    var lastTime := events[0].time;
    var lastWeightedTime := 0.0;
    ScanBegins(entries, events);
    var k := 0;
    while k < |events|
      invariant k <= |events|
      invariant Scanning(entries, events, k, running, lastTime, lastWeightedTime, weightedTotal)
      invariant Settled(entries, events, k)
    {
      ok, running, lastTime, lastWeightedTime, weightedTotal :=
        ProcessEvent(entries, events, k, running, lastTime, lastWeightedTime, weightedTotal);
      if !ok { return; }
      k := k + 1;
    }
    ScanEnds(entries, events, running, lastTime, lastWeightedTime, weightedTotal);
    ok := true;
  }

  /**
    IndexError for no entries at all, KeyError exactly when some step stops before it starts;
    otherwise every step gets its fair share and the shares add up to the union of the intervals.
   */
  method SummarizeEntries(entries: seq<Target>) returns (r: Outcome)
    requires Distinct(entries)
    modifies entries`weightedDuration
    ensures r.IndexError? <==> entries == []
    ensures r.KeyError? <==> entries != [] && !WellTimed(Intervals(entries))
    ensures r.Summary? ==>
      var xs := Intervals(entries);
      && r.length == Latest(xs) - Earliest(xs)
      && r.totalCpuTime == TotalDuration(xs)
      && r.weightedTotal == UnionMeasure(xs)
      && forall i :: 0 <= i < |entries| ==> entries[i].weightedDuration == FairShare(xs, i)
  {
    ghost var xs := Intervals(entries);
    var taskStartStopTimes: seq<Event> := [];
    var earliest, latest, totalCpuTime := -1.0, 0.0, 0.0;
    var i := 0;
    while i < |entries|
      invariant i <= |entries|
      invariant taskStartStopTimes == RawEvents(xs[..i])
      invariant earliest == Earliest(xs[..i]) && latest == Latest(xs[..i])
      invariant totalCpuTime == TotalDuration(xs[..i])
    {
      var target := entries[i];
      assert xs[..i + 1][..i] == xs[..i];
      if earliest < 0.0 || target.start < earliest { earliest := target.start; }
      if target.end > latest { latest := target.end; }
      totalCpuTime := totalCpuTime + target.Duration();
      taskStartStopTimes := taskStartStopTimes + [Event(target.start, false, i), Event(target.end, true, i)];
      i := i + 1;
    }
    assert xs[..i] == xs;
    if taskStartStopTimes == [] { return IndexError; }
    var events := SortEvents(taskStartStopTimes);
    EventsAre(xs);
    var ok, weightedTotal := ScanEvents(entries, events);
    if !ok { return KeyError; }
    r := Summary(latest - earliest, totalCpuTime, weightedTotal);
  }

  // ---------- what the report promises about its figures ----------

  /** weighted_duration never exceeds the duration: the assertion in WeightedDuration cannot fail. */
  lemma FairShareBounds(xs: seq<Interval>, i: nat)
    requires WellTimed(xs) && i < |xs|
    ensures 0.0 <= FairShare(xs, i) <= xs[i].end - xs[i].start
  {
    EventsAre(xs);
    InstantsSorted(xs, EventsOf(xs));
    InstantsHoldEndpoints(xs, EventsOf(xs));
    ShareBounds(xs[i], xs, Instants(xs));
  }

  /** earliest and latest are exact: see EarliestIsExact and LatestIsExact for when. */
  ghost predicate WindowIsExact(xs: seq<Interval>) {
    IsLeastStart(xs, Earliest(xs)) && IsGreatestEnd(xs, Latest(xs))
  }

  lemma WindowIsFirstToLastInstant(xs: seq<Interval>, es: seq<Event>)
    requires xs != [] && EventList(xs, es) && WellTimed(xs) && WindowIsExact(xs)
    ensures EventTimes(es)[0] == Earliest(xs) && EventTimes(es)[|es| - 1] == Latest(xs)
  {
    var times := EventTimes(es);
    InstantsSorted(xs, es);
    var e :| 0 <= e < |xs| && xs[e].start == Earliest(xs);
    var se, _ := PositionsOf(xs, es, e);
    assert times[0] <= times[se];
    var f := InstantIsEndpoint(xs, es, times[0]);
    assert Earliest(xs) <= xs[f].start <= xs[f].end;
    var l :| 0 <= l < |xs| && xs[l].end == Latest(xs);
    var _, sl := PositionsOf(xs, es, l);
    assert times[sl] <= times[|es| - 1];
    var g := InstantIsEndpoint(xs, es, times[|es| - 1]);
    assert xs[g].start <= xs[g].end <= Latest(xs);
  }

  lemma NonNegativeWindowIsExact(xs: seq<Interval>)
    requires xs != [] && WellTimed(xs) && NonNegativeStarts(xs)
    ensures WindowIsExact(xs)
  {
    EarliestIsExact(xs);
    LatestIsExact(xs);
    assert 0.0 <= xs[0].start <= xs[0].end;
  }

  lemma EndpointsAreCovered(xs: seq<Interval>, es: seq<Event>)
    requires EventList(xs, es) && WellTimed(xs)
    ensures forall t :: t in EventTimes(es) ==> Covered(xs, t)
  {
    forall t | t in EventTimes(es) ensures Covered(xs, t) {
      var i := InstantIsEndpoint(xs, es, t);
      assert xs[i].start <= t <= xs[i].end;
    }
  }

  lemma UnionWithinInstants(xs: seq<Interval>, times: seq<real>)
    requires |times| > 0 && Sorted(times) && EndpointsIn(xs, times) && forall t :: t in times ==> Covered(xs, t)
    ensures 0.0 <= UnionMeasure(xs) <= times[|times| - 1] - times[0]
    ensures UnionMeasure(xs) == times[|times| - 1] - times[0]
       <==> CoveredBetween(xs, times[0], times[|times| - 1])
  {
    BusyIsUnionMeasure(xs, times);
    BusyAtMostElapsed(xs, times, |times| - 1);
    NoIdleGapMeansCovered(xs, times);
  }

  /** The weighted total is at most the length of the build, and equal exactly when nothing idles. */
  lemma WeightedTotalAtMostLength(xs: seq<Interval>)
    requires xs != [] && WellTimed(xs) && WindowIsExact(xs)
    ensures 0.0 <= UnionMeasure(xs) <= Latest(xs) - Earliest(xs)
    ensures UnionMeasure(xs) == Latest(xs) - Earliest(xs) <==> CoveredBetween(xs, Earliest(xs), Latest(xs))
  {
    var es := EventsOf(xs);
    EventsAre(xs);
    var times := EventTimes(es);
    assert times[0] == Earliest(xs) && times[|es| - 1] == Latest(xs) by { WindowIsFirstToLastInstant(xs, es); }
    assert forall t :: t in times ==> Covered(xs, t) by { EndpointsAreCovered(xs, es); }
    assert EndpointsIn(xs, times) by { InstantsHoldEndpoints(xs, es); }
    InstantsSorted(xs, es);
    UnionWithinInstants(xs, times);
  }
}
