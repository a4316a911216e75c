/**
  The start/stop events of a list of build steps, sorted as list.sort does with key (time, name),
  where "start" precedes "stop"; and the build window as the report computes it.
 */
module BuildEvents {
  import opened Timeline

  /** who is the position of the step in the list of entries. */
  datatype Event = Event(time: real, stop: bool, who: nat)

  predicate Leq(a: Event, b: Event) {
    a.time < b.time || (a.time == b.time && (!a.stop || b.stop))
  }

  ghost predicate SortedEvents(es: seq<Event>) {
    forall i, j :: 0 <= i <= j < |es| ==> Leq(es[i], es[j])
  }

  ghost predicate NoDuplicates(es: seq<Event>) {
    forall i, j :: 0 <= i < j < |es| ==> es[i] != es[j]
  }

  function StartOf(xs: seq<Interval>, i: nat): Event
    requires i < |xs|
  {
    Event(xs[i].start, false, i)
  }

  function StopOf(xs: seq<Interval>, i: nat): Event
    requires i < |xs|
  {
    Event(xs[i].end, true, i)
  }

  function RawEvents(xs: seq<Interval>): (r: seq<Event>)
    ensures |r| == 2 * |xs|
  {
    if xs == [] then []
    else
      var n := |xs| - 1;
      RawEvents(xs[..n]) + [StartOf(xs, n), StopOf(xs, n)]
  }

  /** Stable: e goes behind every event that is not greater. */
  function Insert(es: seq<Event>, e: Event): (r: seq<Event>)
    ensures |r| == |es| + 1
  {
    if es == [] || Leq(es[|es| - 1], e) then es + [e]
    else Insert(es[..|es| - 1], e) + [es[|es| - 1]]
  }

  function SortEvents(es: seq<Event>): (r: seq<Event>)
    ensures |r| == |es|
  {
    if es == [] then [] else Insert(SortEvents(es[..|es| - 1]), es[|es| - 1])
  }

  lemma {:induction false} InsertKeepsEvents(es: seq<Event>, e: Event)
    ensures multiset(Insert(es, e)) == multiset(es) + multiset{e}
  {
    if es != [] {
      var n := |es| - 1;
      assert es == es[..n] + [es[n]];
      InsertKeepsEvents(es[..n], e);
    }
  }

  lemma {:induction false} InsertKeepsOrder(es: seq<Event>, e: Event)
    requires SortedEvents(es)
    ensures SortedEvents(Insert(es, e))
  {
    if es != [] && !Leq(es[|es| - 1], e) {
      var n := |es| - 1;
      var r := Insert(es[..n], e);
      InsertKeepsOrder(es[..n], e);
      InsertKeepsEvents(es[..n], e);
      forall i | 0 <= i < |r| ensures Leq(r[i], es[n]) {
        assert r[i] in multiset(r);
        assert r[i] == e || r[i] in es[..n];
      }
    }
  }

  lemma {:induction false} SortEventsSorts(es: seq<Event>)
    ensures SortedEvents(SortEvents(es)) && multiset(SortEvents(es)) == multiset(es)
  {
    if es != [] {
      var n := |es| - 1;
      assert es == es[..n] + [es[n]];
      SortEventsSorts(es[..n]);
      InsertKeepsEvents(SortEvents(es[..n]), es[n]);
      InsertKeepsOrder(SortEvents(es[..n]), es[n]);
    }
  }

  function EventsOf(xs: seq<Interval>): seq<Event> { SortEvents(RawEvents(xs)) }

  function EventTimes(es: seq<Event>): (r: seq<real>)
    ensures |r| == |es| && forall i :: 0 <= i < |es| ==> r[i] == es[i].time
  {
    seq(|es|, i requires 0 <= i < |es| => es[i].time)
  }

  /** The instants at which something starts or stops, in order. */
  function Instants(xs: seq<Interval>): seq<real> { EventTimes(EventsOf(xs)) }

  // ---------- what the sorted list holds ----------

  ghost predicate IsEventOf(xs: seq<Interval>, e: Event) {
    e.who < |xs| && e == if e.stop then StopOf(xs, e.who) else StartOf(xs, e.who)
  }

  lemma {:induction false} RawEventsAre(xs: seq<Interval>)
    ensures forall e :: multiset(RawEvents(xs))[e] == if IsEventOf(xs, e) then 1 else 0
  {
    if xs != [] {
      var n := |xs| - 1;
      RawEventsAre(xs[..n]);
      forall e ensures IsEventOf(xs, e) <==> IsEventOf(xs[..n], e) || e in {StartOf(xs, n), StopOf(xs, n)} {}
      assert multiset([StartOf(xs, n), StopOf(xs, n)]) == multiset{StartOf(xs, n), StopOf(xs, n)};
    }
  }

  lemma OnceEachMeansNoDuplicates(es: seq<Event>)
    requires forall e :: multiset(es)[e] <= 1
    ensures NoDuplicates(es)
  {
    forall i, j | 0 <= i < j < |es| ensures es[i] != es[j] {
      assert es == es[..j] + es[j..];
      assert es[..j][i] in multiset(es[..j]) && es[j..][0] in multiset(es[j..]);
      assert multiset(es)[es[j]] == multiset(es[..j])[es[j]] + multiset(es[j..])[es[j]];
    }
  }

  /** Every step contributes exactly one start and one stop, and nothing else is listed. */
  ghost predicate EventList(xs: seq<Interval>, es: seq<Event>) {
    && |es| == 2 * |xs| && SortedEvents(es) && NoDuplicates(es)
    && forall e :: e in es <==> IsEventOf(xs, e)
  }

  lemma EventsAre(xs: seq<Interval>)
    ensures EventList(xs, EventsOf(xs))
  {
    var es := EventsOf(xs);
    RawEventsAre(xs);
    SortEventsSorts(RawEvents(xs));
    OnceEachMeansNoDuplicates(es);
    forall e ensures e in es <==> IsEventOf(xs, e) {
      assert e in es <==> e in multiset(es);
    }
  }

  lemma PositionsOf(xs: seq<Interval>, es: seq<Event>, i: nat) returns (s: nat, e: nat)
    requires EventList(xs, es) && i < |xs|
    ensures s < |es| && e < |es| && es[s] == StartOf(xs, i) && es[e] == StopOf(xs, i)
  {
    assert IsEventOf(xs, StartOf(xs, i)) && IsEventOf(xs, StopOf(xs, i));
    s :| 0 <= s < |es| && es[s] == StartOf(xs, i);
    e :| 0 <= e < |es| && es[e] == StopOf(xs, i);
  }

  lemma InstantsSorted(xs: seq<Interval>, es: seq<Event>)
    requires EventList(xs, es)
    ensures Sorted(EventTimes(es))
  {
    forall i, j | 0 <= i <= j < |es| ensures EventTimes(es)[i] <= EventTimes(es)[j] {
      assert Leq(es[i], es[j]);
    }
  }

  lemma InstantsHoldEndpoints(xs: seq<Interval>, es: seq<Event>)
    requires EventList(xs, es)
    ensures EndpointsIn(xs, EventTimes(es))
  {
    forall i | 0 <= i < |xs| ensures xs[i].start in EventTimes(es) && xs[i].end in EventTimes(es) {
      var s, e := PositionsOf(xs, es, i);
      assert EventTimes(es)[s] == xs[i].start && EventTimes(es)[e] == xs[i].end;
    }
  }

  lemma InstantIsEndpoint(xs: seq<Interval>, es: seq<Event>, t: real) returns (i: nat)
    requires EventList(xs, es) && t in EventTimes(es)
    ensures i < |xs| && (xs[i].start == t || xs[i].end == t)
  {
    var j :| 0 <= j < |es| && EventTimes(es)[j] == t;
    assert es[j] in es;
    i := es[j].who;
  }

  // ---------- the build window ----------

  /** -1 stands for "no start seen yet", so a negative start never sticks. */
  function Earliest(xs: seq<Interval>): real {
    if xs == [] then -1.0
    else
      var e, s := Earliest(xs[..|xs| - 1]), xs[|xs| - 1].start;
      if e < 0.0 || s < e then s else e
  }

  function Latest(xs: seq<Interval>): real {
    if xs == [] then 0.0 else Max(Latest(xs[..|xs| - 1]), xs[|xs| - 1].end)
  }

  ghost predicate IsLeastStart(xs: seq<Interval>, m: real) {
    (exists i :: 0 <= i < |xs| && xs[i].start == m) && forall i :: 0 <= i < |xs| ==> m <= xs[i].start
  }

  ghost predicate IsGreatestEnd(xs: seq<Interval>, m: real) {
    (exists i :: 0 <= i < |xs| && xs[i].end == m) && forall i :: 0 <= i < |xs| ==> xs[i].end <= m
  }

  ghost predicate NonNegativeStarts(xs: seq<Interval>) {
    forall i :: 0 <= i < |xs| ==> 0.0 <= xs[i].start
  }

  lemma {:induction false} EarliestOfNonNegative(xs: seq<Interval>)
    requires xs != [] && NonNegativeStarts(xs)
    ensures IsLeastStart(xs, Earliest(xs))
  {
    var n := |xs| - 1;
    assert xs[n].start == if n == 0 then Earliest(xs) else xs[n].start;
    if n > 0 {
      EarliestOfNonNegative(xs[..n]);
      var i :| 0 <= i < n && xs[..n][i].start == Earliest(xs[..n]);
      assert xs[i].start == Earliest(xs[..n]);
      forall j | 0 <= j < |xs| ensures Earliest(xs) <= xs[j].start {
        if j < n { assert xs[..n][j] == xs[j]; }
      }
    }
  }

  lemma {:induction false} EarliestIsAStart(xs: seq<Interval>)
    requires xs != []
    ensures exists i :: 0 <= i < |xs| && xs[i].start == Earliest(xs)
  {
    var n := |xs| - 1;
    assert xs[n].start == if n == 0 then Earliest(xs) else xs[n].start;
    if n > 0 {
      EarliestIsAStart(xs[..n]);
      var i :| 0 <= i < n && xs[..n][i].start == Earliest(xs[..n]);
      assert xs[i].start == Earliest(xs[..n]);
    }
  }

  /** The -1 sentinel is right exactly when no start is negative, or the last one is the least. */
  lemma EarliestIsExact(xs: seq<Interval>)
    requires xs != []
    ensures IsLeastStart(xs, Earliest(xs))
       <==> NonNegativeStarts(xs) || IsLeastStart(xs, xs[|xs| - 1].start)
  {
    var n := |xs| - 1;
    if NonNegativeStarts(xs) {
      EarliestOfNonNegative(xs);
    } else {
      EarliestIsAStart(xs);
      if Earliest(xs) != xs[n].start {
        assert 0.0 <= Earliest(xs) <= xs[n].start;
      }
    }
  }

  /** Two steps in negative time: the earlier start is forgotten. */
  lemma EarliestForgetsNegativeStart()
    ensures Earliest([Interval(-5.0, -4.0), Interval(-3.0, -2.0)]) == -3.0
  {
    var xs := [Interval(-5.0, -4.0), Interval(-3.0, -2.0)];
    assert xs[..1] == [xs[0]] && xs[..1][..0] == [];
    assert Earliest(xs[..1]) == -5.0;
  }

  lemma {:induction false} LatestBounds(xs: seq<Interval>)
    ensures 0.0 <= Latest(xs) && forall i :: 0 <= i < |xs| ==> xs[i].end <= Latest(xs)
    ensures Latest(xs) == 0.0 || exists i :: 0 <= i < |xs| && xs[i].end == Latest(xs)
  {
    if xs != [] {
      var n := |xs| - 1;
      LatestBounds(xs[..n]);
      forall j | 0 <= j < |xs| ensures xs[j].end <= Latest(xs) {
        if j < n { assert xs[..n][j] == xs[j]; }
      }
      if Latest(xs) != 0.0 && Latest(xs) != xs[n].end {
        var m :| 0 <= m < n && xs[..n][m].end == Latest(xs[..n]);
        assert xs[m].end == Latest(xs);
      }
    }
  }

  /** The initial 0 is right exactly when some step ends at or after time 0. */
  lemma LatestIsExact(xs: seq<Interval>)
    ensures IsGreatestEnd(xs, Latest(xs)) <==> exists i :: 0 <= i < |xs| && 0.0 <= xs[i].end
  {
    LatestBounds(xs);
  }

  /** One step in negative time: latest is the initial 0, at which nothing ends. */
  lemma LatestForgetsNegativeEnd()
    ensures Latest([Interval(-5.0, -4.0)]) == 0.0 && !IsGreatestEnd([Interval(-5.0, -4.0)], 0.0)
  {
    var xs := [Interval(-5.0, -4.0)];
    assert xs[..0] == [];
  }
}
