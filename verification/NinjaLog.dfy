/**
  Reading a .ninja_log: ReadTargets keeps the records of the last build and groups them by command.
 */
module NinjaLog {
  import opened Timeline
  import opened BuildReport
  import BuildEvents
  import opened FirstAppearance

  datatype Record = Record(start: int, end: int, name: string, cmdhash: string)

  /** Corrupt: not five fields. BadNumber: five fields, but start or end is not an integer. */
  datatype Line = Corrupt | BadNumber | WellFormed(record: Record)

  datatype ReadResult = AssertionError | ValueError | Targets(targets: seq<Target>)

  const HEADER := "# ninja log v5\n"

  function Seconds(ms: int): real { ms as real / 1000.0 }

  /** The records of the well-formed ones of the first n lines, in order. */
  function RecordsUpTo(lines: seq<Line>, n: nat): seq<Record>
    requires n <= |lines|
  {
    if n == 0 then []
    else if lines[n - 1].WellFormed? then RecordsUpTo(lines, n - 1) + [lines[n - 1].record]
    else RecordsUpTo(lines, n - 1)
  }

  lemma SecondsAreExact(ms: int)
    ensures Seconds(ms) * 1000.0 == ms as real
  {}

  lemma OneMorePlace(before: seq<nat>, n: nat) returns (places: seq<nat>)
    requires forall k, l :: 0 <= k < l < |before| ==> before[k] < before[l]
    requires forall k :: 0 <= k < |before| ==> before[k] < n
    ensures |places| == |before| + 1 && places[|before|] == n
    ensures forall k :: 0 <= k < |before| ==> places[k] == before[k]
    ensures forall k, l :: 0 <= k < l < |places| ==> places[k] < places[l]
    ensures n in places && forall i :: i in before ==> i in places
  {
    places := before + [n];
  }

  /** The records are those of exactly the well-formed lines, in order. */
  lemma {:induction false} RecordsAre(lines: seq<Line>, n: nat) returns (places: seq<nat>)
    requires n <= |lines|
    ensures |places| == |RecordsUpTo(lines, n)|
    ensures forall k :: 0 <= k < |places| ==>
              places[k] < n && lines[places[k]] == WellFormed(RecordsUpTo(lines, n)[k])
    ensures forall k, l :: 0 <= k < l < |places| ==> places[k] < places[l]
    ensures forall i :: 0 <= i < n && lines[i].WellFormed? ==> i in places
  {
    if n == 0 {
      places := [];
    } else {
      places := RecordsAre(lines, n - 1);
      if lines[n - 1].WellFormed? { places := OneMorePlace(places, n - 1); }
    }
  }

  function Records(lines: seq<Line>): seq<Record> { RecordsUpTo(lines, |lines|) }

  predicate SameSpan(a: Record, b: Record) { a.start == b.start && a.end == b.end }

  ghost predicate EndsNeverGoBack(w: seq<Record>) {
    forall i, j :: 0 <= i <= j < |w| ==> w[i].end <= w[j].end
  }

  ghost predicate OneSpanPerHash(w: seq<Record>) {
    forall i, j :: 0 <= i < j < |w| && w[i].cmdhash == w[j].cmdhash ==>
      SameSpan(w[i], w[j])
  }

  // ---------- grouping by command hash ----------

  /** The hashes in the order of their first record. */
  function Hashes(w: seq<Record>): (hs: seq<string>)
    ensures w != [] ==> hs != []
    ensures forall i, j :: 0 <= i < j < |hs| ==> hs[i] != hs[j]
  {
    if w == [] then []
    else
      var hs := Hashes(w[..|w| - 1]);
      if w[|w| - 1].cmdhash in hs then hs else hs + [w[|w| - 1].cmdhash]
  }

  lemma {:induction false} HashesAreThoseRecorded(w: seq<Record>, h: string)
    ensures h in Hashes(w) <==> exists i :: 0 <= i < |w| && w[i].cmdhash == h
  {
    if w != [] {
      var n := |w| - 1;
      HashesAreThoseRecorded(w[..n], h);
      assert forall i :: 0 <= i < n ==> w[..n][i] == w[i];
      if h in Hashes(w) && h !in Hashes(w[..n]) { assert w[n].cmdhash == h; }
    }
  }

  function First(w: seq<Record>, h: string): Record
    requires h in Hashes(w)
  {
    var n := |w| - 1;
    if h in Hashes(w[..n]) then First(w[..n], h) else w[n]
  }

  lemma {:induction false} FirstIsRecorded(w: seq<Record>, h: string) returns (f: nat)
    requires h in Hashes(w)
    ensures f < |w| && w[f] == First(w, h) && w[f].cmdhash == h
    ensures forall i :: 0 <= i < f ==> w[i].cmdhash != h
  {
    var n := |w| - 1;
    if h in Hashes(w[..n]) {
      f := FirstIsRecorded(w[..n], h);
      assert forall i :: 0 <= i < n ==> w[..n][i] == w[i];
    } else {
      f := n;
      HashesAreThoseRecorded(w[..n], h);
      assert forall i :: 0 <= i < n ==> w[..n][i] == w[i];
    }
  }

  /** The names recorded under a hash, in log order. */
  function NamesOf(w: seq<Record>, h: string): seq<string> {
    if w == [] then []
    else NamesOf(w[..|w| - 1], h) + if w[|w| - 1].cmdhash == h then [w[|w| - 1].name] else []
  }

  lemma PrefixOfPrefix<T>(s: seq<T>, n: nat)
    requires 0 < n <= |s|
    ensures s[..n][..n - 1] == s[..n - 1] && s[..n][n - 1] == s[n - 1]
  {}

  /** Among the first n records, the names are those of exactly the ones with the hash, in order. */
  lemma {:induction false} NamesAre(w: seq<Record>, n: nat, h: string) returns (places: seq<nat>)
    requires n <= |w|
    ensures |places| == |NamesOf(w[..n], h)|
    ensures forall k :: 0 <= k < |places| ==>
              places[k] < n && w[places[k]].cmdhash == h && w[places[k]].name == NamesOf(w[..n], h)[k]
    ensures forall k, l :: 0 <= k < l < |places| ==> places[k] < places[l]
    ensures forall i :: 0 <= i < n && w[i].cmdhash == h ==> i in places
  {
    if n == 0 {
      places := [];
    } else {
      PrefixOfPrefix(w, n);
      places := NamesAre(w, n - 1, h);
      if w[n - 1].cmdhash == h { places := OneMorePlace(places, n - 1); }
    }
  }

  function HashesRecorded(w: seq<Record>): (hs: seq<string>)
    ensures |hs| == |w| && forall i :: 0 <= i < |w| ==> hs[i] == w[i].cmdhash
  {
    seq(|w|, i requires 0 <= i < |w| => w[i].cmdhash)
  }

  lemma HashesAppended(w: seq<Record>, r: Record)
    ensures HashesRecorded(w + [r]) == HashesRecorded(w) + [r.cmdhash]
    ensures Hashes(w + [r]) == if r.cmdhash in Hashes(w) then Hashes(w) else Hashes(w) + [r.cmdhash]
  {
    assert (w + [r])[..|w|] == w;
  }

  /** The hashes stand in the order in which they are first recorded. */
  lemma {:induction false} HashesInOrder(w: seq<Record>)
    ensures ListsInOrder(Hashes(w), HashesRecorded(w))
  {
    if w != [] {
      var v, r := w[..|w| - 1], w[|w| - 1];
      HashesInOrder(v);
      HashesAppended(v, r);
      assert w == v + [r];
      OneMoreItem(Hashes(v), HashesRecorded(v), r.cmdhash);
    }
  }

  // ---------- the last build ----------

  /** The end time has not gone back, and a command seen before has the start and end it had. */
  ghost predicate Continues(w: seq<Record>, r: Record) {
    && (w == [] || w[|w| - 1].end <= r.end)
    && (r.cmdhash in Hashes(w) ==> SameSpan(First(w, r.cmdhash), r))
  }

  /** The records of one build, each continuing the ones before it. */
  ghost predicate OneBuild(w: seq<Record>) {
    w == [] || (OneBuild(w[..|w| - 1]) && Continues(w[..|w| - 1], w[|w| - 1]))
  }

  /**
    The records that are reported: all of them with show_all; otherwise those of the last build,
    where each build runs on for as long as its records continue it.
   */
  ghost function Kept(rs: seq<Record>, showAll: bool): seq<Record> {
    if rs == [] then []
    else
      var w, r := Kept(rs[..|rs| - 1], showAll), rs[|rs| - 1];
      if showAll || Continues(w, r) then w + [r] else [r]
  }

  /** Where the last build starts. */
  ghost function LastBuild(rs: seq<Record>): int { |rs| - |Kept(rs, false)| }

  ghost predicate IsGroup(t: Target, w: seq<Record>, h: string)
    requires h in Hashes(w)
    reads t
  {
    && t.start == Seconds(First(w, h).start) && t.end == Seconds(First(w, h).end)
    && t.targets == NamesOf(w, h)
  }

  /** ts is the grouping of w by hash. */
  ghost predicate Grouped(ts: seq<Target>, w: seq<Record>)
    reads ts
  {
    && |ts| == |Hashes(w)| && Distinct(ts)
    && forall i :: 0 <= i < |ts| ==> IsGroup(ts[i], w, Hashes(w)[i])
  }

  lemma {:induction false} AllAreKept(rs: seq<Record>)
    ensures Kept(rs, true) == rs
  {
    if rs != [] { AllAreKept(rs[..|rs| - 1]); }
  }

  lemma SingleIsOneBuild(r: Record)
    ensures OneBuild([r])
  {
    assert [r][..0] == [];
  }

  lemma OneMoreRecord(w: seq<Record>, r: Record)
    requires OneBuild(w)
    ensures OneBuild(w + [r]) <==> Continues(w, r)
  {
    assert (w + [r])[..|w|] == w;
  }

  lemma {:induction false} KeptIsOneBuild(rs: seq<Record>)
    ensures OneBuild(Kept(rs, false))
  {
    if rs != [] {
      var n := |rs| - 1;
      KeptIsOneBuild(rs[..n]);
      OneMoreRecord(Kept(rs[..n], false), rs[n]);
      SingleIsOneBuild(rs[n]);
    }
  }

  lemma SuffixOneMore<T>(s: seq<T>, n: nat, p: nat)
    requires p <= n && |s| == n + 1
    ensures s[p..] == s[..n][p..] + [s[n]]
    ensures s[..n][..p] == s[..p]
  {}

  /** What is kept is the end of the log. */
  lemma {:induction false} KeptIsSuffix(rs: seq<Record>)
    ensures 0 <= LastBuild(rs) <= |rs| && Kept(rs, false) == rs[LastBuild(rs)..]
    ensures rs != [] ==> LastBuild(rs) < |rs|
  {
    if rs != [] {
      var n := |rs| - 1;
      var w := Kept(rs[..n], false);
      KeptIsSuffix(rs[..n]);
      if Continues(w, rs[n]) {
        assert Kept(rs, false) == w + [rs[n]] && LastBuild(rs) == LastBuild(rs[..n]);
        SuffixOneMore(rs, n, LastBuild(rs));
      } else {
        assert Kept(rs, false) == [rs[n]];
      }
    }
  }

  lemma {:induction false} CutWhereNotContinued(rs: seq<Record>, n: nat)
    requires n <= |rs| && LastBuild(rs[..n]) > 0
    ensures LastBuild(rs[..n]) < n && !Continues(Kept(rs[..LastBuild(rs[..n])], false), rs[LastBuild(rs[..n])])
  {
    assert rs[..n][..n - 1] == rs[..n - 1];
    if Continues(Kept(rs[..n - 1], false), rs[n - 1]) {
      assert LastBuild(rs[..n]) == LastBuild(rs[..n - 1]);
      CutWhereNotContinued(rs, n - 1);
    }
  }

  /** The build before it ends where it does because the next record does not continue it. */
  lemma LastBuildIsMaximal(rs: seq<Record>)
    requires LastBuild(rs) > 0
    ensures LastBuild(rs) < |rs| && !OneBuild(Kept(rs[..LastBuild(rs)], false) + [rs[LastBuild(rs)]])
  {
    var p := LastBuild(rs);
    assert rs[..|rs|] == rs;
    CutWhereNotContinued(rs, |rs|);
    KeptIsOneBuild(rs[..p]);
    OneMoreRecord(Kept(rs[..p], false), rs[p]);
  }

  lemma EndsOneMore(w: seq<Record>, r: Record)
    requires EndsNeverGoBack(w)
    ensures EndsNeverGoBack(w + [r]) <==> w == [] || w[|w| - 1].end <= r.end
  {
    var w' := w + [r];
    if w != [] && EndsNeverGoBack(w') { assert w'[|w| - 1].end <= w'[|w|].end; }
  }

  lemma SpansOneMore(w: seq<Record>, r: Record)
    requires OneSpanPerHash(w)
    ensures OneSpanPerHash(w + [r]) <==> (r.cmdhash in Hashes(w) ==> SameSpan(First(w, r.cmdhash), r))
  {
    var w' := w + [r];
    HashesAreThoseRecorded(w, r.cmdhash);
    if r.cmdhash in Hashes(w) {
      var f := FirstIsRecorded(w, r.cmdhash);
      if OneSpanPerHash(w') {
        assert w'[f].cmdhash == w'[|w|].cmdhash;
      } else if SameSpan(w[f], r) {
        forall i | 0 <= i < |w| && w[i].cmdhash == r.cmdhash ensures SameSpan(w[i], r) {
          if f < i { assert SameSpan(w[f], w[i]); }
        }
      }
    }
  }

  lemma PrefixOfOneBuild(w: seq<Record>, n: nat)
    requires n <= |w| && EndsNeverGoBack(w) && OneSpanPerHash(w)
    ensures EndsNeverGoBack(w[..n]) && OneSpanPerHash(w[..n])
  {}

  /** One build: end times never go back, and a command has one start and one end. */
  lemma {:induction false} OneBuildIff(w: seq<Record>)
    ensures OneBuild(w) <==> EndsNeverGoBack(w) && OneSpanPerHash(w)
  {
    if w != [] {
      var n := |w| - 1;
      var v := w[..n];
      assert w == v + [w[n]];
      OneBuildIff(v);
      if OneBuild(v) {
        EndsOneMore(v, w[n]);
        SpansOneMore(v, w[n]);
      } else {
        if EndsNeverGoBack(w) && OneSpanPerHash(w) { PrefixOfOneBuild(w, n); }
      }
    }
  }

  // ---------- the groups, one record at a time ----------

  /** What is stored for a command: its first record and the names of all of them. */
  datatype Group = Group(hash: string, first: Record, names: seq<string>)

  /** The place of the group with a hash, or the number of groups. */
  function FindGroup(gs: seq<Group>, h: string): (i: nat)
    ensures i <= |gs| && (i < |gs| ==> gs[i].hash == h)
    ensures forall j :: 0 <= j < i ==> gs[j].hash != h
  {
    if gs == [] then 0 else if gs[0].hash == h then 0 else 1 + FindGroup(gs[1..], h)
  }

  /** Create the group of a new command if needed, and append the name to it. */
  function Added(gs: seq<Group>, r: Record): seq<Group> {
    var i := FindGroup(gs, r.cmdhash);
    if i == |gs| then gs + [Group(r.cmdhash, r, [r.name])]
    else gs[i := gs[i].(names := gs[i].names + [r.name])]
  }

  function Groups(w: seq<Record>): seq<Group> {
    if w == [] then [] else Added(Groups(w[..|w| - 1]), w[|w| - 1])
  }

  /** The tests for a new build: an end time that goes back, or other times for a known command. */
  predicate StartsNewBuild(gs: seq<Group>, lastEndSeen: real, r: Record) {
    || Seconds(r.end) < lastEndSeen
    || (var i := FindGroup(gs, r.cmdhash);
        i < |gs| && (Seconds(gs[i].first.start) != Seconds(r.start) || Seconds(gs[i].first.end) != Seconds(r.end)))
  }

  datatype State = State(groups: seq<Group>, lastEndSeen: real)

  /** One line of the log. */
  function Step(s: State, line: Line, showAll: bool): State {
    if !line.WellFormed? then s
    else
      var kept := if !showAll && StartsNewBuild(s.groups, s.lastEndSeen, line.record) then [] else s.groups;
      State(Added(kept, line.record), Seconds(line.record.end))
  }

  /** The state of the loop behind the first n lines. */
  function StateAfter(lines: seq<Line>, n: nat, showAll: bool): State
    requires n <= |lines|
  {
    if n == 0 then State([], 0.0) else Step(StateAfter(lines, n - 1, showAll), lines[n - 1], showAll)
  }

  // ---------- the groups are those of the kept records ----------

  lemma KeptOneMore(rs: seq<Record>, r: Record, showAll: bool)
    ensures var w := Kept(rs, showAll); Kept(rs + [r], showAll) == if showAll || Continues(w, r) then w + [r] else [r]
  {
    assert (rs + [r])[..|rs|] == rs;
  }

  lemma GroupsOneMore(w: seq<Record>, r: Record)
    ensures Groups(w + [r]) == Added(Groups(w), r)
  {
    assert (w + [r])[..|w|] == w;
  }

  lemma {:induction false} NoNamesBeforeFirst(w: seq<Record>, h: string)
    requires h !in Hashes(w)
    ensures NamesOf(w, h) == []
  {
    if w != [] { NoNamesBeforeFirst(w[..|w| - 1], h); }
  }

  /** Group i is that of the hash that was recorded as number i. */
  ghost predicate GroupsMatch(gs: seq<Group>, w: seq<Record>) {
    && |gs| == |Hashes(w)|
    && forall i :: 0 <= i < |gs| ==> gs[i] == Group(Hashes(w)[i], First(w, Hashes(w)[i]), NamesOf(w, Hashes(w)[i]))
  }

  lemma FoundGroup(gs: seq<Group>, w: seq<Record>, h: string)
    requires GroupsMatch(gs, w)
    ensures FindGroup(gs, h) < |gs| <==> h in Hashes(w)
    ensures FindGroup(gs, h) < |gs| ==> gs[FindGroup(gs, h)].first == First(w, h)
  {
    if h in Hashes(w) {
      var j :| 0 <= j < |Hashes(w)| && Hashes(w)[j] == h;
      assert gs[j].hash == h;
    }
  }

  /** The groups hold, for each hash in order, its first record and its names. */
  lemma {:induction false} GroupsAre(w: seq<Record>)
    ensures GroupsMatch(Groups(w), w)
  {
    if w != [] {
      var n := |w| - 1;
      var v, r, gs := w[..n], w[n], Groups(w[..n]);
      GroupsAre(v);
      FoundGroup(gs, v, r.cmdhash);
      if r.cmdhash !in Hashes(v) { NoNamesBeforeFirst(v, r.cmdhash); }
      assert |Groups(w)| == |Hashes(w)|;
      forall i | 0 <= i < |Groups(w)|
        ensures Groups(w)[i] == Group(Hashes(w)[i], First(w, Hashes(w)[i]), NamesOf(w, Hashes(w)[i]))
      {
        if i < |gs| { assert Hashes(w)[i] == Hashes(v)[i] && Hashes(v)[i] in Hashes(v); }
      }
    }
  }

  lemma LastKept(rs: seq<Record>, showAll: bool)
    ensures Kept(rs, showAll) == [] <==> rs == []
    ensures rs != [] ==> Kept(rs, showAll)[|Kept(rs, showAll)| - 1] == rs[|rs| - 1]
  {}

  /** The tests on one line decide whether the build goes on. */
  lemma TestsDecide(w: seq<Record>, r: Record, lastEndSeen: real)
    requires w != [] ==> lastEndSeen == Seconds(w[|w| - 1].end)
    ensures w != [] ==> (StartsNewBuild(Groups(w), lastEndSeen, r) <==> !Continues(w, r))
  {
    GroupsAre(w);
    FoundGroup(Groups(w), w, r.cmdhash);
  }

  ghost predicate IsGroupingOf(s: State, rs: seq<Record>, showAll: bool) {
    && s.groups == Groups(Kept(rs, showAll))
    && s.lastEndSeen == if rs == [] then 0.0 else Seconds(rs[|rs| - 1].end)
  }

  lemma GroupingStep(s: State, rs: seq<Record>, r: Record, showAll: bool)
    requires IsGroupingOf(s, rs, showAll)
    ensures IsGroupingOf(Step(s, WellFormed(r), showAll), rs + [r], showAll)
  {
    var w := Kept(rs, showAll);
    LastKept(rs, showAll);
    KeptOneMore(rs, r, showAll);
    TestsDecide(w, r, s.lastEndSeen);
    GroupsOneMore(w, r);
    GroupsOneMore([], r);
    assert [] + [r] == [r];
  }

  /** The loop keeps exactly the groups of the kept records. */
  lemma {:induction false} StateIsGrouping(lines: seq<Line>, n: nat, showAll: bool)
    requires n <= |lines|
    ensures IsGroupingOf(StateAfter(lines, n, showAll), RecordsUpTo(lines, n), showAll)
  {
    if n == 0 {
      assert Kept([], showAll) == [];
    } else {
      var before, rs, line := StateAfter(lines, n - 1, showAll), RecordsUpTo(lines, n - 1), lines[n - 1];
      StateIsGrouping(lines, n - 1, showAll);
      assert StateAfter(lines, n, showAll) == Step(before, line, showAll);
      if line.WellFormed? {
        assert RecordsUpTo(lines, n) == rs + [line.record];
        GroupingStep(before, rs, line.record, showAll);
        assert line == WellFormed(line.record);
      } else {
        assert RecordsUpTo(lines, n) == rs && Step(before, line, showAll) == before;
      }
    }
  }

  // ---------- ReadTargets ----------

  /** targets_dict: the keys in the order of their insertion, and their values. */
  datatype Dict = Dict(keys: seq<string>, values: seq<Target>)

  const EMPTY := Dict([], [])

  ghost predicate HoldsGroup(t: Target, g: Group)
    reads t
  {
    t.start == Seconds(g.first.start) && t.end == Seconds(g.first.end) && t.targets == g.names
  }

  /** The dictionary holds the groups, each in an object of its own. */
  ghost predicate HoldsGroups(dict: Dict, gs: seq<Group>)
    reads dict.values
  {
    && |dict.keys| == |dict.values| == |gs| && Distinct(dict.values)
    && forall i :: 0 <= i < |gs| ==> dict.keys[i] == gs[i].hash && HoldsGroup(dict.values[i], gs[i])
  }

  ghost predicate HoldsState(dict: Dict, lastEndSeen: real, s: State)
    reads dict.values
  {
    HoldsGroups(dict, s.groups) && lastEndSeen == s.lastEndSeen
  }

  predicate Is(ts: seq<Target>, j: nat, t: Target) { j < |ts| && ts[j] == t }

  method FindKey(dict: Dict, h: string, ghost gs: seq<Group>) returns (i: nat)
    requires HoldsGroups(dict, gs)
    ensures i == FindGroup(gs, h)
  {
    i := 0;
    while i < |dict.keys| && dict.keys[i] != h
      invariant i <= |dict.keys| && forall j :: 0 <= j < i ==> dict.keys[j] != h
    {
      i := i + 1;
    }
    ghost var k := FindGroup(gs, h);
    assert k < |gs| ==> dict.keys[k] == h;
    assert i < |gs| ==> gs[i].hash == h;
  }

  /** The reset tests for one well-formed line. */
  method ResetIfNewBuild(dict: Dict, lastEndSeen: real, record: Record, showAll: bool, ghost gs: seq<Group>)
    returns (dict': Dict, ghost kept: seq<Group>)
    requires HoldsGroups(dict, gs)
    ensures HoldsGroups(dict', kept) && kept == if !showAll && StartsNewBuild(gs, lastEndSeen, record) then [] else gs
    ensures dict' == dict || dict' == EMPTY
  {
    dict', kept := dict, gs;
    if !showAll && Seconds(record.end) < lastEndSeen {
      dict', kept := EMPTY, [];
    }
    var i := FindKey(dict', record.cmdhash, kept);
    if i < |dict'.keys| {
      var target := dict'.values[i];
      assert HoldsGroup(target, kept[i]);
      if !showAll && (target.start != Seconds(record.start) || target.end != Seconds(record.end)) {
        dict', kept := EMPTY, [];
      }
    }
  }

  /** Create the target of a new command if needed, and append the name to it. */
  method AddRecord(dict: Dict, r: Record, ghost gs: seq<Group>) returns (dict': Dict)
    requires HoldsGroups(dict, gs)
    modifies dict.values
    ensures HoldsGroups(dict', Added(gs, r))
    ensures forall j :: 0 <= j < |dict'.values| ==> Is(dict.values, j, dict'.values[j]) || fresh(dict'.values[j])
  {
    dict' := dict;
    var i := FindKey(dict, r.cmdhash, gs);
    if i == |dict.keys| {
      var target := new Target(Seconds(r.start), Seconds(r.end));
      dict' := Dict(dict.keys + [r.cmdhash], dict.values + [target]);
    }
    var target := dict'.values[i];
    target.targets := target.targets + [r.name];
  }

  /** One line that is not a bad number; a corrupt one is skipped. */
  method TakeLine(dict: Dict, lastEndSeen: real, lines: seq<Line>, i: nat, showAll: bool)
    returns (dict': Dict, lastEndSeen': real)
    requires i < |lines| && !lines[i].BadNumber? && HoldsState(dict, lastEndSeen, StateAfter(lines, i, showAll))
    modifies dict.values
    ensures HoldsState(dict', lastEndSeen', StateAfter(lines, i + 1, showAll))
    ensures forall j :: 0 <= j < |dict'.values| ==> Is(dict.values, j, dict'.values[j]) || fresh(dict'.values[j])
  {
    dict', lastEndSeen' := dict, lastEndSeen;
    if lines[i].WellFormed? {
      ghost var kept;
      dict', kept := ResetIfNewBuild(dict, lastEndSeen, lines[i].record, showAll, StateAfter(lines, i, showAll).groups);
      dict' := AddRecord(dict', lines[i].record, kept);
      lastEndSeen' := Seconds(lines[i].record.end);
    }
  }

  /** The loop over the lines; not ok is the ValueError of int(). */
  method ReadLines(lines: seq<Line>, showAll: bool) returns (ok: bool, dict: Dict)
    ensures ok <==> forall j :: 0 <= j < |lines| ==> !lines[j].BadNumber?
    ensures ok ==> HoldsGroups(dict, StateAfter(lines, |lines|, showAll).groups)
    ensures forall j :: 0 <= j < |dict.values| ==> fresh(dict.values[j])
  {
    dict := EMPTY;
    var lastEndSeen := 0.0;
    var i := 0;
    while i < |lines|
      invariant i <= |lines|
      invariant forall j :: 0 <= j < i ==> !lines[j].BadNumber?
      invariant HoldsState(dict, lastEndSeen, StateAfter(lines, i, showAll))
      invariant forall j :: 0 <= j < |dict.values| ==> fresh(dict.values[j])
    {
      if lines[i].BadNumber? { return false, dict; }
      dict, lastEndSeen := TakeLine(dict, lastEndSeen, lines, i, showAll);
      i := i + 1;
    }
    ok := true;
  }

  lemma HeldGroupsAreGrouped(dict: Dict, gs: seq<Group>, w: seq<Record>)
    requires HoldsGroups(dict, gs) && GroupsMatch(gs, w)
    ensures Grouped(dict.values, w)
  {
    forall i | 0 <= i < |dict.values| ensures IsGroup(dict.values[i], w, Hashes(w)[i]) {
      assert HoldsGroup(dict.values[i], gs[i]);
    }
  }

  /**
    The targets are the grouping of the kept records: all of them with show_all, otherwise those
    of the last build. The objects are new and distinct.
   */
  method ReadTargets(header: string, lines: seq<Line>, showAll: bool) returns (r: ReadResult)
    ensures r.AssertionError? <==> header != HEADER
    ensures r.ValueError? <==> header == HEADER && exists j :: 0 <= j < |lines| && lines[j].BadNumber?
    ensures r.Targets? ==> Grouped(r.targets, Kept(Records(lines), showAll))
    ensures r.Targets? ==> forall i :: 0 <= i < |r.targets| ==> fresh(r.targets[i])
  {
    if header != HEADER { return AssertionError; }
    var ok, dict := ReadLines(lines, showAll);
    if !ok { return ValueError; }
    StateIsGrouping(lines, |lines|, showAll);
    GroupsAre(Kept(Records(lines), showAll));
    HeldGroupsAreGrouped(dict, Groups(Kept(Records(lines), showAll)), Kept(Records(lines), showAll));
    r := Targets(dict.values);
  }

  // ---------- the whole report ----------

  /** Every record of the reported build has the start and end its command is reported with. */
  lemma GroupHasItsRecordsSpan(w: seq<Record>, i: nat)
    requires OneBuild(w) && i < |w|
    ensures w[i].cmdhash in Hashes(w)
    ensures First(w, w[i].cmdhash).start == w[i].start && First(w, w[i].cmdhash).end == w[i].end
  {
    OneBuildIff(w);
    HashesAreThoseRecorded(w, w[i].cmdhash);
    var f := FirstIsRecorded(w, w[i].cmdhash);
  }

  ghost predicate WellTimedRecords(rs: seq<Record>) {
    forall i :: 0 <= i < |rs| ==> 0 <= rs[i].start <= rs[i].end
  }

  lemma GroupsAreWellTimed(ts: seq<Target>, w: seq<Record>)
    requires WellTimedRecords(w) && Grouped(ts, w)
    ensures WellTimed(Intervals(ts)) && BuildEvents.NonNegativeStarts(Intervals(ts))
  {
    forall i | 0 <= i < |ts| ensures 0.0 <= ts[i].start <= ts[i].end {
      assert IsGroup(ts[i], w, Hashes(w)[i]);
      var f := FirstIsRecorded(w, Hashes(w)[i]);
      assert 0 <= w[f].start <= w[f].end;
    }
  }

  /**
    main, on a log that could be opened: a log whose records never end before they start, from
    time 0 on, is summarized without an exception, and its weighted total is at most its length.
   */
  method ReportBuild(header: string, lines: seq<Line>) returns (read: ReadResult, r: Outcome)
    ensures read.Targets? && WellTimedRecords(Records(lines)) && Records(lines) != [] ==>
      r.Summary? && 0.0 <= r.weightedTotal <= r.length
    ensures read.Targets? ==> (r.IndexError? <==> Records(lines) == [])
  {
    r := IndexError;
    read := ReadTargets(header, lines, false);
    if read.Targets? {
      ghost var w := Kept(Records(lines), false);
      ghost var xs := Intervals(read.targets);
      assert xs == [] <==> Records(lines) == [];
      if WellTimedRecords(Records(lines)) {
        KeptIsSuffix(Records(lines));
        GroupsAreWellTimed(read.targets, w);
        if xs != [] {
          NonNegativeWindowIsExact(xs);
          WeightedTotalAtMostLength(xs);
        }
      }
      r := SummarizeEntries(read.targets);
    }
  }
}
