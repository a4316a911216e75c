/**
  Merging streamed outputs: RequestOutput.add of vllm/outputs.py, on values.
 */
module OutputMerging {
  import opened Options

  /** One completion; a log probability is opaque here, an entry of a list. */
  datatype Completion = Completion(index: int, text: string, tokenIds: seq<int>, cumulativeLogprob: Option<real>,
                                   logprobs: Option<seq<int>>, finishReason: Option<string>, stopReason: Option<string>)

  datatype Output = Output(finished: bool, kvTransferParams: Option<int>, outputs: seq<Completion>)

  predicate HasValues(c: Completion) { c.logprobs.Some? && c.logprobs.value != [] }

  /** The assertion: log probabilities arrive for a completion that has none. */
  predicate Clashes(c: Completion, next: Completion) { HasValues(next) && c.logprobs.None? }

  /** A later piece of the same completion is appended; its scalar fields replace the earlier ones. */
  function Combine(c: Completion, next: Completion): Completion {
    Completion(c.index, c.text + next.text, c.tokenIds + next.tokenIds, next.cumulativeLogprob,
               if c.logprobs.Some? && next.logprobs.Some? then Some(c.logprobs.value + next.logprobs.value)
               else c.logprobs,
               next.finishReason, next.stopReason)
  }

  /** The position of the first completion with this index, or the length. */
  function Find(outs: seq<Completion>, index: int): (i: nat)
    ensures i <= |outs| && (i < |outs| ==> outs[i].index == index)
    ensures forall j :: 0 <= j < i ==> outs[j].index != index
  {
    if outs == [] then 0 else if outs[0].index == index then 0 else 1 + Find(outs[1..], index)
  }

  function MergeOne(outs: seq<Completion>, next: Completion, aggregate: bool): seq<Completion> {
    var i := Find(outs, next.index);
    if i == |outs| then outs + [next]
    else if aggregate then outs[i := Combine(outs[i], next)]
    else outs[i := next]
  }

  function MergeAll(outs: seq<Completion>, nexts: seq<Completion>, aggregate: bool): seq<Completion> {
    if nexts == [] then outs
    else MergeOne(MergeAll(outs, nexts[..|nexts| - 1], aggregate), nexts[|nexts| - 1], aggregate)
  }

  function Add(a: Output, b: Output, aggregate: bool): Output {
    Output(a.finished || b.finished, b.kvTransferParams, MergeAll(a.outputs, b.outputs, aggregate))
  }

  /** Merging one completion does not hit the assertion. */
  predicate StepsCleanly(outs: seq<Completion>, next: Completion, aggregate: bool) {
    var i := Find(outs, next.index);
    aggregate && i < |outs| ==> !Clashes(outs[i], next)
  }

  /** The merge of nexts into outs hits the assertion at none of its steps. */
  predicate MergesCleanly(outs: seq<Completion>, nexts: seq<Completion>, aggregate: bool) {
    if nexts == [] then true
    else
      var n := |nexts| - 1;
      && MergesCleanly(outs, nexts[..n], aggregate)
      && StepsCleanly(MergeAll(outs, nexts[..n], aggregate), nexts[n], aggregate)
  }

  ghost predicate UniqueIndices(outs: seq<Completion>) {
    forall i, j :: 0 <= i < j < |outs| ==> outs[i].index != outs[j].index
  }

  /** Log probabilities are requested for all completions, or for none. */
  ghost predicate Uniform(outs: seq<Completion>, present: bool) {
    forall i :: 0 <= i < |outs| ==> outs[i].logprobs.Some? == present
  }

  // ---------- one step ----------

  lemma MergeOneKeeps(outs: seq<Completion>, next: Completion, present: bool)
    ensures UniqueIndices(outs) ==> UniqueIndices(MergeOne(outs, next, true))
    ensures Uniform(outs, present) && Uniform([next], present) ==> Uniform(MergeOne(outs, next, true), present)
  {
    var i := Find(outs, next.index);
    if i == |outs| {
      assert forall j :: 0 <= j < |outs| ==> outs[j].index != next.index;
    }
    if Uniform([next], present) { assert [next][0].logprobs.Some? == present; }
  }

  lemma {:induction false} MergeAllKeeps(outs: seq<Completion>, nexts: seq<Completion>, present: bool)
    ensures UniqueIndices(outs) ==> UniqueIndices(MergeAll(outs, nexts, true))
    ensures Uniform(outs, present) && Uniform(nexts, present) ==> Uniform(MergeAll(outs, nexts, true), present)
  {
    if nexts != [] {
      var n := |nexts| - 1;
      MergeAllKeeps(outs, nexts[..n], present);
      MergeOneKeeps(MergeAll(outs, nexts[..n], true), nexts[n], present);
      if Uniform(nexts, present) {
        assert nexts[n].logprobs.Some? == present && Uniform([nexts[n]], present);
        assert forall i :: 0 <= i < n ==> nexts[..n][i] == nexts[i];
      }
    }
  }

  /** With uniform log probabilities the assertion cannot fail. */
  lemma {:induction false} UniformMergesCleanly(outs: seq<Completion>, nexts: seq<Completion>, present: bool)
    requires Uniform(outs, present) && Uniform(nexts, present)
    ensures MergesCleanly(outs, nexts, true)
  {
    if nexts != [] {
      var n := |nexts| - 1;
      assert forall i :: 0 <= i < n ==> nexts[..n][i] == nexts[i];
      UniformMergesCleanly(outs, nexts[..n], present);
      MergeAllKeeps(outs, nexts[..n], present);
    }
  }

  // ---------- two pieces of one completion ----------

  /** A list is there, a piece without one comes, and then one that brings values. */
  predicate Hides(x: Completion, d: Completion, e: Completion) {
    x.logprobs.Some? && d.logprobs.None? && HasValues(e)
  }

  /** Exactly then it matters whether the two pieces are merged one by one or combined first. */
  lemma CombineAssociatesIff(x: Completion, d: Completion, e: Completion)
    ensures Combine(Combine(x, d), e) == Combine(x, Combine(d, e)) <==> !Hides(x, d, e)
  {
    assert (x.text + d.text) + e.text == x.text + (d.text + e.text);
    assert (x.tokenIds + d.tokenIds) + e.tokenIds == x.tokenIds + (d.tokenIds + e.tokenIds);
    if x.logprobs.Some? && d.logprobs.Some? && e.logprobs.Some? {
      var p, q, r := x.logprobs.value, d.logprobs.value, e.logprobs.value;
      assert (p + q) + r == p + (q + r);
    }
    if x.logprobs.Some? && d.logprobs.None? && e.logprobs.Some? {
      var p, r := x.logprobs.value, e.logprobs.value;
      assert Combine(Combine(x, d), e).logprobs == Some(p + r) && Combine(x, Combine(d, e)).logprobs == Some(p);
      assert if r == [] then p + r == p else |p + r| > |p|;
    }
  }

  /** The piece d would hide e from the completion that outs holds. */
  predicate HidesAt(outs: seq<Completion>, d: Completion, e: Completion) {
    var i := Find(outs, e.index);
    i < |outs| && Hides(outs[i], d, e)
  }

  /** Once merged, a completion is found where it was, or at the end. */
  lemma FindAfterMerge(outs: seq<Completion>, d: Completion)
    ensures Find(MergeOne(outs, d, true), d.index) == Find(outs, d.index)
  {
    var merged, i := MergeOne(outs, d, true), Find(outs, d.index);
    assert merged[i].index == d.index;
    assert forall j :: 0 <= j < i ==> merged[j].index == outs[j].index;
  }

  lemma MergeTwoPieces(outs: seq<Completion>, d: Completion, e: Completion)
    requires d.index == e.index
    ensures !HidesAt(outs, d, e) ==>
              MergeOne(MergeOne(outs, d, true), e, true) == MergeOne(outs, Combine(d, e), true)
    ensures !Clashes(d, e) && StepsCleanly(outs, Combine(d, e), true)
       <==> && StepsCleanly(outs, d, true) && StepsCleanly(MergeOne(outs, d, true), e, true)
            && !HidesAt(outs, d, e)
  {
    var i := Find(outs, d.index);
    FindAfterMerge(outs, d);
    if i < |outs| { CombineAssociatesIff(outs[i], d, e); }
  }

  /** Merging another completion does not move the one that is there. */
  lemma FindPastOther(outs: seq<Completion>, d: Completion, index: int)
    requires d.index != index && Find(outs, index) < |outs|
    ensures Find(MergeOne(outs, d, true), index) == Find(outs, index)
  {
    var merged, i := MergeOne(outs, d, true), Find(outs, index);
    assert merged[i].index == index;
    assert forall j :: 0 <= j < i ==> merged[j].index == outs[j].index;
  }

  lemma UpdatesCommute<T>(s: seq<T>, i: nat, x: T, j: nat, y: T)
    requires i < |s| && j < |s| && i != j
    ensures s[i := x][j := y] == s[j := y][i := x]
  {}

  lemma NotFoundAfterMerge(outs: seq<Completion>, index: int, e: Completion)
    requires Find(outs, index) == |outs| && Find(outs, e.index) < |outs|
    ensures Find(MergeOne(outs, e, true), index) == |outs|
  {
    var withE := MergeOne(outs, e, true);
    assert forall k :: 0 <= k < |withE| ==> withE[k].index == outs[k].index;
  }

  /** Merges of different completions commute, when the second one is already there. */
  lemma MergesCommute(outs: seq<Completion>, d: Completion, e: Completion)
    requires d.index != e.index && Find(outs, e.index) < |outs|
    ensures MergeOne(MergeOne(outs, d, true), e, true) == MergeOne(MergeOne(outs, e, true), d, true)
    ensures Find(MergeOne(outs, d, true), e.index) < |MergeOne(outs, d, true)|
  {
    var i, j := Find(outs, e.index), Find(outs, d.index);
    FindPastOther(outs, d, e.index);
    if j < |outs| {
      FindPastOther(outs, e, d.index);
      UpdatesCommute(outs, i, Combine(outs[i], e), j, Combine(outs[j], d));
    } else {
      NotFoundAfterMerge(outs, d.index, e);
      assert (outs + [d])[i := Combine(outs[i], e)] == outs[i := Combine(outs[i], e)] + [d];
    }
  }

  // ---------- merges of different completions ----------

  lemma {:induction false} MergeAllConcat(outs: seq<Completion>, a: seq<Completion>, b: seq<Completion>)
    ensures MergeAll(outs, a + b, true) == MergeAll(MergeAll(outs, a, true), b, true)
  {
    if b == [] {
      assert a + b == a;
    } else {
      assert (a + b)[..|a + b| - 1] == a + b[..|b| - 1];
      MergeAllConcat(outs, a, b[..|b| - 1]);
    }
  }

  /** A piece of a completion that is there can be merged before others with different indices. */
  lemma {:induction false} MergePastOthers(outs: seq<Completion>, others: seq<Completion>, e: Completion)
    requires Find(outs, e.index) < |outs| && forall k :: 0 <= k < |others| ==> others[k].index != e.index
    ensures MergeOne(MergeAll(outs, others, true), e, true) == MergeAll(MergeOne(outs, e, true), others, true)
    ensures Find(MergeAll(outs, others, true), e.index) < |MergeAll(outs, others, true)|
  {
    if others != [] {
      var n := |others| - 1;
      MergePastOthers(outs, others[..n], e);
      MergesCommute(MergeAll(outs, others[..n], true), others[n], e);
    }
  }

  lemma {:induction false} CleanConcat(outs: seq<Completion>, a: seq<Completion>, b: seq<Completion>)
    ensures MergesCleanly(outs, a + b, true)
       <==> MergesCleanly(outs, a, true) && MergesCleanly(MergeAll(outs, a, true), b, true)
  {
    if b == [] {
      assert a + b == a;
    } else {
      var n := |b| - 1;
      assert (a + b)[..|a + b| - 1] == a + b[..n];
      CleanConcat(outs, a, b[..n]);
      MergeAllConcat(outs, a, b[..n]);
    }
  }

  ghost predicate NoneHas(outs: seq<Completion>, index: int) {
    forall k :: 0 <= k < |outs| ==> outs[k].index != index
  }

  lemma NotFoundIff(outs: seq<Completion>, index: int)
    ensures Find(outs, index) == |outs| <==> NoneHas(outs, index)
  {}

  lemma NoneHasPrefix(outs: seq<Completion>, index: int, n: nat)
    requires n <= |outs| && NoneHas(outs, index)
    ensures NoneHas(outs[..n], index)
  {}

  lemma OtherIsUntouched(outs: seq<Completion>, d: Completion, index: int)
    requires d.index != index
    ensures var i, merged := Find(outs, index), MergeOne(outs, d, true);
            if i < |outs| then Find(merged, index) == i < |merged| && merged[i] == outs[i]
            else Find(merged, index) == |merged|
  {
    var i, merged := Find(outs, index), MergeOne(outs, d, true);
    if i < |outs| {
      FindPastOther(outs, d, index);
    } else {
      NotFoundIff(outs, index);
      NotFoundIff(merged, index);
      assert forall j :: 0 <= j < |outs| ==> merged[j].index == outs[j].index;
    }
  }

  /** Merging others leaves a completion where and as it is. */
  lemma {:induction false} UntouchedByOthers(outs: seq<Completion>, others: seq<Completion>, index: int)
    requires NoneHas(others, index)
    ensures var i, merged := Find(outs, index), MergeAll(outs, others, true);
            if i < |outs| then Find(merged, index) == i < |merged| && merged[i] == outs[i]
            else Find(merged, index) == |merged|
  {
    if others != [] {
      var n := |others| - 1;
      NoneHasPrefix(others, index, n);
      UntouchedByOthers(outs, others[..n], index);
      OtherIsUntouched(MergeAll(outs, others[..n], true), others[n], index);
    }
  }

  /** Whether others merge cleanly does not depend on a piece of a completion that is there. */
  lemma {:induction false} CleanPastPiece(outs: seq<Completion>, others: seq<Completion>, e: Completion)
    requires Find(outs, e.index) < |outs| && NoneHas(others, e.index)
    ensures MergesCleanly(outs, others, true) <==> MergesCleanly(MergeOne(outs, e, true), others, true)
  {
    if others != [] {
      var n := |others| - 1;
      NoneHasPrefix(others, e.index, n);
      CleanPastPiece(outs, others[..n], e);
      MergePastOthers(outs, others[..n], e);
      OtherIsUntouched(MergeAll(outs, others[..n], true), e, others[n].index);
    }
  }

  // ---------- one piece merged into the right operand ----------

  lemma PieceAroundRest(m: seq<Completion>, d: Completion, e: Completion, rest: seq<Completion>)
    requires d.index == e.index && NoneHas(rest, e.index)
    ensures !HidesAt(m, d, e) ==>
              MergeAll(MergeOne(m, Combine(d, e), true), rest, true)
              == MergeOne(MergeAll(MergeOne(m, d, true), rest, true), e, true)
    ensures && !Clashes(d, e) && StepsCleanly(m, Combine(d, e), true)
            && MergesCleanly(MergeOne(m, Combine(d, e), true), rest, true)
       <==> && StepsCleanly(m, d, true) && MergesCleanly(MergeOne(m, d, true), rest, true)
            && StepsCleanly(MergeAll(MergeOne(m, d, true), rest, true), e, true) && !HidesAt(m, d, e)
  {
    var p := MergeOne(m, d, true);
    MergeTwoPieces(m, d, e);
    FindAfterMerge(m, d);
    MergePastOthers(p, rest, e);
    CleanPastPiece(p, rest, e);
    UntouchedByOthers(p, rest, e.index);
  }

  lemma MergeFrontPieceRest(outs: seq<Completion>, front: seq<Completion>, d: Completion, rest: seq<Completion>)
    ensures MergeAll(outs, front + ([d] + rest), true) ==
      MergeAll(MergeOne(MergeAll(outs, front, true), d, true), rest, true)
  {
    MergeAllConcat(outs, front, [d] + rest);
    MergeAllConcat(MergeAll(outs, front, true), [d], rest);
    assert [d][..0] == [];
  }

  lemma CleanFrontPieceRest(outs: seq<Completion>, front: seq<Completion>, d: Completion, rest: seq<Completion>)
    ensures MergesCleanly(outs, front + ([d] + rest), true)
       <==> && MergesCleanly(outs, front, true) && StepsCleanly(MergeAll(outs, front, true), d, true)
            && MergesCleanly(MergeOne(MergeAll(outs, front, true), d, true), rest, true)
  {
    var m := MergeAll(outs, front, true);
    CleanConcat(outs, front, [d] + rest);
    CleanConcat(m, [d], rest);
    assert [d][..0] == [];
  }

  lemma SplitBehind(outs: seq<Completion>, front: seq<Completion>, d: Completion, rest: seq<Completion>, e: Completion)
    requires d.index == e.index && NoneHas(front, e.index) && NoneHas(rest, e.index)
    ensures !HidesAt(outs, d, e) ==>
              MergeAll(outs, front + ([Combine(d, e)] + rest), true)
              == MergeOne(MergeAll(outs, front + ([d] + rest), true), e, true)
    ensures !Clashes(d, e) && MergesCleanly(outs, front + ([Combine(d, e)] + rest), true)
       <==> && MergesCleanly(outs, front + ([d] + rest), true)
            && StepsCleanly(MergeAll(outs, front + ([d] + rest), true), e, true) && !HidesAt(outs, d, e)
  {
    MergeFrontPieceRest(outs, front, d, rest);
    MergeFrontPieceRest(outs, front, Combine(d, e), rest);
    CleanFrontPieceRest(outs, front, d, rest);
    CleanFrontPieceRest(outs, front, Combine(d, e), rest);
    UntouchedByOthers(outs, front, e.index);
    PieceAroundRest(MergeAll(outs, front, true), d, e, rest);
  }

  lemma SplitsAround<T>(s: seq<T>, i: nat, x: T)
    requires i < |s|
    ensures s == s[..i] + ([s[i]] + s[i + 1..]) && s[i := x] == s[..i] + ([x] + s[i + 1..])
  {}

  /** A completion of b has no list of its own and would hide e from a. */
  predicate HidesStep(a: seq<Completion>, b: seq<Completion>, e: Completion) {
    var j := Find(b, e.index);
    j < |b| && HidesAt(a, b[j], e)
  }

  /** Merging one piece into the right operand, or behind it: equal, and equally clean, unless it is hidden. */
  lemma MergeOneBehind(outs: seq<Completion>, d: seq<Completion>, e: Completion)
    requires UniqueIndices(d)
    ensures !HidesStep(outs, d, e) ==>
              MergeAll(outs, MergeOne(d, e, true), true) == MergeOne(MergeAll(outs, d, true), e, true)
    ensures StepsCleanly(d, e, true) && MergesCleanly(outs, MergeOne(d, e, true), true)
       <==> && MergesCleanly(outs, d, true) && StepsCleanly(MergeAll(outs, d, true), e, true)
            && !HidesStep(outs, d, e)
  {
    var i := Find(d, e.index);
    if i == |d| {
      assert (d + [e])[..|d|] == d;
    } else {
      var front, rest := d[..i], d[i + 1..];
      SplitsAround(d, i, Combine(d[i], e));
      assert NoneHas(rest, e.index) by {
        forall k | 0 <= k < |rest| ensures rest[k].index != e.index { assert rest[k] == d[i + 1 + k]; }
      }
      SplitBehind(outs, front, d[i], rest, e);
    }
  }

  // ---------- single entries of a merge ----------

  /** A completion whose index is not brought stays in its place, also when others share the index. */
  lemma {:induction false} KeptInPlace(outs: seq<Completion>, nexts: seq<Completion>, i: nat)
    requires i < |outs| && NoneHas(nexts, outs[i].index)
    ensures i < |MergeAll(outs, nexts, true)| && MergeAll(outs, nexts, true)[i] == outs[i]
  {
    if nexts != [] {
      NoneHasPrefix(nexts, outs[i].index, |nexts| - 1);
      KeptInPlace(outs, nexts[..|nexts| - 1], i);
    }
  }

  lemma RestHasNone(nexts: seq<Completion>, k: nat)
    requires k < |nexts| && UniqueIndices(nexts)
    ensures NoneHas(nexts[..k], nexts[k].index) && NoneHas(nexts[k + 1..], nexts[k].index)
  {
    var rest := nexts[k + 1..];
    forall l | 0 <= l < |rest| ensures rest[l].index != nexts[k].index { assert rest[l] == nexts[k + 1 + l]; }
  }

  /** A completion whose index is brought once is combined with what is brought. */
  lemma MergedEntry(outs: seq<Completion>, nexts: seq<Completion>, k: nat)
    requires k < |nexts| && UniqueIndices(nexts)
    ensures var i, merged := Find(outs, nexts[k].index), MergeAll(outs, nexts, true);
            && Find(merged, nexts[k].index) < |merged|
            && merged[Find(merged, nexts[k].index)] == (if i < |outs| then Combine(outs[i], nexts[k]) else nexts[k])
            && (i < |outs| ==> Find(merged, nexts[k].index) == i)
  {
    var front, d, rest := nexts[..k], nexts[k], nexts[k + 1..];
    SplitsAround(nexts, k, d);
    RestHasNone(nexts, k);
    MergeFrontPieceRest(outs, front, d, rest);
    UntouchedByOthers(outs, front, d.index);
    FindAfterMerge(MergeAll(outs, front, true), d);
    UntouchedByOthers(MergeOne(MergeAll(outs, front, true), d, true), rest, d.index);
  }

  // ---------- associativity ----------

  predicate LeftIsClean(a: seq<Completion>, b: seq<Completion>, c: seq<Completion>) {
    MergesCleanly(a, b, true) && MergesCleanly(MergeAll(a, b, true), c, true)
  }

  predicate RightIsClean(a: seq<Completion>, b: seq<Completion>, c: seq<Completion>) {
    MergesCleanly(b, c, true) && MergesCleanly(a, MergeAll(b, c, true), true)
  }

  /** Some piece of c is hidden from a by what b, with the pieces in front of it, holds. */
  predicate HidesAlong(a: seq<Completion>, b: seq<Completion>, c: seq<Completion>) {
    if c == [] then false
    else HidesAlong(a, b, c[..|c| - 1]) || HidesStep(a, MergeAll(b, c[..|c| - 1], true), c[|c| - 1])
  }

  lemma {:induction false} GroupingsAlong(a: seq<Completion>, b: seq<Completion>, c: seq<Completion>)
    requires UniqueIndices(b)
    ensures !HidesAlong(a, b, c) ==>
              MergeAll(MergeAll(a, b, true), c, true) == MergeAll(a, MergeAll(b, c, true), true)
    ensures RightIsClean(a, b, c) <==> LeftIsClean(a, b, c) && !HidesAlong(a, b, c)
  {
    if c != [] {
      var n := |c| - 1;
      GroupingsAlong(a, b, c[..n]);
      MergeAllKeeps(b, c[..n], true);
      MergeOneBehind(a, MergeAll(b, c[..n], true), c[n]);
    }
  }

  /** Some index has a list in a, none in b, and values in c. */
  ghost predicate HidesSome(a: seq<Completion>, b: seq<Completion>, c: seq<Completion>) {
    exists k :: 0 <= k < |c| && HidesStep(a, b, c[k])
  }

  lemma HidesSomeStep(a: seq<Completion>, b: seq<Completion>, c: seq<Completion>, n: nat)
    requires |c| == n + 1
    ensures HidesSome(a, b, c) <==> HidesSome(a, b, c[..n]) || HidesStep(a, b, c[n])
  {
    if HidesSome(a, b, c[..n]) {
      var k :| 0 <= k < n && HidesStep(a, b, c[..n][k]);
      assert HidesStep(a, b, c[k]);
    }
    if HidesSome(a, b, c) && !HidesStep(a, b, c[n]) {
      var k :| 0 <= k < |c| && HidesStep(a, b, c[k]);
      assert HidesStep(a, b, c[..n][k]);
    }
  }

  lemma HidesPastOthers(a: seq<Completion>, b: seq<Completion>, others: seq<Completion>, e: Completion)
    requires NoneHas(others, e.index)
    ensures HidesStep(a, MergeAll(b, others, true), e) <==> HidesStep(a, b, e)
  {
    UntouchedByOthers(b, others, e.index);
  }

  lemma {:induction false} HidesAlongIff(a: seq<Completion>, b: seq<Completion>, c: seq<Completion>)
    requires UniqueIndices(c)
    ensures HidesAlong(a, b, c) <==> HidesSome(a, b, c)
  {
    if c != [] {
      var n := |c| - 1;
      HidesAlongIff(a, b, c[..n]);
      HidesPastOthers(a, b, c[..n], c[n]);
      HidesSomeStep(a, b, c, n);
    }
  }

  /**
    The two groupings, with unique indices in b and c: b into a and then c is clean and c into b and
    then into a is too, with the same result, except exactly when some index has a list in a, none in
    b and values in c. Then the second hits the assertion.
   */
  lemma GroupingsAgreeIff(a: seq<Completion>, b: seq<Completion>, c: seq<Completion>)
    requires UniqueIndices(b) && UniqueIndices(c)
    ensures RightIsClean(a, b, c) <==> LeftIsClean(a, b, c) && !HidesSome(a, b, c)
    ensures RightIsClean(a, b, c) || !HidesSome(a, b, c) ==>
              MergeAll(MergeAll(a, b, true), c, true) == MergeAll(a, MergeAll(b, c, true), true)
  {
    GroupingsAlong(a, b, c);
    HidesAlongIff(a, b, c);
  }

  lemma {:induction false} UniformNeverHides(a: seq<Completion>, b: seq<Completion>, c: seq<Completion>, present: bool)
    requires Uniform(a, present) && Uniform(b, present) && Uniform(c, present)
    ensures !HidesAlong(a, b, c)
  {
    if c != [] {
      var n := |c| - 1;
      assert forall k :: 0 <= k < n ==> c[..n][k] == c[k];
      UniformNeverHides(a, b, c[..n], present);
      MergeAllKeeps(b, c[..n], present);
    }
  }

  /** With lists for all or none, streamed pieces may be merged in any grouping, and none clashes. */
  lemma AddAssociates(a: Output, b: Output, c: Output, present: bool)
    requires UniqueIndices(b.outputs)
    requires Uniform(a.outputs, present) && Uniform(b.outputs, present) && Uniform(c.outputs, present)
    ensures Add(Add(a, b, true), c, true) == Add(a, Add(b, c, true), true)
    ensures LeftIsClean(a.outputs, b.outputs, c.outputs) && RightIsClean(a.outputs, b.outputs, c.outputs)
  {
    GroupingsAlong(a.outputs, b.outputs, c.outputs);
    UniformNeverHides(a.outputs, b.outputs, c.outputs, present);
    UniformMergesCleanly(a.outputs, b.outputs, present);
    MergeAllKeeps(a.outputs, b.outputs, present);
    UniformMergesCleanly(MergeAll(a.outputs, b.outputs, true), c.outputs, present);
  }

  /** Without uniform log probabilities the grouping matters: b's missing list hides c's. */
  lemma MixedLogprobsDoNotAssociate()
    ensures var a := [Completion(0, "", [], None, Some([1]), None, None)];
            var b := [Completion(0, "", [], None, None, None, None)];
            var c := [Completion(0, "", [], None, Some([2]), None, None)];
            && MergesCleanly(a, b, true) && MergesCleanly(MergeAll(a, b, true), c, true)
            && !MergesCleanly(b, c, true)
  {
    var a, b := Completion(0, "", [], None, Some([1]), None, None), Completion(0, "", [], None, None, None, None);
    var c := Completion(0, "", [], None, Some([2]), None, None);
    assert [b][..0] == [] && [c][..0] == [];
    assert Find([a], 0) == 0 && Find([b], 0) == 0;
    assert MergeAll([a], [b], true) == MergeOne([a], b, true) == [Combine(a, b)];
    assert Find([Combine(a, b)], 0) == 0;
  }
}
