/**
  RequestOutput and CompletionOutput of vllm/outputs.py as objects: add updates completions in
  place, and appends or replaces by the very objects of the other output.
 */
module RequestOutputs {
  import opened Options
  import opened OutputMerging

  class CompletionOutput {
    const index: int
    var text: string
    var tokenIds: seq<int>
    var cumulativeLogprob: Option<real>
    var logprobs: Option<seq<int>>
    var finishReason: Option<string>
    var stopReason: Option<string>

    function Contents(): Completion
      reads this
    {
      Completion(index, text, tokenIds, cumulativeLogprob, logprobs, finishReason, stopReason)
    }

    constructor (c: Completion)
      ensures Contents() == c
    {
      index, text, tokenIds, cumulativeLogprob := c.index, c.text, c.tokenIds, c.cumulativeLogprob;
      logprobs, finishReason, stopReason := c.logprobs, c.finishReason, c.stopReason;
    }

    /** The aggregating branch of add; not ok is the assertion that this has log probabilities. */
    method Absorb(next: CompletionOutput) returns (ok: bool)
      requires next != this && next.index == index
      modifies this
      ensures ok <==> !Clashes(old(Contents()), next.Contents())
      ensures ok ==> Contents() == Combine(old(Contents()), next.Contents())
    {
      if logprobs.Some? { assert logprobs.value + [] == logprobs.value; }
      text := text + next.text;
      tokenIds := tokenIds + next.tokenIds;
      if next.logprobs.Some? && next.logprobs.value != [] {
        if logprobs.None? { return false; }
        logprobs := Some(logprobs.value + next.logprobs.value);
      }
      cumulativeLogprob := next.cumulativeLogprob;
      finishReason := next.finishReason;
      stopReason := next.stopReason;
      ok := true;
    }
  }

  ghost predicate DistinctObjects(outs: seq<CompletionOutput>) {
    forall i, j :: 0 <= i < j < |outs| ==> outs[i] != outs[j]
  }

  /** No object of the one list is in the other. */
  ghost predicate Apart(a: seq<CompletionOutput>, b: seq<CompletionOutput>) {
    forall i, j :: 0 <= i < |a| && 0 <= j < |b| ==> a[i] != b[j]
  }

  function Values(outs: seq<CompletionOutput>): (v: seq<Completion>)
    reads outs
    ensures |v| == |outs| && forall i :: 0 <= i < |outs| ==> v[i] == outs[i].Contents()
  {
    seq(|outs|, i requires 0 <= i < |outs| reads outs => outs[i].Contents())
  }

  lemma ValuesAppended(outs: seq<CompletionOutput>, next: CompletionOutput)
    ensures Values(outs + [next]) == Values(outs) + [next.Contents()]
  {}

  lemma ValuesReplaced(outs: seq<CompletionOutput>, i: nat, next: CompletionOutput)
    requires i < |outs|
    ensures Values(outs[i := next]) == Values(outs)[i := next.Contents()]
  {}

  function FindObject(outs: seq<CompletionOutput>, index: int): (i: nat)
    ensures i <= |outs| && (i < |outs| ==> outs[i].index == index)
    ensures forall j :: 0 <= j < i ==> outs[j].index != index
  {
    if outs == [] then 0 else if outs[0].index == index then 0 else 1 + FindObject(outs[1..], index)
  }

  /** Where the object of a completion comes from: in place, or taken over from the other output. */
  function Taken(outs: seq<CompletionOutput>, next: CompletionOutput, aggregate: bool): seq<CompletionOutput> {
    var i := FindObject(outs, next.index);
    if i == |outs| then outs + [next] else if aggregate then outs else outs[i := next]
  }

  lemma TakenStaysDistinct(outs: seq<CompletionOutput>, next: CompletionOutput, aggregate: bool)
    requires DistinctObjects(outs) && next !in outs
    ensures DistinctObjects(Taken(outs, next, aggregate))
  {}

  /** The objects after adding a list: new indices bring their own object along. */
  function TakenAll(outs: seq<CompletionOutput>, nexts: seq<CompletionOutput>, aggregate: bool): seq<CompletionOutput> {
    if nexts == [] then outs else Taken(TakenAll(outs, nexts[..|nexts| - 1], aggregate), nexts[|nexts| - 1], aggregate)
  }

  ghost predicate NoneBrings(outs: seq<CompletionOutput>, index: int) {
    forall k :: 0 <= k < |outs| ==> outs[k].index != index
  }

  /** Object j of nexts has an index that is new: neither in outs nor earlier in nexts. */
  ghost predicate IsNew(outs: seq<CompletionOutput>, nexts: seq<CompletionOutput>, j: nat)
    requires j < |nexts|
  {
    NoneBrings(outs, nexts[j].index) && NoneBrings(nexts[..j], nexts[j].index)
  }

  // ---------- which objects are held ----------

  lemma TakenIndices(outs: seq<CompletionOutput>, next: CompletionOutput, aggregate: bool, index: int)
    ensures NoneBrings(Taken(outs, next, aggregate), index) <==> NoneBrings(outs, index) && next.index != index
  {
    var i, taken := FindObject(outs, next.index), Taken(outs, next, aggregate);
    assert forall k :: 0 <= k < |outs| ==> taken[k].index == outs[k].index;
    if i == |outs| { assert taken[|outs|] == next; } else { assert taken[i].index == next.index; }
  }

  lemma NoneBringsLast(outs: seq<CompletionOutput>, next: CompletionOutput, index: int)
    ensures NoneBrings(outs + [next], index) <==> NoneBrings(outs, index) && next.index != index
  {
    assert (outs + [next])[|outs|] == next;
    assert forall k :: 0 <= k < |outs| ==> (outs + [next])[k] == outs[k];
  }

  lemma {:induction false} TakenAllIndices(outs: seq<CompletionOutput>, nexts: seq<CompletionOutput>,
                                           aggregate: bool, index: int)
    ensures NoneBrings(TakenAll(outs, nexts, aggregate), index) <==> NoneBrings(outs, index) && NoneBrings(nexts, index)
  {
    if nexts != [] {
      var n := |nexts| - 1;
      TakenAllIndices(outs, nexts[..n], aggregate, index);
      TakenIndices(TakenAll(outs, nexts[..n], aggregate), nexts[n], aggregate, index);
      NoneBringsLast(nexts[..n], nexts[n], index);
      assert nexts == nexts[..n] + [nexts[n]];
    }
  }

  /** Nothing is held that was not there or brought; with aggregation what was there stays in place. */
  lemma {:induction false} TakenAllFrom(outs: seq<CompletionOutput>, nexts: seq<CompletionOutput>, aggregate: bool)
    ensures forall i :: 0 <= i < |TakenAll(outs, nexts, aggregate)| ==>
              TakenAll(outs, nexts, aggregate)[i] in outs || TakenAll(outs, nexts, aggregate)[i] in nexts
    ensures aggregate ==> outs <= TakenAll(outs, nexts, aggregate)
  {
    if nexts != [] { TakenAllFrom(outs, nexts[..|nexts| - 1], aggregate); }
  }

  lemma TakenIfNew(outs: seq<CompletionOutput>, next: CompletionOutput, x: CompletionOutput)
    ensures x in Taken(outs, next, true) <==> x in outs || (x == next && NoneBrings(outs, next.index))
  {
    if FindObject(outs, next.index) < |outs| { assert outs[FindObject(outs, next.index)].index == next.index; }
  }

  /** With aggregation the objects of nexts that are held afterwards are exactly those with a new index. */
  lemma {:induction false} HeldIffNew(outs: seq<CompletionOutput>, nexts: seq<CompletionOutput>, j: nat)
    requires DistinctObjects(nexts) && Apart(outs, nexts) && j < |nexts|
    ensures nexts[j] in TakenAll(outs, nexts, true) <==> IsNew(outs, nexts, j)
  {
    var n := |nexts| - 1;
    var before := TakenAll(outs, nexts[..n], true);
    TakenIfNew(before, nexts[n], nexts[j]);
    if j < n {
      HeldIffNew(outs, nexts[..n], j);
      assert nexts[..n][..j] == nexts[..j];
    } else {
      TakenAllFrom(outs, nexts[..n], true);
      TakenAllIndices(outs, nexts[..n], true, nexts[n].index);
      assert nexts[n] !in nexts[..n];
    }
  }

  lemma FindAfterTaken(outs: seq<CompletionOutput>, next: CompletionOutput, index: int)
    ensures var taken := Taken(outs, next, false);
            FindObject(taken, index)
            == if FindObject(outs, index) == |outs| && next.index != index then |taken| else FindObject(outs, index)
    ensures Taken(outs, next, false)[FindObject(outs, next.index)] == next
  {
    var i, taken := FindObject(outs, next.index), Taken(outs, next, false);
    assert forall k :: 0 <= k < |outs| ==> taken[k].index == outs[k].index;
    var p, q := FindObject(outs, index), FindObject(taken, index);
    if p < |outs| { assert taken[p].index == index; }
    if q < |outs| { assert outs[q].index == index; }
    if i == |outs| { assert taken[|outs|] == next; }
  }

  /** x is nowhere but at the first place of its index. */
  ghost predicate OnlyFirst(outs: seq<CompletionOutput>, x: CompletionOutput) {
    forall i :: 0 <= i < |outs| && outs[i] == x ==> i == FindObject(outs, x.index)
  }

  lemma TakenDisplaces(outs: seq<CompletionOutput>, next: CompletionOutput, x: CompletionOutput)
    requires x != next && OnlyFirst(outs, x)
    ensures x in Taken(outs, next, false) <==> x in outs && x.index != next.index
    ensures OnlyFirst(Taken(outs, next, false), x)
  {
    FindAfterTaken(outs, next, x.index);
    var i, taken := FindObject(outs, next.index), Taken(outs, next, false);
    if x in outs && x.index != next.index {
      var k :| 0 <= k < |outs| && outs[k] == x;
      assert taken[k] == x;
    }
  }

  lemma StaysIfLast(outs: seq<CompletionOutput>, behind: seq<CompletionOutput>, next: CompletionOutput,
                    x: CompletionOutput)
    requires x != next && OnlyFirst(outs, x) && (x in outs <==> NoneBrings(behind, x.index))
    ensures x in Taken(outs, next, false) <==> NoneBrings(behind + [next], x.index)
    ensures OnlyFirst(Taken(outs, next, false), x)
  {
    TakenDisplaces(outs, next, x);
    NoneBringsLast(behind, next, x.index);
  }

  lemma TakenIsFirst(outs: seq<CompletionOutput>, next: CompletionOutput)
    requires next !in outs
    ensures next in Taken(outs, next, false) && OnlyFirst(Taken(outs, next, false), next)
  {
    FindAfterTaken(outs, next, next.index);
  }

  /**
    Without aggregation an object of nexts is held afterwards exactly when it is the last of its index:
    each replaces the one before, at the first place of the index.
   */
  lemma {:induction false} HeldIffLast(outs: seq<CompletionOutput>, nexts: seq<CompletionOutput>, j: nat)
    requires DistinctObjects(nexts) && Apart(outs, nexts) && j < |nexts|
    ensures nexts[j] in TakenAll(outs, nexts, false) <==> NoneBrings(nexts[j + 1..], nexts[j].index)
    ensures OnlyFirst(TakenAll(outs, nexts, false), nexts[j])
  {
    var n := |nexts| - 1;
    var before := TakenAll(outs, nexts[..n], false);
    if j < n {
      HeldIffLast(outs, nexts[..n], j);
      StaysIfLast(before, nexts[..n][j + 1..], nexts[n], nexts[j]);
      assert nexts[j + 1..] == nexts[..n][j + 1..] + [nexts[n]];
    } else {
      TakenAllFrom(outs, nexts[..n], false);
      assert nexts[n] !in before;
      TakenIsFirst(before, nexts[n]);
    }
  }

  // ---------- the state of the outer loop ----------

  /** After k completions: which objects are held, and that none of those still to come is. */
  ghost predicate HoldsObjects(outs: seq<CompletionOutput>, nexts: seq<CompletionOutput>, k: nat, aggregate: bool,
                               objects: seq<CompletionOutput>)
    requires k <= |nexts|
  {
    && outs == TakenAll(objects, nexts[..k], aggregate)
    && DistinctObjects(outs) && Apart(outs, nexts[k..])
    && forall i :: 0 <= i < |outs| ==> outs[i] in objects || outs[i] in nexts
  }

  lemma HoldsObjectsStep(outs: seq<CompletionOutput>, nexts: seq<CompletionOutput>, k: nat, aggregate: bool,
                         objects: seq<CompletionOutput>)
    requires k < |nexts| && DistinctObjects(nexts) && HoldsObjects(outs, nexts, k, aggregate, objects)
    ensures nexts[k] !in outs && HoldsObjects(Taken(outs, nexts[k], aggregate), nexts, k + 1, aggregate, objects)
  {
    var taken, rest := Taken(outs, nexts[k], aggregate), nexts[k + 1..];
    assert nexts[..k + 1][..k] == nexts[..k] && nexts[k..][0] == nexts[k];
    forall i, j | 0 <= i < |taken| && 0 <= j < |rest| ensures taken[i] != rest[j] {
      assert rest[j] == nexts[k..][j + 1] == nexts[k + 1 + j];
    }
  }

  /** After k completions: the values, and that objects still to come or not held are as they were. */
  ghost predicate HoldsValues(outs: seq<CompletionOutput>, nexts: seq<CompletionOutput>, k: nat, aggregate: bool,
                              mine: seq<Completion>, theirs: seq<Completion>)
    requires k <= |nexts| == |theirs|
    reads outs, nexts
  {
    && Values(outs) == MergeAll(mine, theirs[..k], aggregate)
    && MergesCleanly(mine, theirs[..k], aggregate)
    && forall j :: 0 <= j < |nexts| && (k <= j || (aggregate && nexts[j] !in outs)) ==> nexts[j].Contents() == theirs[j]
  }

  lemma MergeNext(mine: seq<Completion>, theirs: seq<Completion>, k: nat, aggregate: bool)
    requires k < |theirs|
    ensures MergeAll(mine, theirs[..k + 1], aggregate) ==
      MergeOne(MergeAll(mine, theirs[..k], aggregate), theirs[k], aggregate)
    ensures MergesCleanly(mine, theirs[..k + 1], aggregate)
       <==> && MergesCleanly(mine, theirs[..k], aggregate)
            && StepsCleanly(MergeAll(mine, theirs[..k], aggregate), theirs[k], aggregate)
  {
    assert theirs[..k + 1][..k] == theirs[..k];
  }

  lemma FoundAt(values: seq<Completion>, outs: seq<CompletionOutput>, index: int, i: nat)
    requires |values| == |outs| && forall j :: 0 <= j < |outs| ==> values[j].index == outs[j].index
    requires i <= |outs| && (forall j :: 0 <= j < i ==> outs[j].index != index)
    requires i < |outs| ==> outs[i].index == index
    ensures Find(values, index) == i && FindObject(outs, index) == i
  {}

  lemma {:induction false} CleanPrefix(mine: seq<Completion>, theirs: seq<Completion>, k: nat, aggregate: bool)
    requires k <= |theirs| && MergesCleanly(mine, theirs, aggregate)
    ensures MergesCleanly(mine, theirs[..k], aggregate)
  {
    if k < |theirs| {
      CleanPrefix(mine, theirs[..|theirs| - 1], k, aggregate);
      assert theirs[..|theirs| - 1][..k] == theirs[..k];
    } else {
      assert theirs[..k] == theirs;
    }
  }

  class RequestOutput {
    var finished: bool
    var kvTransferParams: Option<int>
    var outputs: seq<CompletionOutput>

    constructor (finished: bool, kvTransferParams: Option<int>, outputs: seq<CompletionOutput>)
      ensures this.finished == finished && this.kvTransferParams == kvTransferParams && this.outputs == outputs
    {
      this.finished, this.kvTransferParams, this.outputs := finished, kvTransferParams, outputs;
    }

    function Contents(): Output
      reads this, outputs
    {
      Output(finished, kvTransferParams, Values(outputs))
    }

    /** The inner loop: the position of the first completion with this index, or the length. */
    method Search(index: int) returns (i: nat)
      ensures i == FindObject(outputs, index) == Find(Values(outputs), index)
    {
      i := 0;
      while i < |outputs| && outputs[i].index != index
        invariant i <= |outputs| && forall j :: 0 <= j < i ==> outputs[j].index != index
      {
        i := i + 1;
      }
      FoundAt(Values(outputs), outputs, index, i);
    }

    /** The completion at i takes the other one in; the rest stays as it is. */
    method AbsorbAt(i: nat, next: CompletionOutput) returns (ok: bool)
      requires i < |outputs| && DistinctObjects(outputs) && next !in outputs && outputs[i].index == next.index
      modifies outputs
      ensures ok <==> !Clashes(old(outputs[i].Contents()), old(next.Contents()))
      ensures ok ==> Values(outputs) == old(Values(outputs))[i := Combine(old(outputs[i].Contents()),
                                                                         old(next.Contents()))]
    {
      ok := outputs[i].Absorb(next);
      assert forall j :: 0 <= j < |outputs| && j != i ==> outputs[j].Contents() == old(outputs[j].Contents());
    }

    /** The three branches for one completion of the other output. */
    method AddCompletion(next: CompletionOutput, aggregate: bool) returns (ok: bool)
      requires DistinctObjects(outputs) && next !in outputs
      modifies this`outputs, outputs
      ensures outputs == Taken(old(outputs), next, aggregate) && DistinctObjects(outputs)
      ensures ok <==> StepsCleanly(old(Values(outputs)), old(next.Contents()), aggregate)
      ensures ok ==> Values(outputs) == MergeOne(old(Values(outputs)), old(next.Contents()), aggregate)
    {
      var i := Search(next.index);
      TakenStaysDistinct(outputs, next, aggregate);
      ok := true;
      if i == |outputs| {
        ValuesAppended(outputs, next);
        outputs := outputs + [next];
      } else if aggregate {
        ok := AbsorbAt(i, next);
      } else {
        ValuesReplaced(outputs, i, next);
        outputs := outputs[i := next];
      }
    }

    /** One turn of the outer loop. */
    method AddNext(nexts: seq<CompletionOutput>, k: nat, aggregate: bool,
                   ghost objects: seq<CompletionOutput>, ghost mine: seq<Completion>, ghost theirs: seq<Completion>)
      returns (ok: bool)
      requires k < |nexts| == |theirs| && DistinctObjects(nexts)
      requires HoldsObjects(outputs, nexts, k, aggregate, objects)
      requires HoldsValues(outputs, nexts, k, aggregate, mine, theirs)
      modifies this`outputs, outputs
      ensures HoldsObjects(outputs, nexts, k + 1, aggregate, objects)
      ensures ok ==> HoldsValues(outputs, nexts, k + 1, aggregate, mine, theirs)
      ensures !ok ==> !MergesCleanly(mine, theirs[..k + 1], aggregate)
    {
      HoldsObjectsStep(outputs, nexts, k, aggregate, objects);
      MergeNext(mine, theirs, k, aggregate);
      ok := AddCompletion(nexts[k], aggregate);
    }

    /** The outer loop over the completions of the other output. */
    method AddAll(nexts: seq<CompletionOutput>, aggregate: bool) returns (ok: bool)
      requires DistinctObjects(outputs) && DistinctObjects(nexts) && Apart(outputs, nexts)
      modifies this`outputs, outputs, nexts
      ensures ok <==> MergesCleanly(old(Values(outputs)), old(Values(nexts)), aggregate)
      ensures ok ==> Values(outputs) == MergeAll(old(Values(outputs)), old(Values(nexts)), aggregate)
      ensures ok ==> outputs == TakenAll(old(outputs), nexts, aggregate) && DistinctObjects(outputs)
      ensures ok && aggregate ==> forall j :: 0 <= j < |nexts| && nexts[j] !in outputs ==>
                                    nexts[j].Contents() == old(nexts[j].Contents())
    {
      ghost var objects, mine, theirs := outputs, Values(outputs), Values(nexts);
      var k := 0;
      while k < |nexts|
        invariant k <= |nexts|
        invariant HoldsObjects(outputs, nexts, k, aggregate, objects)
        invariant HoldsValues(outputs, nexts, k, aggregate, mine, theirs)
      {
        ok := AddNext(nexts, k, aggregate, objects, mine, theirs);
        k := k + 1;
        if !ok {
          if MergesCleanly(mine, theirs, aggregate) { CleanPrefix(mine, theirs, k, aggregate); }
          return;
        }
      }
      assert theirs[..k] == theirs && nexts[..k] == nexts;
      ok := true;
    }

    /**
      add: the contents are merged as on values, and objects of the other output whose index is new
      here (or, without aggregation, any) become part of this one.
     */
    method Add(next: RequestOutput, aggregate: bool) returns (ok: bool)
      requires next != this && DistinctObjects(outputs) && DistinctObjects(next.outputs) && Apart(outputs, next.outputs)
      modifies this, outputs, next.outputs
      ensures ok <==> MergesCleanly(old(Values(outputs)), old(Values(next.outputs)), aggregate)
      ensures ok ==> Contents() == OutputMerging.Add(old(Contents()), old(next.Contents()), aggregate)
      ensures ok ==> outputs == TakenAll(old(outputs), next.outputs, aggregate) && DistinctObjects(outputs)
      ensures ok ==> next.outputs == old(next.outputs)
      ensures ok && aggregate ==> forall j :: 0 <= j < |next.outputs| && next.outputs[j] !in outputs ==>
                                    next.outputs[j].Contents() == old(next.outputs[j].Contents())
    {
      ghost var mine, theirs := Values(outputs), Values(next.outputs);
      finished := finished || next.finished;
      kvTransferParams := next.kvTransferParams;
      assert Values(outputs) == mine && Values(next.outputs) == theirs;
      ok := AddAll(next.outputs, aggregate);
    }
  }

  // ---------- shared completions ----------

  lemma ValuesFind(outs: seq<CompletionOutput>, index: int)
    ensures Find(Values(outs), index) == FindObject(outs, index)
    ensures NoneHas(Values(outs), index) <==> NoneBrings(outs, index)
  {
    FoundAt(Values(outs), outs, index, FindObject(outs, index));
  }

  lemma FoundFirst(mine: seq<Completion>, i: nat)
    requires i < |mine| && UniqueIndices(mine)
    ensures Find(mine, mine[i].index) == i
  {}

  /** The only place of an index is where it is found. */
  lemma FoundWhereItIs(outs: seq<CompletionOutput>, i: nat)
    requires i < |outs| && UniqueIndices(Values(outs))
    ensures FindObject(outs, outs[i].index) == i
  {
    FoundFirst(Values(outs), i);
    ValuesFind(outs, outs[i].index);
  }

  /** An object that is not held, or whose index is not brought. */
  ghost predicate StaysOut(o: CompletionOutput, held: seq<CompletionOutput>, brought: seq<CompletionOutput>) {
    o !in held || NoneBrings(brought, o.index)
  }

  lemma EntryStays(outs: seq<CompletionOutput>, nexts: seq<CompletionOutput>, mine: seq<Completion>,
                   theirs: seq<Completion>, i: nat)
    requires |outs| == |mine| && |nexts| == |theirs| && i < |outs| && NoneBrings(nexts, outs[i].index)
    requires mine[i].index == outs[i].index && forall k :: 0 <= k < |nexts| ==> theirs[k].index == nexts[k].index
    ensures i < |MergeAll(mine, theirs, true)| && MergeAll(mine, theirs, true)[i] == mine[i]
  {
    KeptInPlace(mine, theirs, i);
  }

  lemma EntryIsCombined(mine: seq<Completion>, theirs: seq<Completion>, i: nat, k: nat)
    requires i < |mine| && k < |theirs| && mine[i].index == theirs[k].index
    requires UniqueIndices(mine) && UniqueIndices(theirs)
    ensures i < |MergeAll(mine, theirs, true)| && MergeAll(mine, theirs, true)[i] == Combine(mine[i], theirs[k])
  {
    FoundFirst(mine, i);
    MergedEntry(mine, theirs, k);
  }

  /** What an add does to the completions that were held before it. */
  method AddOnto(a: RequestOutput, c: RequestOutput) returns (ok: bool)
    requires a != c && DistinctObjects(a.outputs) && DistinctObjects(c.outputs) && Apart(a.outputs, c.outputs)
    modifies a, a.outputs, c.outputs
    ensures ok <==> MergesCleanly(old(Values(a.outputs)), old(Values(c.outputs)), true)
    ensures c.outputs == old(c.outputs)
    ensures ok ==> a.outputs == TakenAll(old(a.outputs), c.outputs, true)
    ensures ok ==> forall i :: 0 <= i < |old(a.outputs)| && NoneBrings(c.outputs, old(a.outputs)[i].index) ==>
                     old(a.outputs)[i].Contents() == old(a.outputs[i].Contents())
    ensures ok && UniqueIndices(old(Values(a.outputs))) && UniqueIndices(old(Values(c.outputs))) ==>
              forall i, k :: 0 <= i < |old(a.outputs)| && 0 <= k < |c.outputs|
                             && c.outputs[k].index == old(a.outputs)[i].index ==>
                old(a.outputs)[i].Contents() == Combine(old(a.outputs[i].Contents()), old(c.outputs[k].Contents()))
  {
    ghost var held, mine, theirs := a.outputs, Values(a.outputs), Values(c.outputs);
    ok := a.Add(c, true);
    if !ok { return; }
    TakenAllFrom(held, c.outputs, true);
    assert held <= a.outputs && Values(a.outputs) == MergeAll(mine, theirs, true);
    forall i | 0 <= i < |held| && NoneBrings(c.outputs, held[i].index)
      ensures held[i].Contents() == mine[i]
    {
      EntryStays(held, c.outputs, mine, theirs, i);
      assert Values(a.outputs)[i] == held[i].Contents();
    }
    forall i, k | 0 <= i < |held| && 0 <= k < |c.outputs| && c.outputs[k].index == held[i].index
                  && UniqueIndices(mine) && UniqueIndices(theirs)
      ensures held[i].Contents() == Combine(mine[i], theirs[k])
    {
      EntryIsCombined(mine, theirs, i, k);
      assert Values(a.outputs)[i] == held[i].Contents();
    }
  }

  /**
    What a later add does to the completions of a third output, whichever of them a holds: those it
    does not hold, or whose index c does not bring, stay as they are.
   */
  method AddLater(a: RequestOutput, b: RequestOutput, c: RequestOutput) returns (ok: bool)
    requires a != b && a != c && DistinctObjects(a.outputs) && DistinctObjects(c.outputs)
    requires Apart(a.outputs, c.outputs) && Apart(b.outputs, c.outputs)
    modifies a, a.outputs, c.outputs
    ensures ok <==> MergesCleanly(old(Values(a.outputs)), old(Values(c.outputs)), true)
    ensures b.outputs == old(b.outputs) && c.outputs == old(c.outputs)
    ensures ok ==> a.outputs == TakenAll(old(a.outputs), c.outputs, true)
    ensures ok ==> forall j :: 0 <= j < |b.outputs| && StaysOut(b.outputs[j], old(a.outputs), c.outputs) ==>
                     b.outputs[j].Contents() == old(b.outputs[j].Contents())
    ensures ok && UniqueIndices(old(Values(a.outputs))) && UniqueIndices(old(Values(c.outputs))) ==>
              forall j, k :: 0 <= j < |b.outputs| && 0 <= k < |c.outputs| && b.outputs[j] in old(a.outputs) ==>
                c.outputs[k].index == b.outputs[j].index ==>
                b.outputs[j].Contents() == Combine(old(b.outputs[j].Contents()), old(c.outputs[k].Contents()))
  {
    ghost var held := a.outputs;
    ok := AddOnto(a, c);
    forall j | 0 <= j < |b.outputs| && b.outputs[j] in held
      ensures exists i :: 0 <= i < |held| && held[i] == b.outputs[j]
    {}
  }

  lemma NewEntry(mine: seq<Completion>, theirs: seq<Completion>, j: nat)
    requires j < |theirs| && UniqueIndices(theirs)
    ensures NoneHas(mine, theirs[j].index) ==>
              var merged := MergeAll(mine, theirs, true);
              Find(merged, theirs[j].index) < |merged| && merged[Find(merged, theirs[j].index)] == theirs[j]
  {
    MergedEntry(mine, theirs, j);
    NotFoundIff(mine, theirs[j].index);
  }

  /** A completion that is held because its index was new has the contents it came with. */
  lemma NewStaysAsBrought(held: seq<CompletionOutput>, nexts: seq<CompletionOutput>, outs: seq<CompletionOutput>,
                          mine: seq<Completion>, theirs: seq<Completion>, j: nat)
    requires |nexts| == |theirs| && j < |nexts| && nexts[j].index == theirs[j].index && UniqueIndices(theirs)
    requires |held| == |mine| && forall i :: 0 <= i < |held| ==> held[i].index == mine[i].index
    requires DistinctObjects(nexts) && Apart(held, nexts) && outs == TakenAll(held, nexts, true)
    requires Values(outs) == MergeAll(mine, theirs, true) && UniqueIndices(Values(outs)) && nexts[j] in outs
    ensures nexts[j].Contents() == theirs[j]
  {
    var i :| 0 <= i < |outs| && outs[i] == nexts[j];
    HeldIffNew(held, nexts, j);
    FoundWhereItIs(outs, i);
    ValuesFind(outs, nexts[j].index);
    NewEntry(mine, theirs, j);
    assert NoneHas(mine, theirs[j].index);
    assert Values(outs)[i] == nexts[j].Contents();
  }

  lemma NewStayAsBrought(held: seq<CompletionOutput>, nexts: seq<CompletionOutput>, outs: seq<CompletionOutput>,
                         mine: seq<Completion>, theirs: seq<Completion>)
    requires |nexts| == |theirs| && forall j :: 0 <= j < |nexts| ==> nexts[j].index == theirs[j].index
    requires |held| == |mine| && forall i :: 0 <= i < |held| ==> held[i].index == mine[i].index
    requires DistinctObjects(nexts) && Apart(held, nexts) && outs == TakenAll(held, nexts, true)
    requires Values(outs) == MergeAll(mine, theirs, true) && UniqueIndices(mine) && UniqueIndices(theirs)
    ensures forall j :: 0 <= j < |nexts| && nexts[j] in outs ==> nexts[j].Contents() == theirs[j]
  {
    MergeAllKeeps(mine, theirs, true);
    forall j | 0 <= j < |nexts| && nexts[j] in outs ensures nexts[j].Contents() == theirs[j] {
      NewStaysAsBrought(held, nexts, outs, mine, theirs, j);
    }
  }

  /** Adding an output whose indices are unique leaves its completions as they are, held or not. */
  method AddFirst(a: RequestOutput, b: RequestOutput) returns (ok: bool)
    requires a != b && DistinctObjects(a.outputs) && DistinctObjects(b.outputs) && Apart(a.outputs, b.outputs)
    requires UniqueIndices(Values(a.outputs)) && UniqueIndices(Values(b.outputs))
    modifies a, a.outputs, b.outputs
    ensures ok <==> MergesCleanly(old(Values(a.outputs)), old(Values(b.outputs)), true)
    ensures b.outputs == old(b.outputs)
    ensures ok ==> Values(a.outputs) == MergeAll(old(Values(a.outputs)), old(Values(b.outputs)), true)
    ensures ok ==> a.outputs == TakenAll(old(a.outputs), b.outputs, true) && DistinctObjects(a.outputs)
    ensures ok ==> Values(b.outputs) == old(Values(b.outputs))
    ensures ok ==> forall i :: 0 <= i < |a.outputs| ==> a.outputs[i] in old(a.outputs) || a.outputs[i] in b.outputs
  {
    ghost var held, mine, theirs := a.outputs, Values(a.outputs), Values(b.outputs);
    ok := a.Add(b, true);
    if !ok { return; }
    TakenAllFrom(held, b.outputs, true);
    NewStayAsBrought(held, b.outputs, a.outputs, mine, theirs);
  }

  lemma EarlierHasNone(outs: seq<CompletionOutput>, j: nat)
    requires j < |outs| && UniqueIndices(Values(outs))
    ensures NoneBrings(outs[..j], outs[j].index)
  {
    forall k | 0 <= k < j ensures outs[..j][k].index != outs[j].index {
      assert Values(outs)[k].index != Values(outs)[j].index;
    }
  }

  /** With unique indices the objects held are those whose index was not there. */
  lemma HeldIffNoneBrought(outs: seq<CompletionOutput>, nexts: seq<CompletionOutput>)
    requires DistinctObjects(nexts) && Apart(outs, nexts) && UniqueIndices(Values(nexts))
    ensures forall j :: 0 <= j < |nexts| ==>
              (nexts[j] in TakenAll(outs, nexts, true) <==> NoneBrings(outs, nexts[j].index))
  {
    forall j | 0 <= j < |nexts|
      ensures nexts[j] in TakenAll(outs, nexts, true) <==> NoneBrings(outs, nexts[j].index)
    {
      HeldIffNew(outs, nexts, j);
      EarlierHasNone(nexts, j);
    }
  }

  lemma TakenIsApart(outs: seq<CompletionOutput>, nexts: seq<CompletionOutput>, others: seq<CompletionOutput>)
    requires Apart(outs, others) && Apart(nexts, others)
    ensures Apart(TakenAll(outs, nexts, true), others)
  {
    TakenAllFrom(outs, nexts, true);
  }

  /** Objects that are brought later do not change which of the others are held. */
  lemma HeldStaysHeld(held: seq<CompletionOutput>, nexts: seq<CompletionOutput>, others: seq<CompletionOutput>)
    requires Apart(others, nexts)
    ensures forall j :: 0 <= j < |others| ==> (others[j] in TakenAll(held, nexts, true) <==> others[j] in held)
  {
    TakenAllFrom(held, nexts, true);
  }

  /** The first half, with what it means for c: nothing, and a holds none of its completions. */
  method AddBeside(a: RequestOutput, b: RequestOutput, c: RequestOutput)
    requires a != b && a != c && DistinctObjects(a.outputs) && DistinctObjects(b.outputs)
    requires Apart(a.outputs, b.outputs) && Apart(a.outputs, c.outputs) && Apart(b.outputs, c.outputs)
    requires UniqueIndices(Values(a.outputs)) && UniqueIndices(Values(b.outputs))
    requires MergesCleanly(Values(a.outputs), Values(b.outputs), true)
    modifies a, a.outputs, b.outputs
    ensures b.outputs == old(b.outputs) && c.outputs == old(c.outputs)
    ensures Values(b.outputs) == old(Values(b.outputs)) && Values(c.outputs) == old(Values(c.outputs))
    ensures Values(a.outputs) == MergeAll(old(Values(a.outputs)), old(Values(b.outputs)), true)
    ensures UniqueIndices(Values(a.outputs)) && DistinctObjects(a.outputs) && Apart(a.outputs, c.outputs)
    ensures forall i :: 0 <= i < |a.outputs| ==> a.outputs[i] in old(a.outputs) || a.outputs[i] in b.outputs
    ensures forall j :: 0 <= j < |b.outputs| ==>
              (b.outputs[j] in a.outputs <==> NoneBrings(old(a.outputs), b.outputs[j].index))
  {
    HeldIffNoneBrought(a.outputs, b.outputs);
    TakenIsApart(a.outputs, b.outputs, c.outputs);
    MergeAllKeeps(Values(a.outputs), Values(b.outputs), true);
    var _ := AddFirst(a, b);
  }

  /** The second half: a holds exactly the completions of b whose index `before` does not bring. */
  method AddReachesHeld(a: RequestOutput, b: RequestOutput, c: RequestOutput, ghost before: seq<CompletionOutput>)
    requires a != b && a != c && DistinctObjects(a.outputs) && DistinctObjects(c.outputs)
    requires Apart(a.outputs, c.outputs) && Apart(b.outputs, c.outputs)
    requires UniqueIndices(Values(a.outputs)) && UniqueIndices(Values(c.outputs))
    requires MergesCleanly(Values(a.outputs), Values(c.outputs), true)
    requires forall j :: 0 <= j < |b.outputs| ==>
               (b.outputs[j] in a.outputs <==> NoneBrings(before, b.outputs[j].index))
    modifies a, a.outputs, c.outputs
    ensures b.outputs == old(b.outputs) && c.outputs == old(c.outputs)
    ensures forall j :: 0 <= j < |b.outputs| ==>
              (b.outputs[j] in a.outputs <==> NoneBrings(before, b.outputs[j].index))
    ensures forall j :: 0 <= j < |b.outputs| ==>
              !NoneBrings(before, b.outputs[j].index) || NoneBrings(c.outputs, b.outputs[j].index) ==>
              b.outputs[j].Contents() == old(b.outputs[j].Contents())
    ensures forall j, k :: 0 <= j < |b.outputs| && 0 <= k < |c.outputs| ==>
              NoneBrings(before, b.outputs[j].index) && c.outputs[k].index == b.outputs[j].index ==>
              b.outputs[j].Contents() == Combine(old(b.outputs[j].Contents()), old(c.outputs[k].Contents()))
  {
    HeldStaysHeld(a.outputs, c.outputs, b.outputs);
    var _ := AddLater(a, b, c);
  }

  /**
    The aliasing of the append branch, for all outputs with unique indices: after b and then c have
    been added to a, the completions of b that have changed are those whose index was new to a and
    comes with c; they now end in c's piece. Their objects are the ones that a holds.
   */
  method LaterAddsReachNewIndices(a: RequestOutput, b: RequestOutput, c: RequestOutput)
    requires a != b && a != c && b != c
    requires DistinctObjects(a.outputs) && DistinctObjects(b.outputs) && DistinctObjects(c.outputs)
    requires Apart(a.outputs, b.outputs) && Apart(a.outputs, c.outputs) && Apart(b.outputs, c.outputs)
    requires UniqueIndices(Values(a.outputs)) && UniqueIndices(Values(b.outputs)) && UniqueIndices(Values(c.outputs))
    requires LeftIsClean(Values(a.outputs), Values(b.outputs), Values(c.outputs))
    modifies a, a.outputs, b.outputs, c.outputs
    ensures b.outputs == old(b.outputs) && c.outputs == old(c.outputs)
    ensures forall j :: 0 <= j < |b.outputs| ==>
              (b.outputs[j] in a.outputs <==> NoneBrings(old(a.outputs), b.outputs[j].index))
    ensures forall j :: 0 <= j < |b.outputs| ==>
              !NoneBrings(old(a.outputs), b.outputs[j].index) || NoneBrings(c.outputs, b.outputs[j].index) ==>
              b.outputs[j].Contents() == old(b.outputs[j].Contents())
    ensures forall j, k :: 0 <= j < |b.outputs| && 0 <= k < |c.outputs| ==>
              NoneBrings(old(a.outputs), b.outputs[j].index) && c.outputs[k].index == b.outputs[j].index ==>
              b.outputs[j].Contents() == Combine(old(b.outputs[j].Contents()), old(c.outputs[k].Contents()))
  {
    ghost var before := a.outputs;
    AddBeside(a, b, c);
    AddReachesHeld(a, b, c, before);
  }

  lemma SingletonMerges(x: Completion, y: Completion)
    requires x.index == y.index && !Clashes(x, y)
    ensures MergesCleanly([], [x], true) && MergeAll([], [x], true) == [x]
    ensures MergesCleanly([x], [y], true) && MergeAll([x], [y], true) == [Combine(x, y)]
  {
    assert [x][..0] == [] && [y][..0] == [];
    assert Find([x], y.index) == 0;
  }

  lemma SingletonTaken(x: CompletionOutput, y: CompletionOutput)
    requires x.index == y.index
    ensures TakenAll([], [x], true) == [x] && TakenAll([x], [y], true) == [x]
  {
    assert [x][..0] == [] && [y][..0] == [];
    assert FindObject([x], y.index) == 0;
  }

  /**
    The aliasing of the append branch: once b has been added to an empty a, both hold the same
    completion object, and adding c to a changes what b holds.
   */
  method LaterAddsReachTheOtherOutput(a: RequestOutput, b: RequestOutput, c: RequestOutput)
    requires a != b && b != c && a != c && a.outputs == []
    requires |b.outputs| == |c.outputs| == 1 && b.outputs[0] != c.outputs[0]
    requires b.outputs[0].index == c.outputs[0].index && !Clashes(b.outputs[0].Contents(), c.outputs[0].Contents())
    modifies a, b.outputs, c.outputs
    ensures b.outputs == old(b.outputs)
    ensures b.outputs[0].Contents() == Combine(old(b.outputs[0].Contents()), old(c.outputs[0].Contents()))
  {
    ghost var x, y := b.outputs[0].Contents(), c.outputs[0].Contents();
    assert b.outputs == [b.outputs[0]] && c.outputs == [c.outputs[0]];
    SingletonMerges(x, y);
    SingletonTaken(b.outputs[0], c.outputs[0]);
    assert Values(b.outputs) == [x] && Values(a.outputs) == [];
    var ok := a.Add(b, true);
    assert a.outputs == b.outputs;
    assert Values(a.outputs) == [x] && Values(c.outputs) == [y];
    ok := a.Add(c, true);
    assert a.outputs[0].Contents() == Values(a.outputs)[0];
  }
}
