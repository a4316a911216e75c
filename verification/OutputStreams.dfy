/**
  What a stream of outputs folds into, piece by piece: which piece gives a completion its scalar
  fields, in which order texts and completions stand, and when the assertion fails.
 */
module OutputStreams {
  import opened Options
  import opened OutputMerging
  import opened OutputFolding
  import opened FirstAppearance

  // ---------- a fold is one merge of all pieces ----------

  lemma {:induction false} FoldIsMerge(a: Output, stream: seq<Output>)
    ensures Fold(a, stream).outputs == MergeAll(a.outputs, Pieces(stream), true)
  {
    if stream != [] {
      var n := |stream| - 1;
      FoldIsMerge(a, stream[..n]);
      MergeAllConcat(a.outputs, Pieces(stream[..n]), stream[n].outputs);
    }
  }

  /** finished is set by any output, and the parameters are those of the last one. */
  lemma {:induction false} FoldFlags(a: Output, stream: seq<Output>)
    ensures Fold(a, stream).finished <==> a.finished || exists k :: 0 <= k < |stream| && stream[k].finished
    ensures Fold(a, stream).kvTransferParams
         == if stream == [] then a.kvTransferParams else stream[|stream| - 1].kvTransferParams
  {
    if stream != [] {
      var n := |stream| - 1;
      FoldFlags(a, stream[..n]);
      assert forall k :: 0 <= k < n ==> stream[..n][k] == stream[k];
    }
  }

  // ---------- the scalar fields are those of the last piece ----------

  ghost predicate SameScalars(c: Completion, d: Completion) {
    c.cumulativeLogprob == d.cumulativeLogprob && c.finishReason == d.finishReason && c.stopReason == d.stopReason
  }

  /** Piece k is the last one of its index. */
  ghost predicate IsLast(pieces: seq<Completion>, k: nat) {
    k < |pieces| && forall l :: k < l < |pieces| ==> pieces[l].index != pieces[k].index
  }

  lemma StepScalars(outs: seq<Completion>, next: Completion)
    ensures var merged, i := MergeOne(outs, next, true), Find(outs, next.index);
            Find(merged, next.index) == i < |merged| && SameScalars(merged[i], next)
  {
    FindAfterMerge(outs, next);
  }

  lemma ScalarsOfLast(outs: seq<Completion>, nexts: seq<Completion>, k: nat)
    requires IsLast(nexts, k)
    ensures var merged := MergeAll(outs, nexts, true);
            var i := Find(merged, nexts[k].index);
            i < |merged| && SameScalars(merged[i], nexts[k])
  {
    var front, rest := nexts[..k], nexts[k + 1..];
    forall l | 0 <= l < |rest| ensures rest[l].index != nexts[k].index { assert rest[l] == nexts[k + 1 + l]; }
    SplitsAround(nexts, k, nexts[k]);
    MergeFrontPieceRest(outs, front, nexts[k], rest);
    StepScalars(MergeAll(outs, front, true), nexts[k]);
    UntouchedByOthers(MergeOne(MergeAll(outs, front, true), nexts[k], true), rest, nexts[k].index);
  }

  // ---------- the position of a piece in the stream ----------

  /** Piece j of output i, and no later piece of the stream, has this index. */
  ghost predicate IsLastInStream(stream: seq<Output>, i: nat, j: nat) {
    && i < |stream| && IsLast(stream[i].outputs, j)
    && forall k, l :: i < k < |stream| && 0 <= l < |stream[k].outputs| ==>
         stream[k].outputs[l].index != stream[i].outputs[j].index
  }

  ghost predicate NoneInStream(stream: seq<Output>, index: int) {
    forall k, l :: 0 <= k < |stream| && 0 <= l < |stream[k].outputs| ==> stream[k].outputs[l].index != index
  }

  lemma NoneInStreamStep(stream: seq<Output>, n: nat, index: int)
    requires |stream| == n + 1
    ensures NoneInStream(stream, index) <==> NoneInStream(stream[..n], index) && NoneHas(stream[n].outputs, index)
  {
    assert forall k :: 0 <= k < n ==> stream[..n][k] == stream[k];
  }

  lemma {:induction false} NoneInPieces(stream: seq<Output>, index: int)
    ensures NoneHas(Pieces(stream), index) <==> NoneInStream(stream, index)
  {
    if stream != [] {
      var n := |stream| - 1;
      NoneInPieces(stream[..n], index);
      NoneHasSplit(Pieces(stream[..n]), stream[n].outputs, index);
      NoneInStreamStep(stream, n, index);
    }
  }

  lemma {:induction false} LastPiece(stream: seq<Output>, i: nat, j: nat) returns (k: nat)
    requires IsLastInStream(stream, i, j)
    ensures IsLast(Pieces(stream), k) && Pieces(stream)[k] == stream[i].outputs[j]
  {
    var n := |stream| - 1;
    var all, front, back := Pieces(stream), Pieces(stream[..n]), stream[n].outputs;
    if i == n {
      k := |front| + j;
      forall l | k < l < |all| ensures all[l].index != back[j].index { assert all[l] == back[l - |front|]; }
    } else {
      assert forall l :: 0 <= l < n ==> stream[..n][l] == stream[l];
      k := LastPiece(stream[..n], i, j);
      forall l | k < l < |all| ensures all[l].index != front[k].index {
        if l < |front| { assert all[l] == front[l]; } else { assert all[l] == back[l - |front|]; }
      }
    }
  }

  /**
    The completion of an index ends up with the cumulative log probability, the finish reason and the
    stop reason of the last piece of the stream that has the index.
   */
  lemma FoldTakesLastScalars(a: Output, stream: seq<Output>, i: nat, j: nat, p: nat)
    requires UniqueIndices(a.outputs) && IsLastInStream(stream, i, j)
    requires p < |Fold(a, stream).outputs| && Fold(a, stream).outputs[p].index == stream[i].outputs[j].index
    ensures SameScalars(Fold(a, stream).outputs[p], stream[i].outputs[j])
  {
    var k := LastPiece(stream, i, j);
    FoldIsMerge(a, stream);
    ScalarsOfLast(a.outputs, Pieces(stream), k);
    MergeAllKeeps(a.outputs, Pieces(stream), true);
    assert Find(Fold(a, stream).outputs, stream[i].outputs[j].index) == p;
  }

  /** A completion whose index does not come in the stream stays in its place, as it is. */
  lemma FoldKeepsOthers(a: Output, stream: seq<Output>, p: nat)
    requires p < |a.outputs| && NoneInStream(stream, a.outputs[p].index)
    ensures p < |Fold(a, stream).outputs| && Fold(a, stream).outputs[p] == a.outputs[p]
  {
    FoldIsMerge(a, stream);
    NoneInPieces(stream, a.outputs[p].index);
    KeptInPlace(a.outputs, Pieces(stream), p);
  }

  // ---------- texts, tokens and log probabilities stand in arrival order ----------

  /** What PayloadAt collects: the pieces with the index, front to back. */
  lemma PayloadInOrder(front: seq<Completion>, c: Completion, rest: seq<Completion>, index: int)
    ensures PayloadAt([], index) == Payload("", [], [])
    ensures var p, q, r := PayloadAt(front, index), PayloadAt(front + ([c] + rest), index), PayloadAt(rest, index);
            if c.index == index then
              && q.text == p.text + c.text + r.text
              && q.tokenIds == p.tokenIds + c.tokenIds + r.tokenIds
              && q.logprobs == p.logprobs + (if c.logprobs.Some? then c.logprobs.value else []) + r.logprobs
            else
              && q.text == p.text + r.text
              && q.tokenIds == p.tokenIds + r.tokenIds
              && q.logprobs == p.logprobs + r.logprobs
  {
    SplitPayload(front, c, rest, index);
    AppendAssociates(PayloadAt(front, index), PayloadOf(c), PayloadAt(rest, index));
    AppendEmpty(PayloadAt(rest, index));
  }

  lemma PayloadOfUnique(outs: seq<Completion>, p: nat)
    requires p < |outs| && UniqueIndices(outs)
    ensures PayloadAt(outs, outs[p].index) == PayloadOf(outs[p])
  {
    var front, rest := outs[..p], outs[p + 1..];
    RestHasNone(outs, p);
    SplitsAround(outs, p, outs[p]);
    SplitPayload(front, outs[p], rest, outs[p].index);
    PayloadOfOthers(front, outs[p].index);
    PayloadOfOthers(rest, outs[p].index);
    AppendEmpty(PayloadOf(outs[p]));
  }

  /** Each completion of the fold holds what was there and then the pieces of the stream with its index. */
  lemma FoldHoldsPieces(a: Output, stream: seq<Output>, p: nat, present: bool)
    requires UniqueIndices(a.outputs) && Uniform(a.outputs, present)
    requires forall k :: 0 <= k < |stream| ==> Uniform(stream[k].outputs, present)
    requires p < |Fold(a, stream).outputs|
    ensures var c := Fold(a, stream).outputs[p];
            var q := PayloadAt(a.outputs + Pieces(stream), c.index);
            && c.text == q.text && c.tokenIds == q.tokenIds
            && c.logprobs == if present then Some(q.logprobs) else None
  {
    var c := Fold(a, stream).outputs[p];
    FoldCollectsByIndex(a, stream, c.index, present);
    PayloadConcat(a.outputs, Pieces(stream), c.index);
    PayloadOfUnique(Fold(a, stream).outputs, p);
  }

  // ---------- without aggregation a piece replaces the one before ----------

  lemma StepReplaces(outs: seq<Completion>, next: Completion, index: int)
    ensures var merged, i := MergeOne(outs, next, false), Find(outs, index);
            if next.index == index then Find(merged, index) == i < |merged| && merged[i] == next
            else if i < |outs| then Find(merged, index) == i < |merged| && merged[i] == outs[i]
            else Find(merged, index) == |merged|
  {
    var merged, i := MergeOne(outs, next, false), Find(outs, index);
    assert forall j :: 0 <= j < |outs| ==> merged[j].index == outs[j].index;
    if next.index == index {
      assert merged[i].index == index;
    } else {
      NotFoundIff(outs, index);
      NotFoundIff(merged, index);
      if i < |outs| { assert merged[i].index == index; }
    }
  }

  lemma {:induction false} StaysUnreplaced(outs: seq<Completion>, nexts: seq<Completion>, index: int)
    requires NoneHas(nexts, index)
    ensures var merged, i := MergeAll(outs, nexts, false), Find(outs, index);
            if i < |outs| then Find(merged, index) == i < |merged| && merged[i] == outs[i]
            else Find(merged, index) == |merged|
  {
    if nexts != [] {
      var n := |nexts| - 1;
      NoneHasPrefix(nexts, index, n);
      StaysUnreplaced(outs, nexts[..n], index);
      StepReplaces(MergeAll(outs, nexts[..n], false), nexts[n], index);
    }
  }

  /** The completion of an index is the last piece with that index. */
  lemma {:induction false} ReplacedByLast(outs: seq<Completion>, nexts: seq<Completion>, k: nat)
    requires IsLast(nexts, k)
    ensures var merged := MergeAll(outs, nexts, false);
            var i := Find(merged, nexts[k].index);
            i < |merged| && merged[i] == nexts[k]
  {
    var n := |nexts| - 1;
    StepReplaces(MergeAll(outs, nexts[..n], false), nexts[n], nexts[k].index);
    if k < n { ReplacedByLast(outs, nexts[..n], k); }
  }

  // ---------- the order of the completions ----------

  function Indices(outs: seq<Completion>): (s: seq<int>)
    ensures |s| == |outs| && forall i :: 0 <= i < |outs| ==> s[i] == outs[i].index
  {
    seq(|outs|, i requires 0 <= i < |outs| => outs[i].index)
  }

  lemma IndicesAppended(all: seq<Completion>, next: Completion)
    ensures Indices(all + [next]) == Indices(all) + [next.index]
  {}

  lemma IndicesAfterStep(outs: seq<Completion>, next: Completion, aggregate: bool)
    ensures Indices(MergeOne(outs, next, aggregate))
         == if next.index in Indices(outs) then Indices(outs) else Indices(outs) + [next.index]
  {
    var i := Find(outs, next.index);
    assert i < |outs| ==> Indices(outs)[i] == next.index;
    if next.index in Indices(outs) {
      var j :| 0 <= j < |outs| && Indices(outs)[j] == next.index;
      assert outs[j].index == next.index;
    }
  }

  lemma StepListsInOrder(before: seq<Completion>, all: seq<Completion>, next: Completion, aggregate: bool)
    requires ListsInOrder(Indices(before), Indices(all))
    ensures ListsInOrder(Indices(MergeOne(before, next, aggregate)), Indices(all + [next]))
  {
    var d, x := Indices(before), next.index;
    IndicesAfterStep(before, next, aggregate);
    IndicesAppended(all, next);
    assert Indices(MergeOne(before, next, aggregate)) == if x in d then d else d + [x];
    OneMoreItem(d, Indices(all), x);
  }

  /** Completions stand in the order in which their indices first appear, at the start and then in the pieces. */
  lemma {:induction false} MergeListsInOrder(outs: seq<Completion>, nexts: seq<Completion>, aggregate: bool)
    requires UniqueIndices(outs)
    ensures ListsInOrder(Indices(MergeAll(outs, nexts, aggregate)), Indices(outs + nexts))
  {
    if nexts == [] {
      ListsItself(Indices(outs));
      assert outs + nexts == outs;
    } else {
      var n := |nexts| - 1;
      MergeListsInOrder(outs, nexts[..n], aggregate);
      StepListsInOrder(MergeAll(outs, nexts[..n], aggregate), outs + nexts[..n], nexts[n], aggregate);
      assert outs + nexts == outs + nexts[..n] + [nexts[n]];
    }
  }

  // ---------- exactly when the assertion fails ----------

  ghost predicate IsFirst(pieces: seq<Completion>, k: nat) {
    k < |pieces| && forall l :: 0 <= l < k ==> pieces[l].index != pieces[k].index
  }

  /** Whether a completion has a list is decided by its first piece. */
  lemma {:induction false} ListOfFirst(outs: seq<Completion>, nexts: seq<Completion>, k: nat)
    requires IsFirst(outs + nexts, k)
    ensures var merged := MergeAll(outs, nexts, true);
            var i := Find(merged, (outs + nexts)[k].index);
            i < |merged| && (merged[i].logprobs.Some? <==> (outs + nexts)[k].logprobs.Some?)
  {
    var index := (outs + nexts)[k].index;
    if nexts == [] {
      assert outs + nexts == outs;
    } else {
      var n := |nexts| - 1;
      var before := MergeAll(outs, nexts[..n], true);
      assert forall l :: 0 <= l < |outs| + n ==> (outs + nexts[..n])[l] == (outs + nexts)[l];
      if k < |outs| + n {
        ListOfFirst(outs, nexts[..n], k);
      } else {
        assert NoneHas(outs + nexts[..n], index);
        NoneHasSplit(outs, nexts[..n], index);
        IndicesOfMerge(outs, nexts[..n], index);
        NotFoundIff(before, index);
      }
      if nexts[n].index == index {
        FindAfterMerge(before, nexts[n]);
      } else {
        OtherIsUntouched(before, nexts[n], index);
      }
    }
  }

  /** Piece l brings values for an index whose first piece, k, has no list. */
  ghost predicate FailsAt(pieces: seq<Completion>, k: nat, l: nat) {
    && IsFirst(pieces, k) && l < |pieces| && pieces[l].index == pieces[k].index
    && pieces[k].logprobs.None? && pieces[l].logprobs.Some? && |pieces[l].logprobs.value| > 0
  }

  ghost predicate Fails(pieces: seq<Completion>, from: nat) {
    exists k: nat, l: nat :: from <= l && FailsAt(pieces, k, l)
  }

  lemma FailsStep(pieces: seq<Completion>, from: nat, n: nat, first: nat)
    requires |pieces| == n + 1 && from <= n && IsFirst(pieces, first) && pieces[first].index == pieces[n].index
    ensures Fails(pieces, from) <==> Fails(pieces[..n], from) || (HasValues(pieces[n]) && pieces[first].logprobs.None?)
  {
    assert forall l :: 0 <= l < n ==> pieces[..n][l] == pieces[l];
    if k: nat, l: nat :| from <= l && FailsAt(pieces[..n], k, l) { assert FailsAt(pieces, k, l); }
    if k: nat, l: nat :| from <= l && FailsAt(pieces, k, l) {
      if l < n { assert FailsAt(pieces[..n], k, l); } else { assert k == first; }
    }
    if HasValues(pieces[n]) && pieces[first].logprobs.None? { assert FailsAt(pieces, first, n); }
  }

  lemma FirstOf(pieces: seq<Completion>, n: nat) returns (k: nat)
    requires n < |pieces|
    ensures k <= n && IsFirst(pieces, k) && pieces[k].index == pieces[n].index
  {
    k := 0;
    while pieces[k].index != pieces[n].index
      invariant k <= n && forall l :: 0 <= l < k ==> pieces[l].index != pieces[n].index
      decreases n - k
    {
      k := k + 1;
    }
  }

  lemma StepIsCleanIff(outs: seq<Completion>, nexts: seq<Completion>, n: nat, first: nat)
    requires |nexts| == n + 1 && IsFirst(outs + nexts, first) && (outs + nexts)[first].index == nexts[n].index
    ensures StepsCleanly(MergeAll(outs, nexts[..n], true), nexts[n], true)
       <==> !(HasValues(nexts[n]) && (outs + nexts)[first].logprobs.None?)
  {
    var before := MergeAll(outs, nexts[..n], true);
    var all, front := outs + nexts, outs + nexts[..n];
    assert forall l :: 0 <= l < |outs| + n ==> front[l] == all[l];
    assert all[|outs| + n] == nexts[n];
    if first < |outs| + n {
      ListOfFirst(outs, nexts[..n], first);
    } else {
      assert NoneHas(front, nexts[n].index);
      NoneHasSplit(outs, nexts[..n], nexts[n].index);
      IndicesOfMerge(outs, nexts[..n], nexts[n].index);
      NotFoundIff(before, nexts[n].index);
    }
  }

  /** The assertion fails exactly when values come for an index whose first piece has no list. */
  lemma {:induction false} MergesCleanlyIff(outs: seq<Completion>, nexts: seq<Completion>)
    ensures MergesCleanly(outs, nexts, true) <==> !Fails(outs + nexts, |outs|)
  {
    if nexts != [] {
      var n := |nexts| - 1;
      var all := outs + nexts;
      MergesCleanlyIff(outs, nexts[..n]);
      var first := FirstOf(all, |outs| + n);
      assert all[..|outs| + n] == outs + nexts[..n] && all[|outs| + n] == nexts[n];
      FailsStep(all, |outs|, |outs| + n, first);
      StepIsCleanIff(outs, nexts, n, first);
    }
  }
}
