/**
  What a stream of outputs holds once it has been folded into one: RequestOutput.add of
  vllm/outputs.py, applied again and again.
 */
module OutputFolding {
  import opened OutputMerging

  // ---------- what a folded stream holds ----------

  /** Text, tokens and log probabilities of all pieces with an index, in order. */
  datatype Payload = Payload(text: string, tokenIds: seq<int>, logprobs: seq<int>)

  function Append(p: Payload, q: Payload): Payload {
    Payload(p.text + q.text, p.tokenIds + q.tokenIds, p.logprobs + q.logprobs)
  }

  const EMPTY := Payload("", [], [])

  function PayloadOf(c: Completion): Payload {
    Payload(c.text, c.tokenIds, if c.logprobs.Some? then c.logprobs.value else [])
  }

  function PayloadAt(outs: seq<Completion>, index: int): Payload {
    if outs == [] then EMPTY
    else
      var n := |outs| - 1;
      if outs[n].index == index then Append(PayloadAt(outs[..n], index), PayloadOf(outs[n]))
      else PayloadAt(outs[..n], index)
  }

  function Fold(a: Output, stream: seq<Output>): Output {
    if stream == [] then a else Add(Fold(a, stream[..|stream| - 1]), stream[|stream| - 1], true)
  }

  /** The pieces of the whole stream, in arrival order. */
  function Pieces(stream: seq<Output>): seq<Completion> {
    if stream == [] then [] else Pieces(stream[..|stream| - 1]) + stream[|stream| - 1].outputs
  }

  lemma AppendAssociates(p: Payload, q: Payload, r: Payload)
    ensures Append(Append(p, q), r) == Append(p, Append(q, r))
  {
    assert (p.text + q.text) + r.text == p.text + (q.text + r.text);
    assert (p.tokenIds + q.tokenIds) + r.tokenIds == p.tokenIds + (q.tokenIds + r.tokenIds);
    assert (p.logprobs + q.logprobs) + r.logprobs == p.logprobs + (q.logprobs + r.logprobs);
  }

  lemma AppendEmpty(p: Payload)
    ensures Append(p, EMPTY) == p && Append(EMPTY, p) == p
  {
    assert p.text + [] == p.text && [] + p.text == p.text;
    assert p.tokenIds + [] == p.tokenIds && [] + p.tokenIds == p.tokenIds;
    assert p.logprobs + [] == p.logprobs && [] + p.logprobs == p.logprobs;
  }

  lemma {:induction false} PayloadConcat(a: seq<Completion>, b: seq<Completion>, index: int)
    ensures PayloadAt(a + b, index) == Append(PayloadAt(a, index), PayloadAt(b, index))
  {
    if b == [] {
      assert a + b == a;
      AppendEmpty(PayloadAt(a, index));
    } else {
      var n := |b| - 1;
      assert (a + b)[..|a + b| - 1] == a + b[..n];
      PayloadConcat(a, b[..n], index);
      AppendAssociates(PayloadAt(a, index), PayloadAt(b[..n], index), PayloadOf(b[n]));
    }
  }

  lemma {:induction false} PayloadOfOthers(outs: seq<Completion>, index: int)
    requires forall i :: 0 <= i < |outs| ==> outs[i].index != index
    ensures PayloadAt(outs, index) == EMPTY
  {
    if outs != [] { PayloadOfOthers(outs[..|outs| - 1], index); }
  }

  lemma SplitPayload(front: seq<Completion>, c: Completion, rest: seq<Completion>, index: int)
    ensures PayloadAt(front + ([c] + rest), index)
         == Append(PayloadAt(front, index),
                   Append(if c.index == index then PayloadOf(c) else EMPTY, PayloadAt(rest, index)))
  {
    PayloadConcat(front, [c] + rest, index);
    PayloadConcat([c], rest, index);
    assert [c][..0] == [];
    AppendEmpty(PayloadOf(c));
  }

  lemma CombinedPayload(front: seq<Completion>, c: Completion, rest: seq<Completion>, next: Completion, index: int)
    requires c.index == next.index && c.logprobs.Some? == next.logprobs.Some?
    requires forall k :: 0 <= k < |rest| ==> rest[k].index != next.index
    ensures PayloadAt(front + ([Combine(c, next)] + rest), index)
         == if next.index == index then Append(PayloadAt(front + ([c] + rest), index), PayloadOf(next))
            else PayloadAt(front + ([c] + rest), index)
  {
    SplitPayload(front, c, rest, index);
    SplitPayload(front, Combine(c, next), rest, index);
    if next.index == index {
      PayloadOfOthers(rest, index);
      AppendEmpty(PayloadOf(c));
      AppendEmpty(PayloadOf(Combine(c, next)));
      AppendAssociates(PayloadAt(front, index), PayloadOf(c), PayloadOf(next));
      assert PayloadOf(Combine(c, next)) == Append(PayloadOf(c), PayloadOf(next));
    }
  }

  /** One merge appends the piece's payload to its own index and leaves the others alone. */
  lemma MergeOnePayload(outs: seq<Completion>, next: Completion, index: int, present: bool)
    requires UniqueIndices(outs) && Uniform(outs, present) && next.logprobs.Some? == present
    ensures PayloadAt(MergeOne(outs, next, true), index)
         == if next.index == index then Append(PayloadAt(outs, index), PayloadOf(next)) else PayloadAt(outs, index)
  {
    var i := Find(outs, next.index);
    if i == |outs| {
      assert (outs + [next])[..|outs|] == outs;
    } else {
      SplitsAround(outs, i, Combine(outs[i], next));
      var rest := outs[i + 1..];
      forall k | 0 <= k < |rest| ensures rest[k].index != next.index { assert rest[k] == outs[i + 1 + k]; }
      CombinedPayload(outs[..i], outs[i], rest, next, index);
    }
  }

  lemma {:induction false} MergeAllPayload(outs: seq<Completion>, nexts: seq<Completion>, index: int, present: bool)
    requires UniqueIndices(outs) && Uniform(outs, present) && Uniform(nexts, present)
    ensures PayloadAt(MergeAll(outs, nexts, true), index) == Append(PayloadAt(outs, index), PayloadAt(nexts, index))
  {
    if nexts == [] {
      AppendEmpty(PayloadAt(outs, index));
    } else {
      var n := |nexts| - 1;
      assert forall k :: 0 <= k < n ==> nexts[..n][k] == nexts[k];
      MergeAllPayload(outs, nexts[..n], index, present);
      MergeAllKeeps(outs, nexts[..n], present);
      MergeOnePayload(MergeAll(outs, nexts[..n], true), nexts[n], index, present);
      AppendAssociates(PayloadAt(outs, index), PayloadAt(nexts[..n], index), PayloadOf(nexts[n]));
    }
  }

  lemma IndicesOneMore(outs: seq<Completion>, next: Completion, index: int)
    ensures NoneHas(MergeOne(outs, next, true), index) <==> NoneHas(outs, index) && next.index != index
  {
    NotFoundIff(outs, index);
    NotFoundIff(MergeOne(outs, next, true), index);
    if next.index == index { FindAfterMerge(outs, next); } else { OtherIsUntouched(outs, next, index); }
  }

  lemma NoneHasSplit(a: seq<Completion>, b: seq<Completion>, index: int)
    ensures NoneHas(a + b, index) <==> NoneHas(a, index) && NoneHas(b, index)
  {
    if NoneHas(a + b, index) {
      forall k | 0 <= k < |b| ensures b[k].index != index { assert (a + b)[|a| + k] == b[k]; }
      forall k | 0 <= k < |a| ensures a[k].index != index { assert (a + b)[k] == a[k]; }
    }
  }

  lemma {:induction false} IndicesOfMerge(outs: seq<Completion>, nexts: seq<Completion>, index: int)
    ensures NoneHas(MergeAll(outs, nexts, true), index) <==> NoneHas(outs, index) && NoneHas(nexts, index)
  {
    if nexts != [] {
      var n := |nexts| - 1;
      var before := MergeAll(outs, nexts[..n], true);
      IndicesOfMerge(outs, nexts[..n], index);
      IndicesOneMore(before, nexts[n], index);
      NoneHasSplit(nexts[..n], [nexts[n]], index);
      assert nexts == nexts[..n] + [nexts[n]];
    }
  }

  /**
    Folding any stream, however the indices interleave, leaves one completion for every index that
    occurs at the start or in the stream, with exactly its text, tokens and log probabilities in
    arrival order.
   */
  lemma {:induction false} FoldCollectsByIndex(a: Output, stream: seq<Output>, index: int, present: bool)
    requires UniqueIndices(a.outputs) && Uniform(a.outputs, present)
    requires forall k :: 0 <= k < |stream| ==> Uniform(stream[k].outputs, present)
    ensures UniqueIndices(Fold(a, stream).outputs) && Uniform(Fold(a, stream).outputs, present)
    ensures NoneHas(Fold(a, stream).outputs, index) <==> NoneHas(a.outputs, index) && NoneHas(Pieces(stream), index)
    ensures PayloadAt(Fold(a, stream).outputs, index)
         == Append(PayloadAt(a.outputs, index), PayloadAt(Pieces(stream), index))
  {
    if stream == [] {
      AppendEmpty(PayloadAt(a.outputs, index));
    } else {
      var n := |stream| - 1;
      var before, more := Fold(a, stream[..n]).outputs, stream[n].outputs;
      FoldCollectsByIndex(a, stream[..n], index, present);
      MergeAllKeeps(before, more, present);
      IndicesOfMerge(before, more, index);
      NoneHasSplit(Pieces(stream[..n]), more, index);
      MergeAllPayload(before, more, index, present);
      PayloadConcat(Pieces(stream[..n]), more, index);
      AppendAssociates(PayloadAt(a.outputs, index), PayloadAt(Pieces(stream[..n]), index), PayloadAt(more, index));
    }
  }
}
