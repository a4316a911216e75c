/**
  RequestOutputCollector.put of vllm/v1/engine/output_processor.py while nothing is taken out: the
  outputs of a stream are added one by one to the first.
 */
module OutputCollector {
  import opened Options
  import opened OutputMerging
  import opened OutputFolding
  import opened RequestOutputs

  /** held shares nothing with the lists from k on, nor do these share with each other. */
  ghost predicate Separate(held: seq<CompletionOutput>, lists: seq<seq<CompletionOutput>>, k: nat) {
    && DistinctObjects(held)
    && (forall j :: k <= j < |lists| ==> DistinctObjects(lists[j]) && Apart(held, lists[j]))
    && forall j, l :: k <= j < l < |lists| ==> Apart(lists[j], lists[l])
  }

  ghost predicate Within(held: seq<CompletionOutput>, pool: set<CompletionOutput>) {
    forall i :: 0 <= i < |held| ==> held[i] in pool
  }

  /** The outputs from k on still hold what the lists and pieces say. */
  ghost predicate Pending(a: RequestOutput, stream: seq<RequestOutput>, k: nat, lists: seq<seq<CompletionOutput>>,
                          pieces: seq<Output>, pool: set<CompletionOutput>)
    requires |stream| == |lists| == |pieces|
    reads stream, pool
  {
    forall j :: k <= j < |stream| ==>
      && stream[j] != a && stream[j].outputs == lists[j] && Within(lists[j], pool)
      && stream[j].Contents() == pieces[j]
  }

  lemma SeparateStep(held: seq<CompletionOutput>, lists: seq<seq<CompletionOutput>>, k: nat)
    requires k < |lists| && Separate(held, lists, k)
    requires DistinctObjects(TakenAll(held, lists[k], true))
    ensures Separate(TakenAll(held, lists[k], true), lists, k + 1)
  {
    forall j | k + 1 <= j < |lists| ensures Apart(TakenAll(held, lists[k], true), lists[j]) {
      TakenIsApart(held, lists[k], lists[j]);
    }
  }

  method Put(a: RequestOutput, stream: seq<RequestOutput>, k: nat, ghost lists: seq<seq<CompletionOutput>>,
             ghost pieces: seq<Output>, ghost pool: set<CompletionOutput>)
    returns (ok: bool)
    requires k < |stream| == |lists| == |pieces|
    requires Separate(a.outputs, lists, k) && Within(a.outputs, pool) && Pending(a, stream, k, lists, pieces, pool)
    modifies a, pool
    ensures ok <==> MergesCleanly(old(a.Contents()).outputs, pieces[k].outputs, true)
    ensures ok ==> Separate(a.outputs, lists, k + 1) && Within(a.outputs, pool)
    ensures ok ==> Pending(a, stream, k + 1, lists, pieces, pool)
    ensures ok ==> a.Contents() == OutputMerging.Add(old(a.Contents()), pieces[k], true)
  {
    ghost var held := a.outputs;
    assert Values(stream[k].outputs) == pieces[k].outputs;
    ok := a.Add(stream[k], true);
    if ok {
      SeparateStep(held, lists, k);
      TakenAllFrom(held, lists[k], true);
    }
  }

  lemma FoldStaysUniform(start: Output, pieces: seq<Output>, k: nat, present: bool)
    requires k <= |pieces| && UniqueIndices(start.outputs) && Uniform(start.outputs, present)
    requires forall j :: 0 <= j < |pieces| ==> Uniform(pieces[j].outputs, present)
    ensures Uniform(Fold(start, pieces[..k]).outputs, present)
  {
    FoldCollectsByIndex(start, pieces[..k], 0, present);
  }

  lemma NextPutIsClean(start: Output, pieces: seq<Output>, k: nat, present: bool)
    requires k < |pieces| && UniqueIndices(start.outputs) && Uniform(start.outputs, present)
    requires forall j :: 0 <= j < |pieces| ==> Uniform(pieces[j].outputs, present)
    ensures MergesCleanly(Fold(start, pieces[..k]).outputs, pieces[k].outputs, true)
    ensures Fold(start, pieces[..k + 1]) == OutputMerging.Add(Fold(start, pieces[..k]), pieces[k], true)
  {
    FoldStaysUniform(start, pieces, k, present);
    UniformMergesCleanly(Fold(start, pieces[..k]).outputs, pieces[k].outputs, present);
    assert pieces[..k + 1][..k] == pieces[..k];
  }

  /**
    With log probabilities for all or none, the whole stream ends up in a, folded. The outputs share
    no completion to begin with; pool holds all of them.
   */
  method PutAll(a: RequestOutput, stream: seq<RequestOutput>, ghost lists: seq<seq<CompletionOutput>>,
                ghost pieces: seq<Output>, ghost pool: set<CompletionOutput>, ghost present: bool)
    requires |stream| == |lists| == |pieces|
    requires Separate(a.outputs, lists, 0) && Within(a.outputs, pool) && Pending(a, stream, 0, lists, pieces, pool)
    requires UniqueIndices(Values(a.outputs)) && Uniform(Values(a.outputs), present)
    requires forall k :: 0 <= k < |pieces| ==> Uniform(pieces[k].outputs, present)
    modifies a, pool
    ensures a.Contents() == Fold(old(a.Contents()), pieces)
  {
    ghost var start := a.Contents();
    assert pieces[..0] == [];
    for k := 0 to |stream|
      invariant Separate(a.outputs, lists, k) && Within(a.outputs, pool) && Pending(a, stream, k, lists, pieces, pool)
      invariant a.Contents() == Fold(start, pieces[..k])
    {
      NextPutIsClean(start, pieces, k, present);
      var _ := Put(a, stream, k, lists, pieces, pool);
    }
    assert pieces[..|stream|] == pieces;
  }
}
