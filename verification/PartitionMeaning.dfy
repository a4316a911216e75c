/**
  What the signatures of PartitionSignature say, name by name: by the nodes of the partitions and by
  what later partitions and the caller take, without the sets that the pass computes.
 */
module PartitionMeaning {
  import opened PartitionSignature

  // ---------- one partition, by its nodes ----------

  ghost predicate Makes(p: Partition, n: Name) { exists k :: 0 <= k < |p| && n in p[k].outputs }

  ghost predicate Frees(p: Partition, n: Name) { exists k :: 0 <= k < |p| && n in p[k].lastUsage }

  ghost predicate HasDep(p: Partition, d: Dep) { exists k :: 0 <= k < |p| && d in p[k].readWrites }

  ghost predicate Touches(p: Partition, n: Name) { HasDep(p, MemoryDep(n)) || HasDep(p, WeakDep(n)) }

  /** n is the real name of an allocated foreign buffer that the partition touches, or is freed by it. */
  ghost predicate Takes(g: Graph, p: Partition, n: Name) {
    || (exists m :: Touches(p, m) && !g.IsNoneLayout(m) && !Makes(p, m) && g.Real(m) == n)
    || (Frees(p, n) && !Makes(p, n) && n in g.nodes)
  }

  lemma {:induction false} OutputsAre(p: Partition, n: Name)
    ensures n in Outputs(p) <==> Makes(p, n)
  {
    if p != [] {
      var m := |p| - 1;
      OutputsAre(p[..m], n);
      if Makes(p[..m], n) {
        var k :| 0 <= k < m && n in p[..m][k].outputs;
        assert n in p[k].outputs;
      }
      if k :| 0 <= k < m && n in p[k].outputs { assert n in p[..m][k].outputs; }
    }
  }

  lemma {:induction false} FreedAre(p: Partition, n: Name)
    ensures n in Freed(p) <==> Frees(p, n)
  {
    if p != [] {
      var m := |p| - 1;
      FreedAre(p[..m], n);
      if Frees(p[..m], n) {
        var k :| 0 <= k < m && n in p[..m][k].lastUsage;
        assert n in p[k].lastUsage;
      }
      if k :| 0 <= k < m && n in p[k].lastUsage { assert n in p[..m][k].lastUsage; }
    }
  }

  lemma HasDepStep(p: Partition, m: nat, d: Dep)
    requires |p| == m + 1
    ensures HasDep(p, d) <==> HasDep(p[..m], d) || d in p[m].readWrites
  {
    if HasDep(p[..m], d) {
      var k :| 0 <= k < m && d in p[..m][k].readWrites;
      assert d in p[k].readWrites;
    }
    if k :| 0 <= k < m && d in p[k].readWrites { assert d in p[..m][k].readWrites; }
  }

  lemma {:induction false} DepsAre(p: Partition, n: Name)
    ensures n in Deps(p) <==> Touches(p, n)
  {
    if p != [] {
      var m := |p| - 1;
      DepsAre(p[..m], n);
      HasDepStep(p, m, MemoryDep(n));
      HasDepStep(p, m, WeakDep(n));
      assert n in Deps(p) <==> n in Deps(p[..m]) || exists d :: d in p[m].readWrites && d.name == n;
    }
  }

  lemma TakesIff(g: Graph, p: Partition, n: Name)
    ensures n in FlowOf(g, p).inputNames <==> Takes(g, p, n)
  {
    FreedAre(p, n);
    OutputsAre(p, n);
    forall m ensures m in Deps(p) && m !in Outputs(p) <==> Touches(p, m) && !Makes(p, m) {
      DepsAre(p, m);
      OutputsAre(p, m);
    }
  }

  /** f holds what the partition makes, takes and frees. */
  ghost predicate IsFlow(g: Graph, p: Partition, f: Flow) {
    forall n :: (n in f.outputs <==> Makes(p, n)) && (n in f.inputNames <==> Takes(g, p, n))
                && (n in f.freed <==> Frees(p, n))
  }

  lemma FlowMeans(g: Graph, p: Partition)
    ensures IsFlow(g, p, FlowOf(g, p))
  {
    forall n
      ensures n in FlowOf(g, p).outputs <==> Makes(p, n)
      ensures n in FlowOf(g, p).inputNames <==> Takes(g, p, n)
      ensures n in FlowOf(g, p).freed <==> Frees(p, n)
    {
      OutputsAre(p, n);
      TakesIff(g, p, n);
      FreedAre(p, n);
    }
  }

  // ---------- all partitions ----------

  /** Partition i returns n: a buffer of that real name is made here and wanted, or taken and not freed. */
  ghost predicate Returns(g: Graph, ps: seq<Partition>, i: nat, n: Name)
    requires i < |ps|
    decreases |ps| - i, 0
  {
    exists m :: g.Real(m) == n &&
      ((Makes(ps[i], m) && Wanted(g, ps, i + 1, m)) || (Takes(g, ps[i], m) && m in g.nodes && !Frees(ps[i], m)))
  }

  /** n is wanted from partition i on: by one of them, or by the caller, and returned by none in between. */
  ghost predicate Wanted(g: Graph, ps: seq<Partition>, i: nat, n: Name)
    requires i <= |ps|
    decreases |ps| - i, 2
  {
    exists j :: WantedBy(g, ps, i, j, n)
  }

  ghost predicate WantedBy(g: Graph, ps: seq<Partition>, i: nat, j: nat, n: Name)
    requires i <= |ps|
    decreases |ps| - i, 1
  {
    && i <= j <= |ps| && (if j == |ps| then n in g.outputs else Takes(g, ps[j], n))
    && forall k :: i <= k < j ==> !Returns(g, ps, k, n)
  }

  lemma WantedStep(g: Graph, ps: seq<Partition>, i: nat, n: Name)
    requires i < |ps|
    ensures Wanted(g, ps, i, n) <==> Takes(g, ps[i], n) || (Wanted(g, ps, i + 1, n) && !Returns(g, ps, i, n))
  {
    if j :| WantedBy(g, ps, i, j, n) && j != i { assert WantedBy(g, ps, i + 1, j, n); }
    if Takes(g, ps[i], n) { assert WantedBy(g, ps, i, i, n); }
    if Wanted(g, ps, i + 1, n) && !Returns(g, ps, i, n) {
      var j :| WantedBy(g, ps, i + 1, j, n);
      assert WantedBy(g, ps, i, j, n);
    }
  }

  lemma WantedAtEnd(g: Graph, ps: seq<Partition>, n: Name)
    ensures Wanted(g, ps, |ps|, n) <==> n in g.outputs
  {
    if n in g.outputs { assert WantedBy(g, ps, |ps|, |ps|, n); }
  }

  ghost predicate AreWanted(g: Graph, ps: seq<Partition>, i: nat, unmet: set<Name>)
    requires i <= |ps|
  {
    forall n :: n in unmet <==> Wanted(g, ps, i, n)
  }

  /** What a partition returns, given that the unmet names behind it are the wanted ones. */
  lemma ReturnedIff(g: Graph, ps: seq<Partition>, i: nat, f: Flow, unmet: set<Name>, n: Name)
    requires i < |ps| && IsFlow(g, ps[i], f) && AreWanted(g, ps, i + 1, unmet)
    ensures n in Returned(g, f, unmet) <==> Returns(g, ps, i, n)
  {}

  lemma UnmetStep(g: Graph, ps: seq<Partition>, i: nat, f: Flow, unmet: set<Name>)
    requires i < |ps| && IsFlow(g, ps[i], f) && AreWanted(g, ps, i + 1, unmet)
    ensures AreWanted(g, ps, i, UnmetBefore(g, f, unmet))
  {
    forall n ensures n in UnmetBefore(g, f, unmet) <==> Wanted(g, ps, i, n) {
      ReturnedIff(g, ps, i, f, unmet, n);
      WantedStep(g, ps, i, n);
    }
  }

  ghost predicate FlowIsFlow(g: Graph, ps: seq<Partition>, fs: seq<Flow>, k: nat)
    requires k < |ps| == |fs|
  {
    IsFlow(g, ps[k], fs[k])
  }

  ghost predicate FlowsAreFlows(g: Graph, ps: seq<Partition>, fs: seq<Flow>)
    requires |ps| == |fs|
  {
    forall k :: 0 <= k < |ps| ==> FlowIsFlow(g, ps, fs, k)
  }

  lemma FlowsMean(g: Graph, ps: seq<Partition>)
    ensures FlowsAreFlows(g, ps, FlowsOf(g, ps))
  {
    forall k | 0 <= k < |ps| ensures FlowIsFlow(g, ps, FlowsOf(g, ps), k) { FlowMeans(g, ps[k]); }
  }

  /** The unmet names are the wanted ones. */
  lemma {:induction false} UnmetAreWanted(g: Graph, ps: seq<Partition>, fs: seq<Flow>, i: nat)
    requires i <= |ps| == |fs| && FlowsAreFlows(g, ps, fs)
    ensures AreWanted(g, ps, i, Unmet(g, fs, i))
    decreases |ps| - i
  {
    if i == |ps| {
      forall n ensures n in Unmet(g, fs, i) <==> Wanted(g, ps, i, n) { WantedAtEnd(g, ps, n); }
    } else {
      assert FlowIsFlow(g, ps, fs, i);
      UnmetAreWanted(g, ps, fs, i + 1);
      UnmetStep(g, ps, i, fs[i], Unmet(g, fs, i + 1));
    }
  }

  // ---------- the signatures ----------

  /** What the signature of partition i lists, name by name. */
  ghost predicate IsSignatureOf(g: Graph, ps: seq<Partition>, i: nat, skip: bool, s: Signature)
    requires i < |ps|
  {
    && (forall n :: n in s.inputs <==> Takes(g, ps[i], n) && n in g.nodes)
    && (forall n :: n in s.deallocated <==> Takes(g, ps[i], n) && n in g.nodes && Frees(ps[i], n))
    && (forall n :: n in s.outputs <==> Returns(g, ps, i, n) && !g.IsNoneLayout(n))
    && (forall n :: n in s.constants <==> Takes(g, ps[i], n) && n in g.constants)
    && s.skipCudagraph == skip
  }

  lemma SignatureMeans(g: Graph, ps: seq<Partition>, i: nat, f: Flow, unmet: set<Name>, skip: bool)
    requires i < |ps| && IsFlow(g, ps[i], f) && AreWanted(g, ps, i + 1, unmet)
    ensures IsSignatureOf(g, ps, i, skip, SignatureOf(g, f, unmet, skip))
  {
    forall n ensures n in Returned(g, f, unmet) <==> Returns(g, ps, i, n) { ReturnedIff(g, ps, i, f, unmet, n); }
  }

  lemma {:induction false} SignaturesFromMean(g: Graph, ps: seq<Partition>, fs: seq<Flow>, skips: seq<bool>, i: nat,
                                              k: nat)
    requires k <= i < |ps| == |fs| == |skips| && FlowsAreFlows(g, ps, fs)
    ensures IsSignatureOf(g, ps, i, skips[i], SignaturesFrom(g, fs, skips, k)[i - k])
    decreases i - k
  {
    if k < i {
      SignaturesFromMean(g, ps, fs, skips, i, k + 1);
    } else {
      assert FlowIsFlow(g, ps, fs, i);
      UnmetAreWanted(g, ps, fs, i + 1);
      SignatureMeans(g, ps, i, fs[i], Unmet(g, fs, i + 1), skips[i]);
    }
  }

  lemma SignaturesMean(g: Graph, ps: seq<Partition>, fs: seq<Flow>, skips: seq<bool>)
    requires |ps| == |fs| == |skips| && FlowsAreFlows(g, ps, fs)
    ensures forall i :: 0 <= i < |ps| ==> IsSignatureOf(g, ps, i, skips[i], SignaturesFrom(g, fs, skips, 0)[i])
  {
    forall i | 0 <= i < |ps| ensures IsSignatureOf(g, ps, i, skips[i], SignaturesFrom(g, fs, skips, 0)[i]) {
      SignaturesFromMean(g, ps, fs, skips, i, 0);
    }
  }

  /** Some returned, allocated name of partition k has no node. */
  ghost predicate LacksNode(g: Graph, ps: seq<Partition>, k: nat)
    requires k < |ps|
  {
    exists n :: Returns(g, ps, k, n) && !g.IsNoneLayout(n) && n !in g.nodes
  }

  lemma OutputsHaveNodesIff(g: Graph, ps: seq<Partition>, i: nat, f: Flow, unmet: set<Name>)
    requires i < |ps| && IsFlow(g, ps[i], f) && AreWanted(g, ps, i + 1, unmet)
    ensures OutputNodes(g, f, unmet) <= g.nodes <==> !LacksNode(g, ps, i)
  {
    forall n ensures n in Returned(g, f, unmet) <==> Returns(g, ps, i, n) { ReturnedIff(g, ps, i, f, unmet, n); }
  }

  lemma {:induction false} ReturnedHaveNodesIff(g: Graph, ps: seq<Partition>, fs: seq<Flow>, i: nat)
    requires i <= |ps| == |fs| && FlowsAreFlows(g, ps, fs)
    ensures ReturnedHaveNodes(g, fs, i) <==> forall k :: i <= k < |ps| ==> !LacksNode(g, ps, k)
    decreases |ps| - i
  {
    if i < |ps| {
      assert FlowIsFlow(g, ps, fs, i);
      UnmetAreWanted(g, ps, fs, i + 1);
      OutputsHaveNodesIff(g, ps, i, fs[i], Unmet(g, fs, i + 1));
      ReturnedHaveNodesIff(g, ps, fs, i + 1);
    }
  }

  /**
    get_graph_partition_signature, name by name. The last min(|partitions|, |flags|) partitions get a
    signature each, with the flag at the same distance from the end; the KeyError is a returned,
    allocated name without a node.
   */
  method SignByName(g: Graph, partitions: seq<Partition>, skipCudagraphs: seq<bool>)
    returns (r: Result<seq<Signature>>)
    ensures var n := if |partitions| < |skipCudagraphs| then |partitions| else |skipCudagraphs|;
            var ps, skips := partitions[|partitions| - n..], skipCudagraphs[|skipCudagraphs| - n..];
            && (r.Ok? <==> forall i :: 0 <= i < n ==> !LacksNode(g, ps, i))
            && (r.Ok? ==> |r.value| == n && forall i :: 0 <= i < n ==> IsSignatureOf(g, ps, i, skips[i], r.value[i]))
  {
    r := GetSignatures(g, partitions, skipCudagraphs);
    ghost var n := if |partitions| < |skipCudagraphs| then |partitions| else |skipCudagraphs|;
    ghost var ps, skips := LastN(partitions, n), LastN(skipCudagraphs, n);
    FlowsMean(g, ps);
    ReturnedHaveNodesIff(g, ps, FlowsOf(g, ps), 0);
    SignaturesMean(g, ps, FlowsOf(g, ps), skips);
  }
}
