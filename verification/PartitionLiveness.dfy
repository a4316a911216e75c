/**
  Running the partitions in order on the signatures of PartitionSignature: each partition takes
  its inputs from the environment, the freed inputs leave it and the returned outputs enter it.
 */
module PartitionLiveness {
  import opened PartitionSignature
  import opened PartitionMeaning

  /** The names held in front of partition i. */
  ghost function Env(sigs: seq<Signature>, graphInputs: set<Name>, i: nat): set<Name>
    requires i <= |sigs|
  {
    if i == 0 then graphInputs
    else (Env(sigs, graphInputs, i - 1) - sigs[i - 1].deallocated) + sigs[i - 1].outputs
  }

  ghost predicate Available(graphInputs: set<Name>, fs: seq<Flow>, n: Name, i: nat)
    requires i <= |fs|
  {
    n in graphInputs || exists j :: 0 <= j < i && n in fs[j].outputs
  }

  // ---------- what a compiled graph looks like ----------

  ghost predicate FinalRealNames(g: Graph) {
    forall n :: n in g.mutationRealName ==>
      && g.mutationRealName[n] !in g.mutationRealName && g.mutationRealName[n] in g.nodes
      && n in g.layouts && g.layouts[n] == Mutation
  }

  ghost predicate OneProducer(g: Graph, graphInputs: set<Name>, fs: seq<Flow>) {
    && (forall i, n :: 0 <= i < |fs| && n in fs[i].outputs ==> n in g.nodes && n !in graphInputs)
    && forall i, j, n :: 0 <= i < j < |fs| && n in fs[i].outputs ==> n !in fs[j].outputs
  }

  ghost predicate InputsAreProduced(g: Graph, graphInputs: set<Name>, fs: seq<Flow>) {
    && (forall n :: n in graphInputs ==> n in g.nodes && n !in g.mutationRealName && !g.IsNoneLayout(n))
    && (forall i, n :: 0 <= i < |fs| && n in fs[i].inputNames && n in g.nodes ==> Available(graphInputs, fs, n, i))
    && forall n :: n in g.outputs ==> Available(graphInputs, fs, n, |fs|)
  }

  /** Names taken from outside are real names. */
  ghost predicate TakesRealNames(g: Graph, fs: seq<Flow>) {
    forall i, n :: 0 <= i < |fs| && n in fs[i].inputNames ==> n !in g.mutationRealName
  }

  /** A freed name is needed neither by a later partition nor by the caller. */
  ghost predicate FreedIsLastUse(g: Graph, fs: seq<Flow>) {
    && (forall i, j, n :: 0 <= i < j < |fs| && n in fs[i].freed && n in g.nodes ==> n !in fs[j].inputNames)
    && forall i, o :: 0 <= i < |fs| && o in g.outputs && g.Real(o) in g.nodes ==> g.Real(o) !in fs[i].freed
  }

  /** A partition that mutates a buffer made elsewhere also takes that buffer. */
  ghost predicate MutationsTakeTheirBuffer(g: Graph, fs: seq<Flow>) {
    forall i, o :: 0 <= i < |fs| && o in fs[i].outputs && o in g.mutationRealName ==>
      g.mutationRealName[o] in fs[i].outputs || g.mutationRealName[o] in fs[i].inputNames
  }

  ghost predicate Compiled(g: Graph, graphInputs: set<Name>, fs: seq<Flow>) {
    && FinalRealNames(g) && OneProducer(g, graphInputs, fs) && InputsAreProduced(g, graphInputs, fs)
    && TakesRealNames(g, fs) && FreedIsLastUse(g, fs) && MutationsTakeTheirBuffer(g, fs)
  }

  // ---------- what the backward pass keeps ----------

  lemma {:induction false} SignatureFrom(g: Graph, fs: seq<Flow>, skips: seq<bool>, i: nat, k: nat)
    requires k <= i < |fs| == |skips|
    ensures SignaturesFrom(g, fs, skips, k)[i - k] == SignatureOf(g, fs[i], Unmet(g, fs, i + 1), skips[i])
    decreases i - k
  {
    if k < i { SignatureFrom(g, fs, skips, i, k + 1); }
  }

  lemma {:induction false} UnmetComesFrom(g: Graph, fs: seq<Flow>, i: nat, u: Name)
    requires i <= |fs| && u in Unmet(g, fs, i)
    ensures u in g.outputs || exists j :: i <= j < |fs| && u in fs[j].inputNames
    decreases |fs| - i
  {
    if i < |fs| && u !in fs[i].inputNames { UnmetComesFrom(g, fs, i + 1, u); }
  }

  /** Returning a name that the partition neither makes nor takes is impossible. */
  lemma ReturnedIsMadeOrTaken(g: Graph, fs: seq<Flow>, i: nat, unmet: set<Name>, u: Name)
    requires TakesRealNames(g, fs) && MutationsTakeTheirBuffer(g, fs)
    requires i < |fs| && u in Returned(g, fs[i], unmet)
    ensures u in fs[i].outputs || u in fs[i].inputNames
  {
    var o :| o in fs[i].outputs * unmet + (Inputs(g, fs[i]) - fs[i].freed) && g.Real(o) == u;
    if o in fs[i].outputs && o in g.mutationRealName {
      assert g.mutationRealName[o] in fs[i].outputs || g.mutationRealName[o] in fs[i].inputNames;
    }
  }

  /** A name that a later partition takes stays unmet back to its producer. */
  lemma {:induction false} UnmetStays(g: Graph, fs: seq<Flow>, i: nat, j: nat, u: Name)
    requires TakesRealNames(g, fs) && MutationsTakeTheirBuffer(g, fs)
    requires i <= j <= |fs| && if j < |fs| then u in fs[j].inputNames else u in g.outputs
    requires forall k :: i <= k < j ==> u !in fs[k].outputs
    ensures u in Unmet(g, fs, i)
    decreases j - i
  {
    if i < j {
      UnmetStays(g, fs, i + 1, j, u);
      var unmet := Unmet(g, fs, i + 1);
      if u in Returned(g, fs[i], unmet) { ReturnedIsMadeOrTaken(g, fs, i, unmet, u); }
    }
  }

  /** A name freed by partition i is not the real name of anything needed behind it. */
  lemma FreedIsNotNeeded(g: Graph, fs: seq<Flow>, i: nat, u: Name)
    requires TakesRealNames(g, fs) && FreedIsLastUse(g, fs)
    requires i < |fs| && u in Unmet(g, fs, i + 1) && g.Real(u) in g.nodes
    ensures g.Real(u) !in fs[i].freed
  {
    UnmetComesFrom(g, fs, i + 1, u);
  }

  /** The real buffer behind a graph output is made, or taken, by the partition that mutates it. */
  lemma RealIsAvailable(g: Graph, graphInputs: set<Name>, fs: seq<Flow>, o: Name)
    requires Compiled(g, graphInputs, fs) && o in g.outputs
    ensures Available(graphInputs, fs, g.Real(o), |fs|)
    ensures o in g.mutationRealName ==> exists j :: 0 <= j < |fs| && o in fs[j].outputs
  {
    assert Available(graphInputs, fs, o, |fs|);
    if o in g.mutationRealName {
      var j :| 0 <= j < |fs| && o in fs[j].outputs;
      if g.Real(o) in fs[j].inputNames { assert Available(graphInputs, fs, g.Real(o), j); }
    }
  }

  /** A mutation of a buffer made by partition i is made there too, or by a later one that takes the buffer. */
  lemma MutationFollows(g: Graph, graphInputs: set<Name>, fs: seq<Flow>, i: nat, o: Name) returns (j: nat)
    requires Compiled(g, graphInputs, fs)
    requires i < |fs| && o in g.outputs && o in g.mutationRealName && g.Real(o) in fs[i].outputs
    ensures i <= j < |fs| && o in fs[j].outputs && (i < j ==> g.Real(o) in fs[j].inputNames)
  {
    RealIsAvailable(g, graphInputs, fs, o);
    j :| 0 <= j < |fs| && o in fs[j].outputs;
    if j != i {
      assert g.Real(o) in fs[j].inputNames;
      assert Available(graphInputs, fs, g.Real(o), j);
    }
  }

  /** A buffer made by partition i whose name, or a mutation of it, is needed behind it is returned. */
  lemma ProducedIsReturned(g: Graph, graphInputs: set<Name>, fs: seq<Flow>, i: nat, u: Name)
    requires Compiled(g, graphInputs, fs)
    requires i < |fs| && u in Unmet(g, fs, i + 1) && g.Real(u) in fs[i].outputs
    ensures g.Real(u) in Returned(g, fs[i], Unmet(g, fs, i + 1))
  {
    var r, unmet := g.Real(u), Unmet(g, fs, i + 1);
    if u == r {
      assert u in fs[i].outputs * unmet;
    } else {
      UnmetComesFrom(g, fs, i + 1, u);
      var j := MutationFollows(g, graphInputs, fs, i, u);
      if j == i {
        assert u in fs[i].outputs * unmet;
      } else {
        UnmetStays(g, fs, i + 1, j, r);
        assert r in fs[i].outputs * unmet;
      }
    }
  }

  // ---------- running the signatures ----------

  /** sigs are the signatures of the flows: what GetSignatures returns. */
  ghost predicate AreSignatures(g: Graph, fs: seq<Flow>, sigs: seq<Signature>) {
    |sigs| == |fs| && forall i :: 0 <= i < |fs| ==>
      && sigs[i].inputs == Inputs(g, fs[i])
      && sigs[i].outputs == OutputNodes(g, fs[i], Unmet(g, fs, i + 1))
      && sigs[i].deallocated == Inputs(g, fs[i]) * fs[i].freed
  }

  lemma SignaturesFromAreSignatures(g: Graph, fs: seq<Flow>, skips: seq<bool>)
    requires |skips| == |fs|
    ensures AreSignatures(g, fs, SignaturesFrom(g, fs, skips, 0))
  {
    forall i | 0 <= i < |fs|
      ensures SignaturesFrom(g, fs, skips, 0)[i] == SignatureOf(g, fs[i], Unmet(g, fs, i + 1), skips[i])
    {
      SignatureFrom(g, fs, skips, i, 0);
    }
  }

  lemma RealOfReturned(g: Graph, f: Flow, unmet: set<Name>, u: Name)
    requires FinalRealNames(g) && u in Returned(g, f, unmet)
    ensures g.Real(u) == u
  {}

  /** One partition: what is needed behind it is returned, or was there before and stays. */
  lemma NeededStep(g: Graph, graphInputs: set<Name>, fs: seq<Flow>, k: nat, u: Name)
    requires Compiled(g, graphInputs, fs)
    requires k < |fs| && u in Unmet(g, fs, k + 1) && Available(graphInputs, fs, g.Real(u), k + 1)
    requires g.Real(u) !in Returned(g, fs[k], Unmet(g, fs, k + 1))
    ensures u in Unmet(g, fs, k) && Available(graphInputs, fs, g.Real(u), k)
    ensures g.Real(u) !in Inputs(g, fs[k]) * fs[k].freed
  {
    var unmet := Unmet(g, fs, k + 1);
    if g.Real(u) in fs[k].outputs { ProducedIsReturned(g, graphInputs, fs, k, u); }
    if u in Returned(g, fs[k], unmet) { RealOfReturned(g, fs[k], unmet, u); }
    if g.Real(u) in g.nodes { FreedIsNotNeeded(g, fs, k, u); }
  }

  /** Whatever is still needed, made and allocated is in the environment. */
  lemma {:induction false} NeededIsLive(g: Graph, graphInputs: set<Name>, fs: seq<Flow>, sigs: seq<Signature>,
                                        i: nat, u: Name)
    requires Compiled(g, graphInputs, fs) && AreSignatures(g, fs, sigs)
    requires i <= |fs| && u in Unmet(g, fs, i)
    requires Available(graphInputs, fs, g.Real(u), i) && !g.IsNoneLayout(g.Real(u))
    ensures g.Real(u) in Env(sigs, graphInputs, i)
  {
    if i > 0 {
      var k := i - 1;
      if g.Real(u) !in Returned(g, fs[k], Unmet(g, fs, k + 1)) {
        NeededStep(g, graphInputs, fs, k, u);
        NeededIsLive(g, graphInputs, fs, sigs, k, u);
      }
    }
  }

  /** Nothing unallocated is ever in the environment. */
  lemma {:induction false} EnvIsAllocated(g: Graph, graphInputs: set<Name>, fs: seq<Flow>, sigs: seq<Signature>,
                                          i: nat, n: Name)
    requires (forall m :: m in graphInputs ==> !g.IsNoneLayout(m)) && AreSignatures(g, fs, sigs)
    requires i <= |fs| && n in Env(sigs, graphInputs, i)
    ensures !g.IsNoneLayout(n)
  {
    if i > 0 && n !in sigs[i - 1].outputs { EnvIsAllocated(g, graphInputs, fs, sigs, i - 1, n); }
  }

  /** Every partition finds all its inputs in the environment. */
  ghost predicate RunsWithoutMissingInput(graphInputs: set<Name>, sigs: seq<Signature>) {
    forall i :: 0 <= i < |sigs| ==> sigs[i].inputs <= Env(sigs, graphInputs, i)
  }

  /** No partition takes a name that was never allocated. */
  ghost predicate TakesAllocated(g: Graph, fs: seq<Flow>) {
    forall i, n :: 0 <= i < |fs| && n in fs[i].inputNames && n in g.nodes ==> !g.IsNoneLayout(n)
  }

  /** Every input is there iff no partition takes an unallocated name. */
  lemma FlowsFindInputsIff(g: Graph, graphInputs: set<Name>, fs: seq<Flow>, sigs: seq<Signature>)
    requires Compiled(g, graphInputs, fs) && AreSignatures(g, fs, sigs)
    ensures RunsWithoutMissingInput(graphInputs, sigs) <==> TakesAllocated(g, fs)
  {
    if TakesAllocated(g, fs) {
      forall i, n | 0 <= i < |sigs| && n in sigs[i].inputs
        ensures n in Env(sigs, graphInputs, i)
      {
        assert n in fs[i].inputNames && n in Unmet(g, fs, i);
        NeededIsLive(g, graphInputs, fs, sigs, i, n);
      }
    }
    if RunsWithoutMissingInput(graphInputs, sigs) {
      forall i, n | 0 <= i < |fs| && n in fs[i].inputNames && n in g.nodes
        ensures !g.IsNoneLayout(n)
      {
        assert n in sigs[i].inputs;
        EnvIsAllocated(g, graphInputs, fs, sigs, i, n);
      }
    }
  }

  /** At the end the real buffer of every graph output is there, unless it was never allocated. */
  lemma GraphOutputsArePresent(g: Graph, graphInputs: set<Name>, fs: seq<Flow>, sigs: seq<Signature>, o: Name)
    requires Compiled(g, graphInputs, fs) && AreSignatures(g, fs, sigs) && o in g.outputs
    ensures g.Real(o) in Env(sigs, graphInputs, |fs|) <==> !g.IsNoneLayout(g.Real(o))
  {
    if g.IsNoneLayout(g.Real(o)) {
      if g.Real(o) in Env(sigs, graphInputs, |fs|) { EnvIsAllocated(g, graphInputs, fs, sigs, |fs|, g.Real(o)); }
    } else {
      RealIsAvailable(g, graphInputs, fs, o);
      NeededIsLive(g, graphInputs, fs, sigs, |fs|, o);
    }
  }

  ghost predicate NeededLater(g: Graph, fs: seq<Flow>, i: nat, n: Name) {
    n in g.outputs || exists j :: i < j < |fs| && n in fs[j].inputNames
  }

  lemma NeededLaterIsUnmet(g: Graph, graphInputs: set<Name>, fs: seq<Flow>, i: nat, n: Name)
    requires Compiled(g, graphInputs, fs) && i < |fs| && n in fs[i].outputs
    ensures n in Unmet(g, fs, i + 1) <==> NeededLater(g, fs, i, n)
  {
    if n in Unmet(g, fs, i + 1) {
      UnmetComesFrom(g, fs, i + 1, n);
    } else if n in g.outputs {
      UnmetStays(g, fs, i + 1, |fs|, n);
    } else if j :| i < j < |fs| && n in fs[j].inputNames {
      UnmetStays(g, fs, i + 1, j, n);
    }
  }

  lemma TakenIsNotMade(g: Graph, graphInputs: set<Name>, fs: seq<Flow>, i: nat, n: Name)
    requires Compiled(g, graphInputs, fs) && i < |fs| && n in fs[i].inputNames && n in g.nodes
    ensures forall k :: i <= k < |fs| ==> n !in fs[k].outputs
  {
    assert Available(graphInputs, fs, n, i);
  }

  /** A buffer made here is returned exactly when it, or a mutation of it made here, is needed later. */
  lemma ReturnedIffNeededLater(g: Graph, graphInputs: set<Name>, fs: seq<Flow>, sigs: seq<Signature>, i: nat, n: Name)
    requires Compiled(g, graphInputs, fs) && AreSignatures(g, fs, sigs)
    requires i < |fs| && n in fs[i].outputs && n !in g.mutationRealName && !g.IsNoneLayout(n)
    ensures n in sigs[i].outputs <==> exists o :: o in fs[i].outputs && g.Real(o) == n && NeededLater(g, fs, i, o)
  {
    var unmet := Unmet(g, fs, i + 1);
    if n in sigs[i].outputs {
      var o :| o in fs[i].outputs * unmet + (Inputs(g, fs[i]) - fs[i].freed) && g.Real(o) == n;
      if o in Inputs(g, fs[i]) { TakenIsNotMade(g, graphInputs, fs, i, o); }
      NeededLaterIsUnmet(g, graphInputs, fs, i, o);
    }
    if o :| o in fs[i].outputs && g.Real(o) == n && NeededLater(g, fs, i, o) {
      NeededLaterIsUnmet(g, graphInputs, fs, i, o);
      assert o in fs[i].outputs * unmet;
    }
  }

  lemma FreedIsNotReturned(g: Graph, graphInputs: set<Name>, fs: seq<Flow>, i: nat, n: Name, k: nat)
    requires Compiled(g, graphInputs, fs) && i <= k < |fs| && n in Inputs(g, fs[i]) * fs[i].freed
    ensures n !in Returned(g, fs[k], Unmet(g, fs, k + 1))
  {
    var unmet := Unmet(g, fs, k + 1);
    TakenIsNotMade(g, graphInputs, fs, i, n);
    if n in Returned(g, fs[k], unmet) {
      ReturnedIsMadeOrTaken(g, fs, k, unmet, n);
      if k == i {
        var o :| o in fs[i].outputs * unmet + (Inputs(g, fs[i]) - fs[i].freed) && g.Real(o) == n;
        FreedIsNotNeeded(g, fs, i, o);
      }
    }
  }

  /** A name that leaves and is never returned stays away. */
  lemma {:induction false} StaysAway(sigs: seq<Signature>, graphInputs: set<Name>, i: nat, n: Name, j: nat)
    requires i < j <= |sigs| && n in sigs[i].deallocated
    requires forall k :: i <= k < j ==> n !in sigs[k].outputs
    ensures n !in Env(sigs, graphInputs, j)
  {
    if i < j - 1 { StaysAway(sigs, graphInputs, i, n, j - 1); }
  }

  /** No use after free: a name freed by partition i is in no environment from then on. */
  lemma FreedStaysFreed(g: Graph, graphInputs: set<Name>, fs: seq<Flow>, sigs: seq<Signature>, i: nat, n: Name, j: nat)
    requires Compiled(g, graphInputs, fs) && AreSignatures(g, fs, sigs)
    requires i < j <= |fs| && n in sigs[i].deallocated
    ensures n !in Env(sigs, graphInputs, j)
  {
    forall k | i <= k < j ensures n !in sigs[k].outputs {
      FreedIsNotReturned(g, graphInputs, fs, i, n, k);
    }
    StaysAway(sigs, graphInputs, i, n, j);
  }

  // ---------- end to end ----------

  /** A name that is taken has a node, or is not an input: returned names come from nodes. */
  lemma ReturnedHasNode(g: Graph, graphInputs: set<Name>, fs: seq<Flow>, i: nat, unmet: set<Name>, n: Name)
    requires Compiled(g, graphInputs, fs) && i < |fs| && n in Returned(g, fs[i], unmet)
    ensures n in g.nodes
  {
    var o :| o in fs[i].outputs * unmet + (Inputs(g, fs[i]) - fs[i].freed) && g.Real(o) == n;
    assert o in g.nodes && (o in g.mutationRealName ==> g.mutationRealName[o] in g.nodes);
  }

  lemma OutputsHaveNodes(g: Graph, graphInputs: set<Name>, fs: seq<Flow>, i: nat, unmet: set<Name>)
    requires Compiled(g, graphInputs, fs) && i < |fs|
    ensures OutputNodes(g, fs[i], unmet) <= g.nodes
  {
    forall n | n in OutputNodes(g, fs[i], unmet) ensures n in g.nodes {
      ReturnedHasNode(g, graphInputs, fs, i, unmet, n);
    }
  }

  /** A compiled graph never raises the KeyError. */
  lemma {:induction false} CompiledHasNodes(g: Graph, graphInputs: set<Name>, fs: seq<Flow>, i: nat)
    requires Compiled(g, graphInputs, fs) && i <= |fs|
    ensures ReturnedHaveNodes(g, fs, i)
    decreases |fs| - i
  {
    if i < |fs| {
      CompiledHasNodes(g, graphInputs, fs, i + 1);
      OutputsHaveNodes(g, graphInputs, fs, i, Unmet(g, fs, i + 1));
    }
  }

  // ---------- the flows of real partitions ----------

  /** When freed names are final, every name a partition takes is its own real name. */
  lemma FlowsTakeRealNames(g: Graph, ps: seq<Partition>)
    requires FinalRealNames(g)
    requires forall i, n :: 0 <= i < |ps| && Frees(ps[i], n) && n in g.nodes ==> n !in g.mutationRealName
    ensures TakesRealNames(g, FlowsOf(g, ps))
  {
    forall i, n | 0 <= i < |ps| && n in FlowOf(g, ps[i]).inputNames ensures n !in g.mutationRealName {
      TakesIff(g, ps[i], n);
    }
  }

  /** The unallocated names that a partition takes are exactly those it frees without making them. */
  lemma UnallocatedInputIff(g: Graph, p: Partition, n: Name)
    requires FinalRealNames(g) && g.IsNoneLayout(n)
    ensures n in FlowOf(g, p).inputNames <==> Frees(p, n) && !Makes(p, n) && n in g.nodes
  {
    TakesIff(g, p, n);
    if m :| Touches(p, m) && !g.IsNoneLayout(m) && !Makes(p, m) && g.Real(m) == n {
      if m in g.mutationRealName {
        assert g.EndsWithin(n, 0) && g.EndsAt(m, 1);
        g.IsNoneLayoutRecurses(m, 1);
      }
    }
  }

  /** No partition frees a buffer that it does not make and that was never allocated. */
  ghost predicate FreesAllocated(g: Graph, ps: seq<Partition>) {
    forall i, n :: 0 <= i < |ps| && Frees(ps[i], n) && !Makes(ps[i], n) && n in g.nodes ==> !g.IsNoneLayout(n)
  }

  lemma TakesAllocatedIff(g: Graph, ps: seq<Partition>)
    requires FinalRealNames(g)
    ensures TakesAllocated(g, FlowsOf(g, ps)) <==> FreesAllocated(g, ps)
  {
    forall i, n | 0 <= i < |ps| && g.IsNoneLayout(n)
      ensures n in FlowsOf(g, ps)[i].inputNames <==> Frees(ps[i], n) && !Makes(ps[i], n) && n in g.nodes
    {
      UnallocatedInputIff(g, ps[i], n);
    }
  }

  /**
    Soundness, and exactly when: every partition finds its inputs iff none frees a buffer of another
    that was never allocated.
   */
  lemma InputsArePresent(g: Graph, graphInputs: set<Name>, ps: seq<Partition>, sigs: seq<Signature>)
    requires Compiled(g, graphInputs, FlowsOf(g, ps)) && AreSignatures(g, FlowsOf(g, ps), sigs)
    ensures RunsWithoutMissingInput(graphInputs, sigs) <==> FreesAllocated(g, ps)
  {
    FlowsFindInputsIff(g, graphInputs, FlowsOf(g, ps), sigs);
    TakesAllocatedIff(g, ps);
  }

  /**
    What get_graph_partition_signature returns for a compiled graph: the partitions run without a
    missing input iff none frees a foreign buffer that was never allocated, the allocated graph
    outputs are there at the end, and no freed name is seen again.
   */
  method SignAndRun(g: Graph, graphInputs: set<Name>, ps: seq<Partition>, skips: seq<bool>)
    returns (sigs: seq<Signature>)
    requires |ps| == |skips| && Compiled(g, graphInputs, FlowsOf(g, ps))
    ensures |sigs| == |ps| && (RunsWithoutMissingInput(graphInputs, sigs) <==> FreesAllocated(g, ps))
    ensures forall o :: o in g.outputs ==>
              (g.Real(o) in Env(sigs, graphInputs, |sigs|) <==> !g.IsNoneLayout(g.Real(o)))
    ensures forall i, n, j :: 0 <= i < j <= |sigs| && n in sigs[i].deallocated ==> n !in Env(sigs, graphInputs, j)
  {
    ghost var fs := FlowsOf(g, ps);
    assert LastN(ps, |ps|) == ps && LastN(skips, |skips|) == skips;
    CompiledHasNodes(g, graphInputs, fs, 0);
    var r := GetSignatures(g, ps, skips);
    sigs := r.value;
    SignaturesFromAreSignatures(g, fs, skips);
    InputsArePresent(g, graphInputs, ps, sigs);
    forall o | o in g.outputs
      ensures g.Real(o) in Env(sigs, graphInputs, |sigs|) <==> !g.IsNoneLayout(g.Real(o))
    {
      GraphOutputsArePresent(g, graphInputs, fs, sigs, o);
    }
    forall i, n, j | 0 <= i < j <= |sigs| && n in sigs[i].deallocated ensures n !in Env(sigs, graphInputs, j) {
      FreedStaysFreed(g, graphInputs, fs, sigs, i, n, j);
    }
  }

  // ---------- fake dependencies ----------

  /** The partition as the comment on line 155 has it: without the fake dependencies. */
  function WithoutWeakDeps(p: Partition): (q: Partition)
    ensures |q| == |p|
  {
    if p == [] then []
    else
      var n := |p| - 1;
      WithoutWeakDeps(p[..n]) + [p[n].(readWrites := set d | d in p[n].readWrites && d.MemoryDep?)]
  }

  lemma {:induction false} WithoutWeakDepsAre(p: Partition)
    ensures Outputs(WithoutWeakDeps(p)) == Outputs(p) && Freed(WithoutWeakDeps(p)) == Freed(p)
    ensures forall n :: n in Deps(WithoutWeakDeps(p)) <==> HasDep(p, MemoryDep(n))
  {
    if p != [] {
      var m := |p| - 1;
      var q, last := WithoutWeakDeps(p[..m]), p[m].(readWrites := set d | d in p[m].readWrites && d.MemoryDep?);
      WithoutWeakDepsAre(p[..m]);
      assert (q + [last])[..m] == q;
      forall n ensures n in Deps(q + [last]) <==> HasDep(p, MemoryDep(n)) {
        HasDepStep(p, m, MemoryDep(n));
        assert n in Deps(q + [last]) <==> n in Deps(q) || exists d :: d in last.readWrites && d.name == n;
        if MemoryDep(n) in p[m].readWrites { assert MemoryDep(n) in last.readWrites; }
      }
    }
  }

  /** The partition takes the buffer even without its fake dependencies: it reads, writes or frees it. */
  ghost predicate TakenAnyway(g: Graph, p: Partition, r: Name) {
    || (exists m :: HasDep(p, MemoryDep(m)) && !g.IsNoneLayout(m) && !Makes(p, m) && g.Real(m) == r)
    || (Frees(p, r) && !Makes(p, r) && r in g.nodes)
  }

  lemma TakenAnywayIff(g: Graph, p: Partition, r: Name)
    ensures r in FlowOf(g, WithoutWeakDeps(p)).inputNames <==> TakenAnyway(g, p, r)
  {
    WithoutWeakDepsAre(p);
    FreedAre(p, r);
    forall n ensures n in Outputs(p) <==> Makes(p, n) { OutputsAre(p, n); }
  }

  lemma TakenIff(g: Graph, p: Partition, r: Name)
    ensures r in FlowOf(g, p).inputNames
       <==> || TakenAnyway(g, p, r)
            || exists n :: HasDep(p, WeakDep(n)) && !g.IsNoneLayout(n) && !Makes(p, n) && g.Real(n) == r
  {
    TakesIff(g, p, r);
  }

  /**
    A partition takes the same names with its fake dependencies as without them exactly when every
    outside, allocated buffer with a fake dependency is also read, written or freed.
   */
  lemma WeakDepsAreTakenIff(g: Graph, p: Partition)
    ensures FlowOf(g, p).inputNames == FlowOf(g, WithoutWeakDeps(p)).inputNames
       <==> forall n :: HasDep(p, WeakDep(n)) && !Makes(p, n) && !g.IsNoneLayout(n) ==>
              TakenAnyway(g, p, g.Real(n))
  {
    forall r ensures r in FlowOf(g, WithoutWeakDeps(p)).inputNames <==> TakenAnyway(g, p, r) {
      TakenAnywayIff(g, p, r);
    }
    forall r
      ensures r in FlowOf(g, p).inputNames
         <==> || TakenAnyway(g, p, r)
              || exists n :: HasDep(p, WeakDep(n)) && !g.IsNoneLayout(n) && !Makes(p, n) && g.Real(n) == r
    {
      TakenIff(g, p, r);
    }
    if FlowOf(g, p).inputNames == FlowOf(g, WithoutWeakDeps(p)).inputNames {
      forall n | HasDep(p, WeakDep(n)) && !Makes(p, n) && !g.IsNoneLayout(n)
        ensures TakenAnyway(g, p, g.Real(n))
      {
        assert g.Real(n) in FlowOf(g, p).inputNames;
      }
    }
  }

  /** So a fake dependency alone makes an outside buffer an input. */
  lemma WeakDepIsTaken(g: Graph, p: Partition, n: Name)
    requires HasDep(p, WeakDep(n)) && !Makes(p, n) && n in g.nodes && n !in g.mutationRealName && !g.IsNoneLayout(n)
    ensures n in Inputs(g, FlowOf(g, p))
  {
    TakesIff(g, p, n);
    assert g.Real(n) == n;
  }

  // ---------- an input that is never there ----------

  /** Buffer b is made by the first partition without being allocated, and freed by the second. */
  function UnallocatedGraph(): Graph {
    Graph({"c"}, {"b", "c"}, map["b" := NoneLayout, "c" := Allocated], map[], {})
  }

  function MakeAndFree(): seq<Partition> { [[Node({"b"}, {}, {})], [Node({"c"}, {}, {"b"})]] }

  function MakeAndFreeFlows(): seq<Flow> { [Flow({"b"}, {}, {}), Flow({"c"}, {"b"}, {"b"})] }

  lemma FlowOfOneNode(g: Graph, v: Node)
    requires v.readWrites == {}
    ensures FlowOf(g, [v]) == Flow(v.outputs, v.lastUsage * g.nodes - v.outputs, v.lastUsage)
  {
    var p := [v];
    assert p[..|p| - 1] == [];
    assert Outputs(p) == v.outputs;
    assert Freed(p) == v.lastUsage;
    assert (set d | d in v.readWrites :: d.name) == {};
    assert Deps(p) == {};
  }

  lemma FlowOfMake()
    ensures FlowOf(UnallocatedGraph(), MakeAndFree()[0]) == Flow({"b"}, {}, {})
  {
    FlowOfOneNode(UnallocatedGraph(), Node({"b"}, {}, {}));
  }

  lemma FlowOfFree()
    ensures FlowOf(UnallocatedGraph(), MakeAndFree()[1]) == Flow({"c"}, {"b"}, {"b"})
  {
    FlowOfOneNode(UnallocatedGraph(), Node({"c"}, {}, {"b"}));
    assert "b"[0] != "c"[0];
    assert "b" in {"b"} * {"b", "c"} - {"c"};
    assert {"b"} * {"b", "c"} - {"c"} == {"b"};
  }

  lemma FlowsOfMakeAndFree()
    ensures FlowsOf(UnallocatedGraph(), MakeAndFree()) == MakeAndFreeFlows()
  {
    FlowOfMake();
    FlowOfFree();
  }

  lemma MakeAndFreeIsCompiled()
    ensures Compiled(UnallocatedGraph(), {}, MakeAndFreeFlows())
  {
    var fs := MakeAndFreeFlows();
    assert "b" in fs[0].outputs && "c" in fs[1].outputs;
  }

  lemma MakeAndFreeHasNodes()
    ensures ReturnedHaveNodes(UnallocatedGraph(), MakeAndFreeFlows(), 0)
  {
    var g, fs := UnallocatedGraph(), MakeAndFreeFlows();
    assert ReturnedHaveNodes(g, fs, 2);
    assert ReturnedHaveNodes(g, fs, 1);
  }

  /** A compiled graph of two partitions on which the second one's input is not in the environment. */
  lemma UnallocatedFreedInputIsMissing()
    ensures var g, fs := UnallocatedGraph(), FlowsOf(UnallocatedGraph(), MakeAndFree());
            && Compiled(g, {}, fs) && ReturnedHaveNodes(g, fs, 0)
            && !RunsWithoutMissingInput({}, SignaturesFrom(g, fs, [false, false], 0))
  {
    var g, fs := UnallocatedGraph(), MakeAndFreeFlows();
    FlowsOfMakeAndFree();
    MakeAndFreeIsCompiled();
    MakeAndFreeHasNodes();
    SignaturesFromAreSignatures(g, fs, [false, false]);
    FlowsFindInputsIff(g, {}, fs, SignaturesFrom(g, fs, [false, false], 0));
    assert "b" in fs[1].inputNames && g.IsNoneLayout("b");
  }
}
