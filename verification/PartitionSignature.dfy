/**
  The backward liveness pass of vllm/env_override.py: for every partition of a compiled graph,
  which buffers it takes, returns and frees. OrderedSets are modelled as sets.
 */
module PartitionSignature {
  type Name = string

  /** A WeakDep is a fake dependency on an unused buffer. The pass does not tell them apart. */
  datatype Dep = MemoryDep(name: Name) | WeakDep(name: Name)

  datatype Node = Node(outputs: set<Name>, readWrites: set<Dep>, lastUsage: set<Name>)

  type Partition = seq<Node>

  /** How a buffer is laid out: allocated, not allocated, or a mutation record of another buffer. */
  datatype Layout = Allocated | NoneLayout | Mutation

  lemma SubsetIsSmaller<T>(a: set<T>, b: set<T>)
    requires a <= b
    ensures |a| <= |b|
  {
    assert b == a + (b - a);
  }

  /** outputs: the graph outputs; nodes: the names with a node; layouts: name_to_buf. */
  datatype Graph = Graph(outputs: set<Name>, nodes: set<Name>, layouts: map<Name, Layout>,
                         mutationRealName: map<Name, Name>, constants: set<Name>)
  {
    function Real(n: Name): Name { if n in mutationRealName then mutationRealName[n] else n }

    predicate NoneLayoutWithin(n: Name, steps: nat)
      decreases steps
    {
      n in layouts && layouts[n] != Allocated &&
      (layouts[n] == Mutation && n in mutationRealName && steps > 0 ==>
         NoneLayoutWithin(mutationRealName[n], steps - 1))
    }

    /**
      is_none_layout. It follows real names, and visits every name of name_to_buf at most once unless
      they come back to one: as many steps as there are buffers are enough.
     */
    predicate IsNoneLayout(n: Name) { NoneLayoutWithin(n, |layouts|) }

    /** Following real names from n ends within the given number of steps. */
    predicate EndsWithin(n: Name, steps: nat)
      decreases steps
    {
      n !in mutationRealName || (steps > 0 && EndsWithin(mutationRealName[n], steps - 1))
    }

    lemma {:induction false} EndsLater(n: Name, few: nat, many: nat)
      requires few <= many && EndsWithin(n, few)
      ensures EndsWithin(n, many)
      decreases few
    {
      if few > 0 && n in mutationRealName { EndsLater(mutationRealName[n], few - 1, many - 1); }
    }

    /** k is the number of renamings from n to its final name. */
    predicate EndsAt(n: Name, k: nat) { EndsWithin(n, k) && (k == 0 || !EndsWithin(n, k - 1)) }

    /** Names that take longer to end were visited before, and are not visited again. */
    lemma {:induction false} StepsAreEnough(n: Name, k: nat, visited: set<Name>)
      requires EndsAt(n, k) && visited <= layouts.Keys && forall v :: v in visited ==> !EndsWithin(v, k)
      ensures |visited| <= |layouts|
      ensures NoneLayoutWithin(n, |layouts| - |visited|) == NoneLayoutWithin(n, k)
      decreases k
    {
      SubsetIsSmaller(visited, layouts.Keys);
      if n in layouts && n in mutationRealName && k > 0 {
        SubsetIsSmaller(visited + {n}, layouts.Keys);
        forall v | v in visited + {n} ensures !EndsWithin(v, k - 1) {
          if v in visited && EndsWithin(v, k - 1) { EndsLater(v, k - 1, k); }
        }
        StepsAreEnough(mutationRealName[n], k - 1, visited + {n});
      }
    }

    /** The recursion of is_none_layout, whenever following real names ends. */
    lemma IsNoneLayoutRecurses(n: Name, k: nat)
      requires EndsAt(n, k)
      ensures IsNoneLayout(n)
         <==> && n in layouts && layouts[n] != Allocated
              && (layouts[n] == Mutation && n in mutationRealName ==> IsNoneLayout(mutationRealName[n]))
    {
      StepsAreEnough(n, k, {});
      if n in mutationRealName { StepsAreEnough(mutationRealName[n], k - 1, {}); }
    }
  }

  datatype Signature = Signature(inputs: set<Name>, outputs: set<Name>, deallocated: set<Name>,
                                 skipCudagraph: bool, constants: set<Name>)

  datatype Result<T> = Ok(value: T) | KeyError

  // ---------- one partition ----------

  function Outputs(p: Partition): set<Name> {
    if p == [] then {} else Outputs(p[..|p| - 1]) + p[|p| - 1].outputs
  }

  function Freed(p: Partition): set<Name> {
    if p == [] then {} else Freed(p[..|p| - 1]) + p[|p| - 1].lastUsage
  }

  function Deps(p: Partition): set<Name> {
    if p == [] then {} else Deps(p[..|p| - 1]) + (set d | d in p[|p| - 1].readWrites :: d.name)
  }

  /** What a partition makes, takes from outside (partition_input_names), and frees. */
  datatype Flow = Flow(outputs: set<Name>, inputNames: set<Name>, freed: set<Name>)

  function FlowOf(g: Graph, p: Partition): Flow {
    Flow(Outputs(p),
         (set n | n in Deps(p) && !g.IsNoneLayout(n) && n !in Outputs(p) :: g.Real(n))
         + (set n | n in Freed(p) && n !in Outputs(p) && n in g.nodes),
         Freed(p))
  }

  function FlowsOf(g: Graph, ps: seq<Partition>): (fs: seq<Flow>)
    ensures |fs| == |ps| && forall i :: 0 <= i < |ps| ==> fs[i] == FlowOf(g, ps[i])
  {
    seq(|ps|, i requires 0 <= i < |ps| => FlowOf(g, ps[i]))
  }

  function Inputs(g: Graph, f: Flow): set<Name> { f.inputNames * g.nodes }

  /** returned_output_names, given the names still needed behind the partition. */
  function Returned(g: Graph, f: Flow, unmet: set<Name>): set<Name> {
    set n | n in f.outputs * unmet + (Inputs(g, f) - f.freed) :: g.Real(n)
  }

  /** The names of output_nodes: returned and allocated. */
  function OutputNodes(g: Graph, f: Flow, unmet: set<Name>): set<Name> {
    set n | n in Returned(g, f, unmet) && !g.IsNoneLayout(n)
  }

  function SignatureOf(g: Graph, f: Flow, unmet: set<Name>, skip: bool): Signature {
    Signature(Inputs(g, f), OutputNodes(g, f, unmet), Inputs(g, f) * f.freed, skip, f.inputNames * g.constants)
  }

  /** What is still needed in front of the partition, given what is needed behind it. */
  function UnmetBefore(g: Graph, f: Flow, unmet: set<Name>): set<Name> {
    f.inputNames + (unmet - Returned(g, f, unmet))
  }

  // ---------- all partitions ----------

  /** unmet_output_names once the partitions from i on have been handled, last to first. */
  function Unmet(g: Graph, fs: seq<Flow>, i: nat): set<Name>
    requires i <= |fs|
    decreases |fs| - i
  {
    if i == |fs| then g.outputs else UnmetBefore(g, fs[i], Unmet(g, fs, i + 1))
  }

  /** The signatures of the partitions from i on. */
  function SignaturesFrom(g: Graph, fs: seq<Flow>, skips: seq<bool>, i: nat): (r: seq<Signature>)
    requires i <= |fs| == |skips|
    ensures |r| == |fs| - i
    decreases |fs| - i
  {
    if i == |fs| then []
    else [SignatureOf(g, fs[i], Unmet(g, fs, i + 1), skips[i])] + SignaturesFrom(g, fs, skips, i + 1)
  }

  /** Every returned name that gets an output node has one in name_to_node. */
  predicate ReturnedHaveNodes(g: Graph, fs: seq<Flow>, i: nat)
    requires i <= |fs|
    decreases |fs| - i
  {
    i == |fs| || (OutputNodes(g, fs[i], Unmet(g, fs, i + 1)) <= g.nodes && ReturnedHaveNodes(g, fs, i + 1))
  }

  function LastN<T>(s: seq<T>, n: nat): seq<T>
    requires n <= |s|
  {
    s[|s| - n..]
  }

  method CollectNames(p: Partition) returns (outputNames: set<Name>, deps: set<Name>, freed: set<Name>)
    ensures outputNames == Outputs(p) && deps == Deps(p) && freed == Freed(p)
  {
    outputNames, deps, freed := {}, {}, {};
    for j := 0 to |p|
      invariant outputNames == Outputs(p[..j]) && deps == Deps(p[..j]) && freed == Freed(p[..j])
    {
      assert p[..j + 1][..j] == p[..j];
      outputNames := outputNames + p[j].outputs;
      deps := deps + set d | d in p[j].readWrites :: d.name;
      freed := freed + p[j].lastUsage;
    }
    assert p[..|p|] == p;
  }

  /** One round of the loop; not ok is the KeyError of name_to_node[name]. */
  method SignPartition(g: Graph, partition: Partition, unmet: set<Name>, skip: bool)
    returns (ok: bool, signature: Signature, unmet': set<Name>)
    ensures var f := FlowOf(g, partition);
            && (ok <==> OutputNodes(g, f, unmet) <= g.nodes)
            && signature == SignatureOf(g, f, unmet, skip)
            && unmet' == UnmetBefore(g, f, unmet)
  {
    var outputNames, deps, freed := CollectNames(partition);
    var inputNames := set m | m in deps && !g.IsNoneLayout(m) && m !in outputNames :: g.Real(m);
    inputNames := inputNames + set m | m in freed && m !in outputNames && m in g.nodes;
    ghost var f := FlowOf(g, partition);
    assert f == Flow(outputNames, inputNames, freed);
    var inputs := inputNames * g.nodes;
    var returned := outputNames * unmet + (inputs - freed);
    returned := set m | m in returned :: g.Real(m);
    assert returned == Returned(g, f, unmet);
    var outputNodes := set m | m in returned && !g.IsNoneLayout(m);
    ok := outputNodes <= g.nodes;
    signature := Signature(inputs, outputNodes, inputs * freed, skip, inputNames * g.constants);
    unmet' := inputNames + (unmet - returned);
  }

  function Reverse<T>(s: seq<T>): (r: seq<T>)
    ensures |r| == |s| && forall i :: 0 <= i < |s| ==> r[i] == s[|s| - 1 - i]
  {
    seq(|s|, i requires 0 <= i < |s| => s[|s| - 1 - i])
  }

  lemma ReverseCons<T>(x: T, s: seq<T>)
    ensures Reverse([x] + s) == Reverse(s) + [x]
  {}

  lemma ReverseTwice<T>(s: seq<T>)
    ensures Reverse(Reverse(s)) == s
  {}

  lemma {:induction false} MissingNode(g: Graph, fs: seq<Flow>, i: nat)
    requires i <= |fs| && !ReturnedHaveNodes(g, fs, i)
    ensures !ReturnedHaveNodes(g, fs, 0)
  {
    if i > 0 { MissingNode(g, fs, i - 1); }
  }

  ghost predicate FlowAt(g: Graph, ps: seq<Partition>, fs: seq<Flow>, k: nat)
    requires k < |ps| == |fs|
  {
    fs[k] == FlowOf(g, ps[k])
  }

  ghost predicate AreFlows(g: Graph, ps: seq<Partition>, fs: seq<Flow>)
    requires |ps| == |fs|
  {
    forall k :: 0 <= k < |ps| ==> FlowAt(g, ps, fs, k)
  }

  /** What the loop has found once it is in front of partition i. */
  ghost predicate SignedFrom(g: Graph, fs: seq<Flow>, skips: seq<bool>, i: nat, signatures: seq<Signature>,
                             unmet: set<Name>)
    requires i <= |fs| == |skips|
  {
    && unmet == Unmet(g, fs, i)
    && signatures == Reverse(SignaturesFrom(g, fs, skips, i))
    && ReturnedHaveNodes(g, fs, i)
  }

  lemma NothingSigned(g: Graph, fs: seq<Flow>, skips: seq<bool>)
    requires |fs| == |skips|
    ensures SignedFrom(g, fs, skips, |fs|, [], g.outputs)
  {}

  lemma AllSigned(g: Graph, fs: seq<Flow>, skips: seq<bool>, signatures: seq<Signature>, unmet: set<Name>)
    requires |fs| == |skips| && SignedFrom(g, fs, skips, 0, signatures, unmet)
    ensures ReturnedHaveNodes(g, fs, 0) && Reverse(signatures) == SignaturesFrom(g, fs, skips, 0)
  {
    ReverseTwice(SignaturesFrom(g, fs, skips, 0));
  }

  /** The body of the loop: partition i joins those behind it. */
  method SignRound(g: Graph, ps: seq<Partition>, skips: seq<bool>, i: nat, signatures: seq<Signature>,
                   unmet: set<Name>, ghost fs: seq<Flow>)
    returns (ok: bool, signatures': seq<Signature>, unmet': set<Name>)
    requires i < |ps| == |skips| == |fs| && AreFlows(g, ps, fs)
    requires SignedFrom(g, fs, skips, i + 1, signatures, unmet)
    ensures ok ==> SignedFrom(g, fs, skips, i, signatures', unmet')
    ensures !ok ==> !ReturnedHaveNodes(g, fs, 0)
  {
    assert FlowAt(g, ps, fs, i);
    var signature;
    ok, signature, unmet' := SignPartition(g, ps[i], unmet, skips[i]);
    signatures' := signatures + [signature];
    ReverseCons(signature, SignaturesFrom(g, fs, skips, i + 1));
    if !ok { MissingNode(g, fs, i); }
  }

  /** The loop over the reversed partitions. */
  method SignLoop(g: Graph, ps: seq<Partition>, skips: seq<bool>, ghost fs: seq<Flow>)
    returns (ok: bool, signatures: seq<Signature>, unmet: set<Name>)
    requires |ps| == |skips| == |fs| && AreFlows(g, ps, fs)
    ensures ok ==> SignedFrom(g, fs, skips, 0, signatures, unmet)
    ensures !ok ==> !ReturnedHaveNodes(g, fs, 0)
  {
    ok, signatures, unmet := true, [], g.outputs;
    NothingSigned(g, fs, skips);
    for i := |ps| downto 0
      invariant SignedFrom(g, fs, skips, i, signatures, unmet)
    {
      ok, signatures, unmet := SignRound(g, ps, skips, i, signatures, unmet, fs);
      if !ok { return; }
    }
    ok := true;
  }

  /** The loop, and the final reversal of the signatures. */
  method SignBackwards(g: Graph, ps: seq<Partition>, skips: seq<bool>) returns (r: Result<seq<Signature>>)
    requires |ps| == |skips|
    ensures r.Ok? <==> ReturnedHaveNodes(g, FlowsOf(g, ps), 0)
    ensures r.Ok? ==> r.value == SignaturesFrom(g, FlowsOf(g, ps), skips, 0)
  {
    ghost var fs := FlowsOf(g, ps);
    var ok, signatures, unmet := SignLoop(g, ps, skips, fs);
    if !ok { return KeyError; }
    AllSigned(g, fs, skips, signatures, unmet);
    r := Ok(Reverse(signatures));
  }

  /**
    zip pairs the partitions with the flags from the back, so the shorter list decides how many
    partitions get a signature. A returned name without a node is a KeyError.
   */
  method GetSignatures(g: Graph, partitions: seq<Partition>, skipCudagraphs: seq<bool>)
    returns (r: Result<seq<Signature>>)
    ensures var n := if |partitions| < |skipCudagraphs| then |partitions| else |skipCudagraphs|;
            var fs, skips := FlowsOf(g, LastN(partitions, n)), LastN(skipCudagraphs, n);
            && (r.Ok? <==> ReturnedHaveNodes(g, fs, 0))
            && (r.Ok? ==> r.value == SignaturesFrom(g, fs, skips, 0))
  {
    var n := if |partitions| < |skipCudagraphs| then |partitions| else |skipCudagraphs|;
    r := SignBackwards(g, LastN(partitions, n), LastN(skipCudagraphs, n));
  }
}
