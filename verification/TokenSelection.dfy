/**
  From block scores to the token mask and the compacted sequence (native_imp.py).
 */
module TokenSelection {
  import opened Arithmetic
  import opened BlockSelection
  const EPSILON := 0.000000001

  /** block_prob: the scores over their sum plus epsilon. */
  function Probs(score: seq<real>, epsilon: real): (p: seq<real>)
    requires Sum(score) + epsilon != 0.0
    ensures |p| == |score| && forall i :: 0 <= i < |p| ==> p[i] == score[i] / (Sum(score) + epsilon)
  {
    seq(|score|, i requires 0 <= i < |score| => score[i] / (Sum(score) + epsilon))
  }

  function CumSum(s: seq<real>): (c: seq<real>)
    ensures |c| == |s| && forall i :: 0 <= i < |s| ==> c[i] == Sum(s[..i + 1])
  {
    seq(|s|, i requires 0 <= i < |s| => Sum(s[..i + 1]))
  }

  lemma {:induction false} SumIsNonNegative(s: seq<real>)
    requires NonNegative(s)
    ensures Sum(s) >= 0.0
  {
    if s != [] { SumIsNonNegative(s[..|s| - 1]); }
  }

  lemma QuotientIsNonNegative(a: real, b: real)
    requires a >= 0.0 && b > 0.0
    ensures a / b >= 0.0
  {}

  lemma ProbsAreNonNegative(score: seq<real>, epsilon: real)
    requires NonNegative(score) && Sum(score) + epsilon > 0.0
    ensures NonNegative(Probs(score, epsilon))
  {
    forall i | 0 <= i < |score| ensures Probs(score, epsilon)[i] >= 0.0 {
      QuotientIsNonNegative(score[i], Sum(score) + epsilon);
    }
  }

  // ---------- the threshold on the cumulative sum ----------

  /** With non-negative terms the flags of the threshold, the first one forced, mark a prefix. */
  lemma ThresholdIsNucleus(sorted: seq<real>, alpha: real) returns (k: nat)
    requires sorted != [] && NonNegative(sorted)
    ensures IsNucleusSize(sorted, alpha, k)
    ensures forall i :: 0 <= i < |sorted| ==> (i == 0 || CumSum(sorted)[i] <= alpha <==> i < k)
  {
    k := 1;
    while k < |sorted| && Sum(sorted[..k + 1]) <= alpha
      invariant 1 <= k <= |sorted| && (k == 1 || Sum(sorted[..k]) <= alpha)
    {
      k := k + 1;
    }
    forall i | 0 <= i < |sorted| ensures i == 0 || CumSum(sorted)[i] <= alpha <==> i < k {
      if i < k { PrefixSumsGrow(sorted, i + 1, k); } else { PrefixSumsGrow(sorted, k + 1, i + 1); }
    }
  }

  /** The size of the nucleus is determined by the sorted probabilities. */
  lemma NucleusSizeIsUnique(sorted: seq<real>, alpha: real, k: nat, l: nat)
    requires NonNegative(sorted) && IsNucleusSize(sorted, alpha, k) && IsNucleusSize(sorted, alpha, l)
    ensures k == l
  {
    if k < l { PrefixSumsGrow(sorted, k + 1, l); }
    if l < k { PrefixSumsGrow(sorted, l + 1, k); }
  }

  // ---------- torch.sort ----------

  ghost predicate Sorting(order: seq<nat>, p: seq<real>, n: nat) {
    n <= |p| && IsPermutation(order, n) && Descending(Gather(p, order))
  }

  lemma InsertKeepsPermutation(order: seq<nat>, n: nat, j: nat)
    requires IsPermutation(order, n) && j <= n
    ensures IsPermutation(order[..j] + [n] + order[j..], n + 1)
  {
    var r := order[..j] + [n] + order[j..];
    assert r[j] == n;
    assert forall i :: 0 <= i < n + 1 && i != j ==> r[i] == order[if i < j then i else i - 1];
    forall b | 0 <= b < n + 1 ensures b in r {
      if b != n {
        assert b in order;
        var i :| 0 <= i < |order| && order[i] == b;
        assert r[if i < j then i else i + 1] == b;
      }
    }
  }

  lemma InsertKeepsDescending(p: seq<real>, order: seq<nat>, n: nat, j: nat)
    requires n < |p| && Sorting(order, p, n) && j <= n
    requires forall i :: 0 <= i < j ==> p[order[i]] >= p[n]
    requires j < n ==> p[order[j]] < p[n]
    requires IsPermutation(order[..j] + [n] + order[j..], n + 1)
    ensures Descending(Gather(p, order[..j] + [n] + order[j..]))
  {
    var g, r := Gather(p, order), Gather(p, order[..j] + [n] + order[j..]);
    assert r == g[..j] + [p[n]] + g[j..];
    forall i, l | 0 <= i <= l < |r| ensures r[i] >= r[l] {
      if i < j { assert r[i] == g[i] >= p[n]; }
      if l > j { assert r[l] == g[l - 1] && g[j] >= g[l - 1] && p[n] >= g[l - 1]; }
      if i < j && l < j { assert g[i] >= g[l]; }
      if i > j { assert g[i - 1] >= g[l - 1]; }
    }
  }

  /** Put index n in front of the first smaller value. */
  method InsertIndex(p: seq<real>, order: seq<nat>, n: nat) returns (order': seq<nat>)
    requires n < |p| && Sorting(order, p, n)
    ensures Sorting(order', p, n + 1)
  {
    var j := 0;
    while j < |order| && p[order[j]] >= p[n]
      invariant j <= |order|
      invariant forall i :: 0 <= i < j ==> p[order[i]] >= p[n]
    {
      j := j + 1;
    }
    order' := order[..j] + [n] + order[j..];
    assert IsPermutation(order', n + 1) by { InsertKeepsPermutation(order, n, j); }
    assert forall i :: 0 <= i < |order| ==> Gather(p, order)[i] == p[order[i]];
    InsertKeepsDescending(p, order, n, j);
  }

  method SortDescending(p: seq<real>) returns (sorted: seq<real>, indices: seq<nat>)
    ensures Sorts(indices, p) && sorted == Gather(p, indices)
  {
    indices := [];
    for n := 0 to |p|
      invariant Sorting(indices, p, n)
    {
      indices := InsertIndex(p, indices, n);
    }
    sorted := Gather(p, indices);
  }

  // ---------- the block mask ----------

  /** torch.scatter into a new mask: flag j goes to the block at place j of the order. */
  method Scatter(sortedMask: array<bool>, order: seq<nat>) returns (blockMask: array<bool>)
    requires IsPermutation(order, sortedMask.Length)
    ensures fresh(blockMask) && blockMask.Length == sortedMask.Length
    ensures forall j :: 0 <= j < |order| ==> blockMask[order[j]] == sortedMask[j]
  {
    blockMask := new bool[sortedMask.Length](_ => false);
    for i := 0 to sortedMask.Length
      invariant forall j :: 0 <= j < i ==> blockMask[order[j]] == sortedMask[j]
    {
      blockMask[order[i]] := sortedMask[i];
    }
  }

  /** sorted_mask, its first flag forced, scattered to the blocks through sorted_indices. */
  method NucleusMask(prob: seq<real>, alpha: real) returns (blockMask: array<bool>, order: seq<nat>, ghost k: nat)
    requires prob != [] && NonNegative(prob)
    ensures fresh(blockMask) && Sorts(order, prob) && IsNucleusSize(Gather(prob, order), alpha, k)
    ensures IsNucleus(blockMask[..], order, k)
  {
    var sorted;
    sorted, order := SortDescending(prob);
    var n := |prob|;
    var cumsum := CumSum(sorted);
    k := ThresholdIsNucleus(sorted, alpha);
    var sortedMask := new bool[n](i requires 0 <= i < n => cumsum[i] <= alpha);
    sortedMask[0] := true;
    assert forall j :: 0 <= j < n ==> (sortedMask[j] <==> j < k);
    blockMask := Scatter(sortedMask, order);
  }

  /** The blocks kept whatever the scores: those of the attention sink and the last ones. */
  predicate Forced(b: nat, numBlocks: nat, sinkBlocks: nat, lastNBlocks: nat) {
    b < sinkBlocks || b + lastNBlocks >= numBlocks
  }

  /** The two slice assignments on block_mask. */
  method ForceBlocks(blockMask: array<bool>, sinkBlocks: nat, lastNBlocks: nat)
    requires lastNBlocks <= blockMask.Length
    modifies blockMask
    ensures forall b :: 0 <= b < blockMask.Length ==>
              (blockMask[b] <==> old(blockMask[b]) || Forced(b, blockMask.Length, sinkBlocks, lastNBlocks))
  {
    var n := blockMask.Length;
    var sink := if sinkBlocks < n then sinkBlocks else n;
    for b := 0 to sink
      invariant forall c :: 0 <= c < n ==> (blockMask[c] <==> old(blockMask[c]) || c < b)
    {
      blockMask[b] := true;
    }
    for b := n - lastNBlocks to n
      invariant forall c :: 0 <= c < n ==>
                  (blockMask[c] <==> old(blockMask[c]) || c < sink || n - lastNBlocks <= c < b)
    {
      blockMask[b] := true;
    }
  }

  // ---------- the token mask ----------

  /** expand and reshape: every flag once for each token of its block. */
  function Expand(blockMask: seq<bool>, blockSize: nat): seq<bool> {
    if blockMask == [] then []
    else Expand(blockMask[..|blockMask| - 1], blockSize) + seq(blockSize, _ => blockMask[|blockMask| - 1])
  }

  lemma {:induction false} ExpandLength(blockMask: seq<bool>, blockSize: nat)
    ensures |Expand(blockMask, blockSize)| == |blockMask| * blockSize
  {
    if blockMask != [] {
      ExpandLength(blockMask[..|blockMask| - 1], blockSize);
      OneMore(|blockMask|, blockSize);
    }
  }

  /** Token t of the expanded mask has the flag of block t / blockSize. */
  lemma {:induction false} ExpandAt(blockMask: seq<bool>, blockSize: nat, t: nat)
    requires blockSize > 0 && t < |Expand(blockMask, blockSize)|
    ensures t / blockSize < |blockMask| && Expand(blockMask, blockSize)[t] == blockMask[t / blockSize]
  {
    var n := |blockMask| - 1;
    ExpandLength(blockMask, blockSize);
    ExpandLength(blockMask[..n], blockSize);
    DivIsLess(t, blockSize, n + 1);
    DivIsLess(t, blockSize, n);
    if t < n * blockSize { ExpandAt(blockMask[..n], blockSize, t); }
  }

  ghost predicate RepeatsFlags(m: seq<bool>, blockMask: seq<bool>, blockSize: nat)
    requires blockSize > 0
  {
    forall t :: 0 <= t < |m| ==> t / blockSize < |blockMask| && m[t] == blockMask[t / blockSize]
  }

  lemma ExpandRepeatsFlags(blockMask: seq<bool>, blockSize: nat)
    requires blockSize > 0
    ensures RepeatsFlags(Expand(blockMask, blockSize), blockMask, blockSize)
  {
    forall t | 0 <= t < |Expand(blockMask, blockSize)|
      ensures t / blockSize < |blockMask| && Expand(blockMask, blockSize)[t] == blockMask[t / blockSize]
    {
      ExpandAt(blockMask, blockSize, t);
    }
  }

  lemma ExpandIsLongEnough(blockMask: seq<bool>, blockSize: nat, seqLen: nat)
    requires blockSize > 0 && |blockMask| == CeilDiv(seqLen, blockSize)
    ensures seqLen <= |Expand(blockMask, blockSize)|
  {
    ExpandLength(blockMask, blockSize);
    CeilDivBounds(seqLen, blockSize);
  }

  /** The token mask: the expanded block mask without the padding behind seqLen. */
  function TokenMask(blockMask: seq<bool>, blockSize: nat, seqLen: nat): (m: seq<bool>)
    requires blockSize > 0 && |blockMask| == CeilDiv(seqLen, blockSize)
    ensures |m| == seqLen && RepeatsFlags(m, blockMask, blockSize)
  {
    ExpandIsLongEnough(blockMask, blockSize, seqLen);
    ExpandRepeatsFlags(blockMask, blockSize);
    Expand(blockMask, blockSize)[..seqLen]
  }

  lemma BlockOfToken(t: nat, blockSize: nat, seqLen: nat)
    requires blockSize > 0 && t < seqLen
    ensures t / blockSize < CeilDiv(seqLen, blockSize)
  {
    CeilDivBounds(seqLen, blockSize);
    DivIsLess(t, blockSize, CeilDiv(seqLen, blockSize));
  }

  /** What forward returns: the mask, and the number of tokens it keeps twice over. */
  datatype Selection = Selection(mask: seq<bool>, newMaxSeqLen: nat, newCuSeqlens: seq<nat>)

  method CountMask(mask: seq<bool>) returns (n: nat)
    ensures n == CountTrue(mask)
  {
    n := 0;
    for t := 0 to |mask|
      invariant n == CountTrue(mask[..t])
    {
      assert mask[..t + 1][..t] == mask[..t];
      n := n + if mask[t] then 1 else 0;
    }
    assert mask[..|mask|] == mask;
  }

  /** A block survives when it is forced or in the nucleus of the given order and size. */
  ghost predicate KeptBlock(b: nat, order: seq<nat>, k: nat, numBlocks: nat, sinkBlocks: nat, lastNBlocks: nat) {
    Forced(b, numBlocks, sinkBlocks, lastNBlocks) || exists i :: 0 <= i < k && i < |order| && order[i] == b
  }

  lemma NucleusMembers(mask: seq<bool>, order: seq<nat>, k: nat, b: nat)
    requires IsNucleus(mask, order, k) && IsPermutation(order, |mask|) && b < |mask|
    ensures mask[b] <==> exists i :: 0 <= i < k && i < |order| && order[i] == b
  {
    assert b in order;
    var i :| 0 <= i < |order| && order[i] == b;
    assert mask[order[i]] <==> i < k;
  }

  /** block_mask: the nucleus, and the blocks forced at both ends. */
  method SelectBlocks(prob: seq<real>, sinkBlocks: nat, lastNBlocks: nat, alpha: real)
    returns (blockMask: seq<bool>, order: seq<nat>, ghost k: nat)
    requires prob != [] && NonNegative(prob) && lastNBlocks <= |prob|
    ensures Sorts(order, prob) && IsNucleusSize(Gather(prob, order), alpha, k)
    ensures |blockMask| == |prob|
    ensures forall b :: 0 <= b < |prob| ==>
              (blockMask[b] <==> KeptBlock(b, order, k, |prob|, sinkBlocks, lastNBlocks))
  {
    var flags;
    flags, order, k := NucleusMask(prob, alpha);
    ghost var nucleus := flags[..];
    ForceBlocks(flags, sinkBlocks, lastNBlocks);
    forall b | 0 <= b < |prob| ensures flags[b] <==> KeptBlock(b, order, k, |prob|, sinkBlocks, lastNBlocks) {
      NucleusMembers(nucleus, order, k, b);
    }
    blockMask := flags[..];
  }

  ghost predicate TokensFollowBlocks(mask: seq<bool>, order: seq<nat>, k: nat, numBlocks: nat, blockSize: nat,
                                     sinkBlocks: nat, lastNBlocks: nat)
    requires blockSize > 0
  {
    forall t :: 0 <= t < |mask| ==>
      (mask[t] <==> KeptBlock(t / blockSize, order, k, numBlocks, sinkBlocks, lastNBlocks))
  }

  /** The selection that forward makes, given how its sort broke ties and where its nucleus ends. */
  ghost predicate IsSelection(r: Selection, blockScore: seq<real>, seqLen: nat, blockSize: nat,
                              attentionSink: nat, lastN: nat, order: seq<nat>, k: nat)
    requires blockSize > 0
  {
    && |r.mask| == seqLen
    && TokensFollowBlocks(r.mask, order, k, |blockScore|, blockSize,
                          CeilDiv(attentionSink, blockSize), CeilDiv(lastN, blockSize))
    && r.newMaxSeqLen == CountTrue(r.mask) && r.newCuSeqlens == [0, CountTrue(r.mask)]
  }

  lemma CeilDivMonotone(a: nat, b: nat, c: nat)
    requires c > 0 && 0 < a <= b
    ensures 1 <= CeilDiv(a, c) <= CeilDiv(b, c)
  {
    CeilDivBounds(a, c);
    CeilDivBounds(b, c);
    DivIsLess(b + c - 1, c, CeilDiv(a, c));
  }

  lemma MaskKeepsBlocks(blockMask: seq<bool>, mask: seq<bool>, blockSize: nat, order: seq<nat>, k: nat,
                        sinkBlocks: nat, lastNBlocks: nat)
    requires blockSize > 0 && RepeatsFlags(mask, blockMask, blockSize)
    requires forall b :: 0 <= b < |blockMask| ==>
               (blockMask[b] <==> KeptBlock(b, order, k, |blockMask|, sinkBlocks, lastNBlocks))
    ensures TokensFollowBlocks(mask, order, k, |blockMask|, blockSize, sinkBlocks, lastNBlocks)
  {
    forall t | 0 <= t < |mask|
      ensures mask[t] <==> KeptBlock(t / blockSize, order, k, |blockMask|, sinkBlocks, lastNBlocks)
    {
      assert mask[t] == blockMask[t / blockSize];
    }
  }

  /**
    forward, from the block scores on. attention_sink and last_n count tokens; a last_n beyond the
    sequence does not get this far, since the causal mask would not broadcast.
   */
  method SelectTokens(blockScore: seq<real>, seqLen: nat, blockSize: nat, attentionSink: nat, lastN: nat, alpha: real)
    returns (r: Selection, order: seq<nat>, ghost k: nat)
    requires blockSize > 0 && 1 <= lastN <= seqLen
    requires |blockScore| == CeilDiv(seqLen, blockSize) && NonNegative(blockScore)
    ensures Sum(blockScore) + EPSILON > 0.0
    ensures Sorts(order, Probs(blockScore, EPSILON))
    ensures IsNucleusSize(Gather(Probs(blockScore, EPSILON), order), alpha, k)
    ensures IsSelection(r, blockScore, seqLen, blockSize, attentionSink, lastN, order, k)
  {
    var sinkBlocks, lastNBlocks := CeilDiv(attentionSink, blockSize), CeilDiv(lastN, blockSize);
    SumIsNonNegative(blockScore);
    var prob := Probs(blockScore, EPSILON);
    ProbsAreNonNegative(blockScore, EPSILON);
    CeilDivMonotone(lastN, seqLen, blockSize);
    var blockMask;
    blockMask, order, k := SelectBlocks(prob, sinkBlocks, lastNBlocks, alpha);
    var mask := TokenMask(blockMask, blockSize, seqLen);
    MaskKeepsBlocks(blockMask, mask, blockSize, order, k, sinkBlocks, lastNBlocks);
    var newMaxSeqLen := CountMask(mask);
    r := Selection(mask, newMaxSeqLen, [0, newMaxSeqLen]);
  }
}
