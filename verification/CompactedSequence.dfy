/**
  What the token mask of native_imp.py keeps for certain, how long the compacted sequence is,
  and that gathering by the mask keeps hidden states and rotary tables aligned.
 */
module CompactedSequence {
  import opened Arithmetic
  import opened BlockSelection
  import opened TokenSelection

  // ---------- the forced ends ----------

  function Padding(seqLen: nat, blockSize: nat): int
    requires blockSize > 0
  {
    CeilDiv(seqLen, blockSize) * blockSize - seqLen
  }

  /** How many tokens at the end the forced last blocks cover (the padding is not made of tokens). */
  function TailLength(seqLen: nat, blockSize: nat, lastN: nat): int
    requires blockSize > 0
  {
    CeilDiv(lastN, blockSize) * blockSize - Padding(seqLen, blockSize)
  }

  lemma SinkTokensAreForced(t: nat, seqLen: nat, blockSize: nat, attentionSink: nat, lastN: nat)
    requires blockSize > 0 && t < attentionSink && t < seqLen
    ensures Forced(t / blockSize, CeilDiv(seqLen, blockSize),
                   CeilDiv(attentionSink, blockSize), CeilDiv(lastN, blockSize))
  {
    CeilDivBounds(attentionSink, blockSize);
    DivIsLess(t, blockSize, CeilDiv(attentionSink, blockSize));
  }

  /** A token lies in a forced last block exactly when it is among the last TailLength ones. */
  lemma TailTokens(t: nat, seqLen: nat, blockSize: nat, lastN: nat)
    requires blockSize > 0 && t < seqLen && 1 <= lastN <= seqLen
    ensures t / blockSize + CeilDiv(lastN, blockSize) >= CeilDiv(seqLen, blockSize)
       <==> seqLen - t <= TailLength(seqLen, blockSize, lastN)
  {
    CeilDivMonotone(lastN, seqLen, blockSize);
    var q := CeilDiv(seqLen, blockSize) - CeilDiv(lastN, blockSize);
    DivIsLess(t, blockSize, q);
    assert q * blockSize == CeilDiv(seqLen, blockSize) * blockSize - CeilDiv(lastN, blockSize) * blockSize;
  }

  lemma CeilDivExact(a: nat, b: nat)
    requires b > 0 && a % b == 0
    ensures CeilDiv(a, b) * b == a
  {
    var q := a / b;
    assert a == q * b;
    DivIsLess(a + b - 1, b, q + 1);
    DivIsLess(a + b - 1, b, q);
    assert (q + 1) * b == q * b + b;
  }

  /** The padding costs less than a block, and nothing when the block size divides the length. */
  lemma TailLengthBounds(seqLen: nat, blockSize: nat, lastN: nat)
    requires blockSize > 0
    ensures lastN - (blockSize - 1) <= TailLength(seqLen, blockSize, lastN) < lastN + blockSize
    ensures seqLen % blockSize == 0 ==> lastN <= TailLength(seqLen, blockSize, lastN)
  {
    CeilDivBounds(seqLen, blockSize);
    CeilDivBounds(lastN, blockSize);
    if seqLen % blockSize == 0 { CeilDivExact(seqLen, blockSize); }
  }

  // ---------- which tokens are kept whatever the scores ----------

  ghost predicate CanSelect(score: seq<real>, alpha: real, order: seq<nat>, k: nat) {
    && NonNegative(score) && Sum(score) + EPSILON > 0.0
    && Sorts(order, Probs(score, EPSILON)) && IsNucleusSize(Gather(Probs(score, EPSILON), order), alpha, k)
  }

  /** Block b is kept for all scores with the given total. */
  ghost predicate AlwaysKeptAt(b: nat, numBlocks: nat, sinkBlocks: nat, lastNBlocks: nat, alpha: real, total: real) {
    forall score, order, k :: |score| == numBlocks && Sum(score) == total && CanSelect(score, alpha, order, k) ==>
      KeptBlock(b, order, k, numBlocks, sinkBlocks, lastNBlocks)
  }

  /** Block b is kept for all scores. */
  ghost predicate AlwaysKept(b: nat, numBlocks: nat, sinkBlocks: nat, lastNBlocks: nat, alpha: real) {
    forall score, order, k :: |score| == numBlocks && CanSelect(score, alpha, order, k) ==>
      KeptBlock(b, order, k, numBlocks, sinkBlocks, lastNBlocks)
  }

  /** What the probabilities of scores with the given total add up to. */
  function MaxShare(total: real): real
    requires total + EPSILON != 0.0
  {
    total / (total + EPSILON)
  }

  /** A block with the whole score c; the others have none. */
  function Spike(n: nat, s: nat, c: real): (score: seq<real>)
    ensures |score| == n && forall i :: 0 <= i < n ==> score[i] == if i == s then c else 0.0
  {
    seq(n, i requires 0 <= i < n => if i == s then c else 0.0)
  }

  /** The order with blocks 0 and s exchanged. */
  function FirstIs(n: nat, s: nat): (order: seq<nat>)
    requires s < n
    ensures |order| == n && forall i :: 0 <= i < n ==> order[i] == if i == 0 then s else if i == s then 0 else i
  {
    seq(n, i requires 0 <= i < n => if i == 0 then s else if i == s then 0 else i)
  }

  lemma FirstIsPermutes(n: nat, s: nat)
    requires s < n
    ensures IsPermutation(FirstIs(n, s), n)
  {
    var order := FirstIs(n, s);
    forall b | 0 <= b < n ensures b in order { assert order[if b == 0 then s else if b == s then 0 else b] == b; }
  }

  lemma {:induction false} SumOfSpike(n: nat, s: nat, c: real)
    requires s < n
    ensures Sum(Spike(n, s, c)) == c
  {
    var m := n - 1;
    if s == m {
      SumOfZeros(Spike(n, s, c)[..m]);
    } else {
      assert Spike(n, s, c)[..m] == Spike(m, s, c);
      SumOfSpike(m, s, c);
    }
  }

  lemma SpikeShares(score: seq<real>, s: nat, c: real)
    requires s < |score| && c >= 0.0 && Sum(score) == c
    requires forall i :: 0 <= i < |score| ==> score[i] == if i == s then c else 0.0
    ensures MaxShare(c) >= 0.0
    ensures forall i :: 0 <= i < |score| ==> Probs(score, EPSILON)[i] == if i == s then MaxShare(c) else 0.0
  {
    QuotientIsNonNegative(c, c + EPSILON);
    assert 0.0 / (c + EPSILON) == 0.0;
  }

  lemma SumOfTwo(s: seq<real>)
    requires |s| >= 2
    ensures Sum(s[..2]) == s[0] + s[1]
  {
    PrefixSumStep(s, 0);
    PrefixSumStep(s, 1);
  }

  /** When the whole score is on one block and its share exceeds alpha, the nucleus is that block alone. */
  lemma SpikeSelectsOne(n: nat, s: nat, c: real, alpha: real)
    requires n > 1 && s < n && c >= 0.0 && MaxShare(c) > alpha
    ensures Sum(Spike(n, s, c)) == c && CanSelect(Spike(n, s, c), alpha, FirstIs(n, s), 1)
  {
    var score, order := Spike(n, s, c), FirstIs(n, s);
    SumOfSpike(n, s, c);
    FirstIsPermutes(n, s);
    var p := Probs(score, EPSILON);
    SpikeShares(score, s, c);
    var sorted := Gather(p, order);
    assert forall i :: 0 <= i < n ==> sorted[i] == if i == 0 then MaxShare(c) else 0.0;
    SumOfTwo(sorted);
  }

  lemma SumOfProbs(score: seq<real>, order: seq<nat>)
    requires NonNegative(score) && Sum(score) + EPSILON > 0.0 && IsPermutation(order, |score|)
    ensures Sum(Gather(Probs(score, EPSILON), order)) == MaxShare(Sum(score))
  {
    SumDivides(score, Probs(score, EPSILON), Sum(score) + EPSILON);
    SumOfPermutation(Probs(score, EPSILON), order);
  }

  lemma WholeListIsTaken(sorted: seq<real>, alpha: real, k: nat)
    requires NonNegative(sorted) && IsNucleusSize(sorted, alpha, k) && Sum(sorted) <= alpha
    ensures k == |sorted|
  {
    assert sorted[..|sorted|] == sorted;
    if k < |sorted| { PrefixSumsGrow(sorted, k + 1, |sorted|); }
  }

  /** When all probabilities together are at most alpha, the nucleus takes every block. */
  lemma NucleusTakesAll(score: seq<real>, alpha: real, order: seq<nat>, k: nat)
    requires CanSelect(score, alpha, order, k) && MaxShare(Sum(score)) <= alpha
    ensures k == |score|
  {
    SumOfProbs(score, order);
    ProbsAreNonNegative(score, EPSILON);
    WholeListIsTaken(Gather(Probs(score, EPSILON), order), alpha, k);
  }

  /** For scores with a given total nothing but the forced blocks is certain, unless alpha takes all. */
  lemma AlwaysKeptAtIff(b: nat, numBlocks: nat, sinkBlocks: nat, lastNBlocks: nat, alpha: real, total: real)
    requires b < numBlocks && lastNBlocks >= 1 && total >= 0.0
    ensures AlwaysKeptAt(b, numBlocks, sinkBlocks, lastNBlocks, alpha, total)
       <==> Forced(b, numBlocks, sinkBlocks, lastNBlocks) || MaxShare(total) <= alpha
  {
    if MaxShare(total) <= alpha {
      forall score, order, k | |score| == numBlocks && Sum(score) == total && CanSelect(score, alpha, order, k)
        ensures KeptBlock(b, order, k, numBlocks, sinkBlocks, lastNBlocks)
      {
        NucleusTakesAll(score, alpha, order, k);
        assert b in order;
      }
    } else if !Forced(b, numBlocks, sinkBlocks, lastNBlocks) {
      var s := if b == 0 then 1 else 0;
      SpikeSelectsOne(numBlocks, s, total, alpha);
      assert !KeptBlock(b, FirstIs(numBlocks, s), 1, numBlocks, sinkBlocks, lastNBlocks);
    }
  }

  lemma ShareExceeds(alpha: real, c: real)
    requires c + EPSILON > 0.0 && alpha * (c + EPSILON) < c
    ensures MaxShare(c) > alpha
  {
    var d := c + EPSILON;
    QuotientMonotone(alpha * d, c, d);
    assert alpha * d / d == alpha;
  }

  lemma LargeTotal(alpha: real) returns (c: real)
    requires alpha < 1.0
    ensures c >= 0.0 && MaxShare(c) > alpha
  {
    if alpha <= 0.0 {
      c := 1.0;
    } else {
      var rest := 1.0 - alpha;
      c := 1.0 / rest;
      assert c * rest == 1.0 && c > 0.0;
      assert alpha * c == c - c * rest;
      assert alpha * (c + EPSILON) == alpha * c + alpha * EPSILON;
    }
    ShareExceeds(alpha, c);
  }

  lemma MaxShareIsBelowOne(total: real)
    requires total >= 0.0
    ensures MaxShare(total) < 1.0
  {
    var d := total + EPSILON;
    QuotientMonotone(total, d, d);
    assert d / d == 1.0;
  }

  /** Over all scores nothing but the forced blocks is certain, unless alpha is at least 1. */
  lemma AlwaysKeptIff(b: nat, numBlocks: nat, sinkBlocks: nat, lastNBlocks: nat, alpha: real)
    requires b < numBlocks && lastNBlocks >= 1
    ensures AlwaysKept(b, numBlocks, sinkBlocks, lastNBlocks, alpha)
       <==> Forced(b, numBlocks, sinkBlocks, lastNBlocks) || alpha >= 1.0
  {
    if alpha >= 1.0 {
      forall score, order, k | |score| == numBlocks && CanSelect(score, alpha, order, k)
        ensures KeptBlock(b, order, k, numBlocks, sinkBlocks, lastNBlocks)
      {
        SumIsNonNegative(score);
        MaxShareIsBelowOne(Sum(score));
        AlwaysKeptAtIff(b, numBlocks, sinkBlocks, lastNBlocks, alpha, Sum(score));
      }
    } else {
      var total := LargeTotal(alpha);
      AlwaysKeptAtIff(b, numBlocks, sinkBlocks, lastNBlocks, alpha, total);
    }
  }

  /** The block of the token is kept for all scores. */
  ghost predicate TokenAlwaysKept(t: nat, seqLen: nat, blockSize: nat, attentionSink: nat, lastN: nat, alpha: real)
    requires blockSize > 0
  {
    AlwaysKept(t / blockSize, CeilDiv(seqLen, blockSize), CeilDiv(attentionSink, blockSize),
               CeilDiv(lastN, blockSize), alpha)
  }

  ghost predicate LastTokensAlwaysKept(seqLen: nat, blockSize: nat, attentionSink: nat, lastN: nat, alpha: real)
    requires blockSize > 0
  {
    forall t :: 0 <= t < seqLen && seqLen - lastN <= t ==>
      TokenAlwaysKept(t, seqLen, blockSize, attentionSink, lastN, alpha)
  }

  lemma TokenAlwaysKeptIff(t: nat, seqLen: nat, blockSize: nat, attentionSink: nat, lastN: nat, alpha: real)
    requires blockSize > 0 && 1 <= lastN <= seqLen && t < seqLen
    ensures TokenAlwaysKept(t, seqLen, blockSize, attentionSink, lastN, alpha)
       <==> Forced(t / blockSize, CeilDiv(seqLen, blockSize), CeilDiv(attentionSink, blockSize),
                   CeilDiv(lastN, blockSize)) || alpha >= 1.0
  {
    CeilDivMonotone(lastN, seqLen, blockSize);
    BlockOfToken(t, blockSize, seqLen);
    AlwaysKeptIff(t / blockSize, CeilDiv(seqLen, blockSize), CeilDiv(attentionSink, blockSize),
                  CeilDiv(lastN, blockSize), alpha);
  }

  lemma OneBlockIsLost(t: nat, seqLen: nat, blockSize: nat, lastN: nat)
    requires blockSize > 0 && 1 <= lastN <= seqLen && seqLen - lastN <= t < seqLen
    requires seqLen - t > TailLength(seqLen, blockSize, lastN)
    ensures t / blockSize == (seqLen - lastN) / blockSize
  {
    CeilDivMonotone(lastN, seqLen, blockSize);
    CeilDivBounds(lastN, blockSize);
    CeilDivBounds(seqLen, blockSize);
    var q := CeilDiv(seqLen, blockSize) - CeilDiv(lastN, blockSize);
    assert q * blockSize == CeilDiv(seqLen, blockSize) * blockSize - CeilDiv(lastN, blockSize) * blockSize;
    assert t < q * blockSize;
    assert (q - 1) * blockSize == q * blockSize - blockSize;
    DivIsLess(t, blockSize, q);
    DivIsLess(seqLen - lastN, blockSize, q);
    if q >= 1 {
      DivIsLess(t, blockSize, q - 1);
      DivIsLess(seqLen - lastN, blockSize, q - 1);
    }
  }

  lemma LaterTokenIsForced(t: nat, seqLen: nat, blockSize: nat, attentionSink: nat, lastN: nat)
    requires blockSize > 0 && 1 <= lastN <= seqLen && seqLen - lastN <= t < seqLen
    requires || lastN <= TailLength(seqLen, blockSize, lastN)
             || (seqLen - lastN) / blockSize < CeilDiv(attentionSink, blockSize)
    ensures Forced(t / blockSize, CeilDiv(seqLen, blockSize),
                   CeilDiv(attentionSink, blockSize), CeilDiv(lastN, blockSize))
  {
    var first, b := seqLen - lastN, t / blockSize;
    TailTokens(t, seqLen, blockSize, lastN);
    if seqLen - t > TailLength(seqLen, blockSize, lastN) {
      // At most one block is lost, so t is still in the block of the first of these tokens.
      TailLengthBounds(seqLen, blockSize, lastN);
      OneBlockIsLost(t, seqLen, blockSize, lastN);
    }
  }

  lemma FirstTokenKeptIff(seqLen: nat, blockSize: nat, attentionSink: nat, lastN: nat, alpha: real)
    requires blockSize > 0 && 1 <= lastN <= seqLen
    ensures TokenAlwaysKept(seqLen - lastN, seqLen, blockSize, attentionSink, lastN, alpha)
       <==> || lastN <= TailLength(seqLen, blockSize, lastN)
            || (seqLen - lastN) / blockSize < CeilDiv(attentionSink, blockSize)
            || alpha >= 1.0
  {
    TokenAlwaysKeptIff(seqLen - lastN, seqLen, blockSize, attentionSink, lastN, alpha);
    TailTokens(seqLen - lastN, seqLen, blockSize, lastN);
  }

  lemma LaterTokenIsKept(t: nat, seqLen: nat, blockSize: nat, attentionSink: nat, lastN: nat, alpha: real)
    requires blockSize > 0 && 1 <= lastN <= seqLen && seqLen - lastN <= t < seqLen
    requires TokenAlwaysKept(seqLen - lastN, seqLen, blockSize, attentionSink, lastN, alpha)
    ensures TokenAlwaysKept(t, seqLen, blockSize, attentionSink, lastN, alpha)
  {
    FirstTokenKeptIff(seqLen, blockSize, attentionSink, lastN, alpha);
    TokenAlwaysKeptIff(t, seqLen, blockSize, attentionSink, lastN, alpha);
    if alpha < 1.0 { LaterTokenIsForced(t, seqLen, blockSize, attentionSink, lastN); }
  }

  lemma LaterTokensAreKept(seqLen: nat, blockSize: nat, attentionSink: nat, lastN: nat, alpha: real)
    requires blockSize > 0 && 1 <= lastN <= seqLen
    ensures LastTokensAlwaysKept(seqLen, blockSize, attentionSink, lastN, alpha)
       <==> TokenAlwaysKept(seqLen - lastN, seqLen, blockSize, attentionSink, lastN, alpha)
  {
    if TokenAlwaysKept(seqLen - lastN, seqLen, blockSize, attentionSink, lastN, alpha) {
      forall t | seqLen - lastN <= t < seqLen
        ensures TokenAlwaysKept(t, seqLen, blockSize, attentionSink, lastN, alpha)
      {
        LaterTokenIsKept(t, seqLen, blockSize, attentionSink, lastN, alpha);
      }
    }
  }

  /**
    The last last_n tokens are kept for all scores exactly when the padding leaves the last blocks
    long enough, or the sink reaches the first of these tokens, or alpha takes every block.
   */
  lemma LastTokensKeptIff(seqLen: nat, blockSize: nat, attentionSink: nat, lastN: nat, alpha: real)
    requires blockSize > 0 && 1 <= lastN <= seqLen
    ensures LastTokensAlwaysKept(seqLen, blockSize, attentionSink, lastN, alpha)
       <==> || lastN <= TailLength(seqLen, blockSize, lastN)
            || (seqLen - lastN) / blockSize < CeilDiv(attentionSink, blockSize)
            || alpha >= 1.0
  {
    FirstTokenKeptIff(seqLen, blockSize, attentionSink, lastN, alpha);
    LaterTokensAreKept(seqLen, blockSize, attentionSink, lastN, alpha);
  }

  /**
    With the default sizes, the default alpha and 257 tokens, token 129 is among the last 128 and can
    be dropped: also by scores that are means over 64 tokens of weights adding up to 1, all of the
    weight being on the first block, which every query sees.
   */
  lemma DefaultsCanDropALastToken()
    ensures !LastTokensAlwaysKept(257, 64, 128, 128, 0.99) && !AlwaysKeptAt(129 / 64, 5, 2, 2, 0.99, 1.0 / 64.0)
    ensures Sum(Spike(5, 0, 1.0 / 64.0)) == 1.0 / 64.0
    ensures CanSelect(Spike(5, 0, 1.0 / 64.0), 0.99, FirstIs(5, 0), 1) &&
      !KeptBlock(129 / 64, FirstIs(5, 0), 1, 5, 2, 2)
  {
    LastTokensKeptIff(257, 64, 128, 128, 0.99);
    ShareExceeds(0.99, 1.0 / 64.0);
    AlwaysKeptAtIff(2, 5, 2, 2, 0.99, 1.0 / 64.0);
    SpikeSelectsOne(5, 0, 1.0 / 64.0, 0.99);
  }

  /** What every run keeps: the sink tokens and the tail, and no token outside a kept block. */
  lemma SelectionKeepsBothEnds(r: Selection, blockScore: seq<real>, seqLen: nat, blockSize: nat, attentionSink: nat,
                               lastN: nat, order: seq<nat>, k: nat)
    requires blockSize > 0 && 1 <= lastN <= seqLen && |blockScore| == CeilDiv(seqLen, blockSize)
    requires IsSelection(r, blockScore, seqLen, blockSize, attentionSink, lastN, order, k)
    ensures forall t :: 0 <= t < seqLen && t < attentionSink ==> r.mask[t]
    ensures forall t :: 0 <= t < seqLen && seqLen - t <= TailLength(seqLen, blockSize, lastN) ==> r.mask[t]
    ensures forall t :: 0 <= t < seqLen && seqLen - t <= lastN - (blockSize - 1) ==> r.mask[t]
  {
    TailLengthBounds(seqLen, blockSize, lastN);
    forall t | 0 <= t < seqLen && (t < attentionSink || seqLen - t <= TailLength(seqLen, blockSize, lastN))
      ensures r.mask[t]
    {
      if t < attentionSink {
        SinkTokensAreForced(t, seqLen, blockSize, attentionSink, lastN);
      } else {
        TailTokens(t, seqLen, blockSize, lastN);
      }
    }
  }

  // ---------- the length of the compacted sequence ----------

  /** Total size of the kept blocks, the last block being cut at the end of the sequence. */
  function KeptLength(blockMask: seq<bool>, blockSize: nat, seqLen: nat): int {
    if blockMask == [] then 0
    else
      var b := |blockMask| - 1;
      var size := if seqLen - b * blockSize < blockSize then seqLen - b * blockSize else blockSize;
      KeptLength(blockMask[..b], blockSize, b * blockSize) + if blockMask[b] then size else 0
  }

  lemma {:induction false} CountConcat(a: seq<bool>, b: seq<bool>)
    ensures CountTrue(a + b) == CountTrue(a) + CountTrue(b)
  {
    if b == [] {
      assert a + b == a;
    } else {
      assert (a + b)[..|a + b| - 1] == a + b[..|b| - 1];
      CountConcat(a, b[..|b| - 1]);
    }
  }

  lemma {:induction false} CountConstant(m: seq<bool>, flag: bool)
    requires forall i :: 0 <= i < |m| ==> m[i] == flag
    ensures CountTrue(m) == if flag then |m| else 0
  {
    if m != [] { CountConstant(m[..|m| - 1], flag); }
  }

  lemma LastBlockToken(t: nat, blockSize: nat, seqLen: nat, b: nat)
    requires blockSize > 0 && CeilDiv(seqLen, blockSize) == b + 1 && b * blockSize <= t < seqLen
    ensures t / blockSize == b
  {
    DivIsLess(t, blockSize, b);
    BlockOfToken(t, blockSize, seqLen);
  }

  lemma MaskAt(blockMask: seq<bool>, blockSize: nat, seqLen: nat, t: nat, b: nat)
    requires blockSize > 0 && |blockMask| == CeilDiv(seqLen, blockSize) && t < seqLen && b == t / blockSize
    ensures b < |blockMask| && TokenMask(blockMask, blockSize, seqLen)[t] == blockMask[b]
  {
    BlockOfToken(t, blockSize, seqLen);
  }

  lemma PrefixIs<T>(s: seq<T>, n: nat, front: seq<T>)
    requires |front| == n <= |s| && forall t :: 0 <= t < n ==> s[t] == front[t]
    ensures s[..n] == front
  {}

  lemma FrontMaskAt(blockMask: seq<bool>, blockSize: nat, seqLen: nat, b: nat, start: nat, t: nat)
    requires blockSize > 0 && |blockMask| == CeilDiv(seqLen, blockSize) && b <= |blockMask|
    requires CeilDiv(start, blockSize) == b && t < start <= seqLen
    ensures TokenMask(blockMask, blockSize, seqLen)[t] == TokenMask(blockMask[..b], blockSize, start)[t]
  {
    MaskAt(blockMask, blockSize, seqLen, t, t / blockSize);
    MaskAt(blockMask[..b], blockSize, start, t, t / blockSize);
  }

  lemma FrontMask(blockMask: seq<bool>, blockSize: nat, seqLen: nat, b: nat, start: nat)
    requires blockSize > 0 && |blockMask| == CeilDiv(seqLen, blockSize) && b <= |blockMask|
    requires CeilDiv(start, blockSize) == b && start <= seqLen
    ensures TokenMask(blockMask, blockSize, seqLen)[..start] == TokenMask(blockMask[..b], blockSize, start)
  {
    var mask, front := TokenMask(blockMask, blockSize, seqLen), TokenMask(blockMask[..b], blockSize, start);
    forall t | 0 <= t < start ensures mask[t] == front[t] {
      FrontMaskAt(blockMask, blockSize, seqLen, b, start, t);
    }
    PrefixIs(mask, start, front);
  }

  /** The mask of all blocks is the mask of the blocks before the last one, and the last flag. */
  lemma MaskSplits(blockMask: seq<bool>, blockSize: nat, seqLen: nat, b: nat, start: nat)
    requires blockSize > 0 && |blockMask| == CeilDiv(seqLen, blockSize) == b + 1 && start == b * blockSize
    requires CeilDiv(start, blockSize) == b
    ensures start < seqLen <= start + blockSize
    ensures TokenMask(blockMask, blockSize, seqLen)[..start] == TokenMask(blockMask[..b], blockSize, start)
    ensures forall t :: start <= t < seqLen ==> TokenMask(blockMask, blockSize, seqLen)[t] == blockMask[b]
  {
    CeilDivBounds(seqLen, blockSize);
    OneMore(b, blockSize);
    FrontMask(blockMask, blockSize, seqLen, b, start);
    forall t | start <= t < seqLen ensures TokenMask(blockMask, blockSize, seqLen)[t] == blockMask[b] {
      LastBlockToken(t, blockSize, seqLen, b);
    }
  }

  lemma MultipleIsExact(q: nat, b: nat)
    requires b > 0
    ensures CeilDiv(q * b, b) == q
  {
    OneMore(q, b);
    DivIsLess(q * b + b - 1, b, q);
    DivIsLess(q * b + b - 1, b, q + 1);
  }

  /** new_max_seq_len is the total size of the kept blocks. */
  lemma {:induction false} CountIsKeptLength(blockMask: seq<bool>, blockSize: nat, seqLen: nat)
    requires blockSize > 0 && |blockMask| == CeilDiv(seqLen, blockSize)
    ensures CountTrue(TokenMask(blockMask, blockSize, seqLen)) == KeptLength(blockMask, blockSize, seqLen)
    decreases |blockMask|
  {
    var mask := TokenMask(blockMask, blockSize, seqLen);
    if blockMask == [] {
      CeilDivBounds(seqLen, blockSize);
    } else {
      var b := |blockMask| - 1;
      var start := b * blockSize;
      MultipleIsExact(b, blockSize);
      MaskSplits(blockMask, blockSize, seqLen, b, start);
      CountIsKeptLength(blockMask[..b], blockSize, start);
      assert mask == mask[..start] + mask[start..];
      CountConcat(mask[..start], mask[start..]);
      CountConstant(mask[start..], blockMask[b]);
    }
  }

  ghost predicate AreFlags(flags: seq<bool>, order: seq<nat>, k: nat, sinkBlocks: nat, lastNBlocks: nat) {
    forall b :: 0 <= b < |flags| ==> (flags[b] <==> KeptBlock(b, order, k, |flags|, sinkBlocks, lastNBlocks))
  }

  lemma {:induction false} FlagsOfBlocks(numBlocks: nat, n: nat, order: seq<nat>, k: nat, sinkBlocks: nat,
                                         lastNBlocks: nat)
    returns (flags: seq<bool>)
    requires n <= numBlocks
    ensures |flags| == n
    ensures forall b :: 0 <= b < n ==> (flags[b] <==> KeptBlock(b, order, k, numBlocks, sinkBlocks, lastNBlocks))
  {
    if n == 0 {
      flags := [];
    } else {
      flags := FlagsOfBlocks(numBlocks, n - 1, order, k, sinkBlocks, lastNBlocks);
      flags := flags + [KeptBlock(n - 1, order, k, numBlocks, sinkBlocks, lastNBlocks)];
    }
  }

  /** new_max_seq_len of a selection is the total size of the blocks that it keeps. */
  lemma SelectionLength(r: Selection, blockScore: seq<real>, seqLen: nat, blockSize: nat, attentionSink: nat,
                        lastN: nat, order: seq<nat>, k: nat) returns (flags: seq<bool>)
    requires blockSize > 0 && |blockScore| == CeilDiv(seqLen, blockSize)
    requires IsSelection(r, blockScore, seqLen, blockSize, attentionSink, lastN, order, k)
    ensures |flags| == |blockScore|
    ensures AreFlags(flags, order, k, CeilDiv(attentionSink, blockSize), CeilDiv(lastN, blockSize))
    ensures r.mask == TokenMask(flags, blockSize, seqLen)
    ensures r.newMaxSeqLen == KeptLength(flags, blockSize, seqLen) && r.newCuSeqlens == [0, r.newMaxSeqLen]
  {
    var sb, lb := CeilDiv(attentionSink, blockSize), CeilDiv(lastN, blockSize);
    flags := FlagsOfBlocks(|blockScore|, |blockScore|, order, k, sb, lb);
    var mask := TokenMask(flags, blockSize, seqLen);
    MaskKeepsBlocks(flags, mask, blockSize, order, k, sb, lb);
    assert r.mask == mask;
    CountIsKeptLength(flags, blockSize, seqLen);
  }

  // ---------- gathering by the mask ----------

  /** x[:, mask, :] along the token axis. */
  function Keep<T>(x: seq<T>, mask: seq<bool>): seq<T>
    requires |x| == |mask|
  {
    if mask == [] then []
    else
      var n := |mask| - 1;
      Keep(x[..n], mask[..n]) + if mask[n] then [x[n]] else []
  }

  /** The tokens that survive, in order. */
  function Positions(mask: seq<bool>): seq<nat> {
    if mask == [] then []
    else
      var n := |mask| - 1;
      Positions(mask[..n]) + if mask[n] then [n] else []
  }

  ghost predicate Increasing(p: seq<nat>, bound: nat) {
    (forall i, j :: 0 <= i < j < |p| ==> p[i] < p[j]) && forall i :: 0 <= i < |p| ==> p[i] < bound
  }

  lemma {:induction false} PositionsAreTheKeptTokens(mask: seq<bool>)
    ensures Increasing(Positions(mask), |mask|) && |Positions(mask)| == CountTrue(mask)
    ensures forall t :: 0 <= t < |mask| ==> (t in Positions(mask) <==> mask[t])
  {
    if mask != [] {
      var n := |mask| - 1;
      var p := Positions(mask[..n]);
      PositionsAreTheKeptTokens(mask[..n]);
      assert n !in p;
      forall t | 0 <= t < |mask| ensures t in Positions(mask) <==> mask[t] {
        if t < n {
          assert t in p <==> mask[..n][t];
          assert t in p + [n] <==> t in p;
        }
      }
    }
  }

  lemma {:induction false} KeepGathers<T>(x: seq<T>, mask: seq<bool>)
    requires |x| == |mask|
    ensures Increasing(Positions(mask), |mask|) && Keep(x, mask) == Gather(x, Positions(mask))
  {
    PositionsAreTheKeptTokens(mask);
    if mask != [] {
      var n := |mask| - 1;
      KeepGathers(x[..n], mask[..n]);
      PositionsAreTheKeptTokens(mask[..n]);
      var p := Positions(mask[..n]);
      assert forall i :: 0 <= i < |p| ==> x[..n][p[i]] == x[p[i]];
    }
  }

  /** UpdateKVCache on the result of the selection: the three gathers by one mask. */
  function UpdateKVCache<H, R>(hidden: seq<H>, cos: seq<R>, sin: seq<R>, mask: seq<bool>): (seq<H>, (seq<R>, seq<R>))
    requires |hidden| == |cos| == |sin| == |mask|
  {
    (Keep(hidden, mask), (Keep(cos, mask), Keep(sin, mask)))
  }

  /** Entry j of all three results comes from one and the same original token, in token order. */
  lemma GathersStayAligned<H, R>(hidden: seq<H>, cos: seq<R>, sin: seq<R>, mask: seq<bool>)
    requires |hidden| == |cos| == |sin| == |mask|
    ensures var (h, (c, s)) := UpdateKVCache(hidden, cos, sin, mask);
            && |h| == |c| == |s| == CountTrue(mask)
            && exists from: seq<nat> :: |from| == |h| && Increasing(from, |mask|)
                 && (forall t :: 0 <= t < |mask| ==> (t in from <==> mask[t]))
                 && forall j :: 0 <= j < |h| ==> h[j] == hidden[from[j]] && c[j] == cos[from[j]] && s[j] == sin[from[j]]
  {
    KeepGathers(hidden, mask);
    KeepGathers(cos, mask);
    KeepGathers(sin, mask);
    PositionsAreTheKeptTokens(mask);
    var from := Positions(mask);
    assert |from| == |Keep(hidden, mask)|;
  }
}
