/**
  The tensor-parallel variant of the selection in native_imp.py: each rank averages over its own
  heads, all_reduce adds the block scores of the ranks, and the sum is normalized as usual.
 */
module TensorParallel {
  import opened Arithmetic
  import opened BlockSelection
  import opened TokenSelection

  /** The attention scores of one head: a row for each query, a column for each token. */
  type Head = seq<seq<real>>

  /** Columns behind the sequence are padding with value 0. */
  function At(h: Head, q: nat, t: nat): real { if q < |h| && t < |h[q]| then h[q][t] else 0.0 }

  function HeadTotal(hs: seq<Head>, q: nat, t: nat): real {
    if hs == [] then 0.0 else HeadTotal(hs[..|hs| - 1], q, t) + At(hs[|hs| - 1], q, t)
  }

  function MeanOverHeads(hs: seq<Head>, q: nat, t: nat): real
    requires hs != []
  {
    HeadTotal(hs, q, t) / |hs| as real
  }

  function QueryTotal(hs: seq<Head>, t: nat, n: nat): real
    requires hs != []
  {
    if n == 0 then 0.0 else QueryTotal(hs, t, n - 1) + MeanOverHeads(hs, n - 1, t)
  }

  function TokenScore(hs: seq<Head>, queries: nat, t: nat): real
    requires hs != [] && queries > 0
  {
    QueryTotal(hs, t, queries) / queries as real
  }

  function BlockTotal(hs: seq<Head>, queries: nat, first: nat, n: nat): real
    requires hs != [] && queries > 0
  {
    if n == 0 then 0.0 else BlockTotal(hs, queries, first, n - 1) + TokenScore(hs, queries, first + n - 1)
  }

  /** block_score of the block from token `first` on: mean over heads, last queries, then tokens. */
  function BlockScore(hs: seq<Head>, queries: nat, blockSize: nat, first: nat): real
    requires hs != [] && queries > 0 && blockSize > 0
  {
    BlockTotal(hs, queries, first, blockSize) / blockSize as real
  }

  /** The first token of block b: the blocks are laid out one behind the other. */
  function FirstToken(b: nat, blockSize: nat): nat {
    if b == 0 then 0 else FirstToken(b - 1, blockSize) + blockSize
  }

  function BlockScores(hs: seq<Head>, queries: nat, blockSize: nat, numBlocks: nat): (s: seq<real>)
    requires hs != [] && queries > 0 && blockSize > 0
    ensures |s| == numBlocks && forall b :: 0 <= b < numBlocks ==>
      s[b] == BlockScore(hs, queries, blockSize, FirstToken(b, blockSize))
  {
    seq(numBlocks, b requires 0 <= b < numBlocks => BlockScore(hs, queries, blockSize, FirstToken(b, blockSize)))
  }

  // ---------- what the scores are ----------

  /** The entries of all heads for one query and one token. */
  function Entries(hs: seq<Head>, q: nat, t: nat): (s: seq<real>)
    ensures |s| == |hs| && forall h :: 0 <= h < |hs| ==>
              s[h] == if q < |hs[h]| && t < |hs[h][q]| then hs[h][q][t] else 0.0
  {
    seq(|hs|, h requires 0 <= h < |hs| => At(hs[h], q, t))
  }

  lemma {:induction false} HeadTotalIs(hs: seq<Head>, q: nat, t: nat)
    ensures HeadTotal(hs, q, t) == Sum(Entries(hs, q, t))
  {
    if hs != [] {
      var n := |hs| - 1;
      HeadTotalIs(hs[..n], q, t);
      assert Entries(hs, q, t)[..n] == Entries(hs[..n], q, t);
    }
  }

  /** Entry q is the mean over the heads for query q. */
  ghost predicate AreMeans(hs: seq<Head>, t: nat, means: seq<real>)
    requires hs != []
  {
    forall q :: 0 <= q < |means| ==> means[q] == Sum(Entries(hs, q, t)) / |hs| as real
  }

  lemma {:induction false} QueryTotalIs(hs: seq<Head>, t: nat, means: seq<real>)
    requires hs != [] && AreMeans(hs, t, means)
    ensures QueryTotal(hs, t, |means|) == Sum(means)
  {
    if means != [] {
      var n := |means| - 1;
      QueryTotalIs(hs, t, means[..n]);
      HeadTotalIs(hs, n, t);
    }
  }

  lemma MeanOfTotal(hs: seq<Head>, queries: nat, t: nat, total: real)
    requires hs != [] && queries > 0 && QueryTotal(hs, t, queries) == total
    ensures TokenScore(hs, queries, t) == total / queries as real
  {}

  /** The score of a token: the mean over the queries of the mean over the heads. */
  lemma TokenScoreIs(hs: seq<Head>, t: nat, means: seq<real>)
    requires hs != [] && means != [] && AreMeans(hs, t, means)
    ensures TokenScore(hs, |means|, t) == Sum(means) / |means| as real
  {
    QueryTotalIs(hs, t, means);
    MeanOfTotal(hs, |means|, t, Sum(means));
  }

  lemma {:induction false} BlockTotalIs(hs: seq<Head>, queries: nat, first: nat, scores: seq<real>)
    requires hs != [] && queries > 0
    requires forall j :: 0 <= j < |scores| ==> scores[j] == TokenScore(hs, queries, first + j)
    ensures BlockTotal(hs, queries, first, |scores|) == Sum(scores)
  {
    if scores != [] { BlockTotalIs(hs, queries, first, scores[..|scores| - 1]); }
  }

  lemma {:induction false} FirstTokenIsProduct(b: nat, blockSize: nat)
    ensures FirstToken(b, blockSize) == b * blockSize
  {
    if b > 0 {
      FirstTokenIsProduct(b - 1, blockSize);
      OneMore(b, blockSize);
    }
  }

  lemma MeanOfBlock(hs: seq<Head>, queries: nat, blockSize: nat, first: nat, total: real)
    requires hs != [] && queries > 0 && blockSize > 0 && BlockTotal(hs, queries, first, blockSize) == total
    ensures BlockScore(hs, queries, blockSize, first) == total / blockSize as real
  {}

  /** The score of block b: the mean over its tokens b * blockSize + j. */
  lemma BlockScoreIs(hs: seq<Head>, queries: nat, numBlocks: nat, b: nat, first: nat, scores: seq<real>)
    requires hs != [] && queries > 0 && scores != [] && b < numBlocks && first == b * |scores|
    requires forall j :: 0 <= j < |scores| ==> scores[j] == TokenScore(hs, queries, first + j)
    ensures BlockScores(hs, queries, |scores|, numBlocks)[b] == Sum(scores) / |scores| as real
  {
    FirstTokenIsProduct(b, |scores|);
    BlockTotalIs(hs, queries, first, scores);
    MeanOfBlock(hs, queries, |scores|, first, Sum(scores));
  }

  // ---------- ranks ----------

  /** The heads of all ranks, rank after rank. */
  function AllHeads(shards: seq<seq<Head>>): seq<Head> {
    if shards == [] then [] else AllHeads(shards[..|shards| - 1]) + shards[|shards| - 1]
  }

  ghost predicate EqualShards(shards: seq<seq<Head>>, perRank: nat) {
    shards != [] && perRank > 0 && forall r :: 0 <= r < |shards| ==> |shards[r]| == perRank
  }

  function RankMeans(shards: seq<seq<Head>>, perRank: nat, q: nat, t: nat): (s: seq<real>)
    requires EqualShards(shards, perRank)
    ensures |s| == |shards| && forall r :: 0 <= r < |s| ==> s[r] == MeanOverHeads(shards[r], q, t)
  {
    seq(|shards|, r requires 0 <= r < |shards| => MeanOverHeads(shards[r], q, t))
  }

  function RankQueryTotals(shards: seq<seq<Head>>, perRank: nat, t: nat, n: nat): (s: seq<real>)
    requires EqualShards(shards, perRank)
    ensures |s| == |shards| && forall r :: 0 <= r < |s| ==> s[r] == QueryTotal(shards[r], t, n)
  {
    seq(|shards|, r requires 0 <= r < |shards| => QueryTotal(shards[r], t, n))
  }

  function RankTokenScores(shards: seq<seq<Head>>, perRank: nat, queries: nat, t: nat): (s: seq<real>)
    requires EqualShards(shards, perRank) && queries > 0
    ensures |s| == |shards| && forall r :: 0 <= r < |s| ==> s[r] == TokenScore(shards[r], queries, t)
  {
    seq(|shards|, r requires 0 <= r < |shards| => TokenScore(shards[r], queries, t))
  }

  function RankBlockTotals(shards: seq<seq<Head>>, perRank: nat, queries: nat, first: nat, n: nat): (s: seq<real>)
    requires EqualShards(shards, perRank) && queries > 0
    ensures |s| == |shards| && forall r :: 0 <= r < |s| ==> s[r] == BlockTotal(shards[r], queries, first, n)
  {
    seq(|shards|, r requires 0 <= r < |shards| => BlockTotal(shards[r], queries, first, n))
  }

  /** One block's scores, rank by rank: what all_reduce adds up. */
  function RankBlockScores(shards: seq<seq<Head>>, perRank: nat, queries: nat, blockSize: nat,
                           first: nat): (s: seq<real>)
    requires EqualShards(shards, perRank) && queries > 0 && blockSize > 0
    ensures |s| == |shards| && forall r :: 0 <= r < |s| ==> s[r] == BlockScore(shards[r], queries, blockSize, first)
  {
    seq(|shards|, r requires 0 <= r < |shards| => BlockScore(shards[r], queries, blockSize, first))
  }

  /** block_score after all_reduce. */
  function ReducedScores(shards: seq<seq<Head>>, perRank: nat, queries: nat, blockSize: nat,
                         numBlocks: nat): (s: seq<real>)
    requires EqualShards(shards, perRank) && queries > 0 && blockSize > 0
    ensures |s| == numBlocks
    ensures forall b :: 0 <= b < numBlocks ==>
      s[b] == Sum(RankBlockScores(shards, perRank, queries, blockSize, FirstToken(b, blockSize)))
  {
    seq(numBlocks, b requires 0 <= b < numBlocks =>
      Sum(RankBlockScores(shards, perRank, queries, blockSize, FirstToken(b, blockSize))))
  }

  // ---------- linearity of sums ----------

  lemma {:induction false} SumAdds(a: seq<real>, b: seq<real>, c: seq<real>)
    requires |a| == |b| == |c| && forall i :: 0 <= i < |c| ==> c[i] == a[i] + b[i]
    ensures Sum(c) == Sum(a) + Sum(b)
  {
    if c != [] {
      var n := |c| - 1;
      SumAdds(a[..n], b[..n], c[..n]);
    }
  }

  lemma {:induction false} TimesAdds(n: nat, x: real, y: real)
    ensures Times(n, x + y) == Times(n, x) + Times(n, y)
  {
    if n > 0 { TimesAdds(n - 1, x, y); }
  }

  /** Terms that are n times a number add up to n times its sum. */
  lemma SumAddsTimes(a: seq<real>, b: seq<real>, c: seq<real>, n: nat, x: real, y: real)
    requires |a| == |b| == |c| && forall i :: 0 <= i < |c| ==> c[i] == a[i] + b[i]
    requires Sum(a) == Times(n, x) && Sum(b) == Times(n, y)
    ensures Sum(c) == Times(n, x + y)
  {
    SumAdds(a, b, c);
    TimesAdds(n, x, y);
  }

  // ---------- the reduced scores are the single-device scores times the number of ranks ----------

  lemma {:induction false} HeadTotalConcat(a: seq<Head>, b: seq<Head>, q: nat, t: nat)
    ensures HeadTotal(a + b, q, t) == HeadTotal(a, q, t) + HeadTotal(b, q, t)
  {
    if b == [] {
      assert a + b == a;
    } else {
      assert (a + b)[..|a + b| - 1] == a + b[..|b| - 1];
      HeadTotalConcat(a, b[..|b| - 1], q, t);
    }
  }

  function RankHeadTotals(shards: seq<seq<Head>>, q: nat, t: nat): (s: seq<real>)
    ensures |s| == |shards| && forall r :: 0 <= r < |s| ==> s[r] == HeadTotal(shards[r], q, t)
  {
    seq(|shards|, r requires 0 <= r < |shards| => HeadTotal(shards[r], q, t))
  }

  lemma {:induction false} HeadTotalOfShards(shards: seq<seq<Head>>, q: nat, t: nat)
    ensures HeadTotal(AllHeads(shards), q, t) == Sum(RankHeadTotals(shards, q, t))
  {
    if shards != [] {
      var n := |shards| - 1;
      HeadTotalOfShards(shards[..n], q, t);
      HeadTotalConcat(AllHeads(shards[..n]), shards[n], q, t);
      assert RankHeadTotals(shards, q, t)[..n] == RankHeadTotals(shards[..n], q, t);
    }
  }

  lemma {:induction false} NumberOfHeads(shards: seq<seq<Head>>, perRank: nat)
    requires forall r :: 0 <= r < |shards| ==> |shards[r]| == perRank
    ensures |AllHeads(shards)| == |shards| * perRank
  {
    if shards != [] {
      NumberOfHeads(shards[..|shards| - 1], perRank);
      assert |shards| * perRank == (|shards| - 1) * perRank + perRank;
    }
  }

  lemma {:induction false} TimesZero(n: nat)
    ensures Times(n, 0.0) == 0.0
  {
    if n > 0 { TimesZero(n - 1); }
  }

  lemma {:induction false} TimesDivides(n: nat, x: real, d: real)
    requires d != 0.0
    ensures Times(n, x) / d == Times(n, x / d)
  {
    if n > 0 {
      TimesDivides(n - 1, x, d);
      DivAdds(Times(n - 1, x), x, d);
    }
  }

  lemma TimesOfMean(x: real, ranks: nat, perRank: nat, heads: nat)
    requires ranks > 0 && perRank > 0 && heads == ranks * perRank
    ensures heads > 0 && x / perRank as real == Times(ranks, x / heads as real)
  {
    var r, p := ranks as real, perRank as real;
    assert heads as real == r * p;
    var y := x / heads as real;
    TimesIsProduct(ranks, y);
    assert (r * y) * p == y * (r * p) == x;
  }

  lemma MeansAdd(shards: seq<seq<Head>>, perRank: nat, q: nat, t: nat)
    requires EqualShards(shards, perRank)
    ensures AllHeads(shards) != []
    ensures Sum(RankMeans(shards, perRank, q, t)) == Times(|shards|, MeanOverHeads(AllHeads(shards), q, t))
  {
    NumberOfHeads(shards, perRank);
    HeadTotalOfShards(shards, q, t);
    SumDivides(RankHeadTotals(shards, q, t), RankMeans(shards, perRank, q, t), perRank as real);
    TimesOfMean(HeadTotal(AllHeads(shards), q, t), |shards|, perRank, |AllHeads(shards)|);
  }

  lemma QueryTotalsStart(shards: seq<seq<Head>>, perRank: nat, t: nat)
    requires EqualShards(shards, perRank) && AllHeads(shards) != []
    ensures Sum(RankQueryTotals(shards, perRank, t, 0)) == Times(|shards|, QueryTotal(AllHeads(shards), t, 0))
  {
    SumOfZeros(RankQueryTotals(shards, perRank, t, 0));
    TimesZero(|shards|);
  }

  lemma QueryTotalsStep(shards: seq<seq<Head>>, perRank: nat, t: nat, n: nat)
    requires EqualShards(shards, perRank) && AllHeads(shards) != []
    requires Sum(RankQueryTotals(shards, perRank, t, n)) == Times(|shards|, QueryTotal(AllHeads(shards), t, n))
    ensures Sum(RankQueryTotals(shards, perRank, t, n + 1)) == Times(|shards|, QueryTotal(AllHeads(shards), t, n + 1))
  {
    MeansAdd(shards, perRank, n, t);
    SumAddsTimes(RankQueryTotals(shards, perRank, t, n), RankMeans(shards, perRank, n, t),
                 RankQueryTotals(shards, perRank, t, n + 1), |shards|,
                 QueryTotal(AllHeads(shards), t, n), MeanOverHeads(AllHeads(shards), n, t));
  }

  lemma {:induction false} QueryTotalsAdd(shards: seq<seq<Head>>, perRank: nat, t: nat, n: nat)
    requires EqualShards(shards, perRank) && AllHeads(shards) != []
    ensures Sum(RankQueryTotals(shards, perRank, t, n)) == Times(|shards|, QueryTotal(AllHeads(shards), t, n))
  {
    if n == 0 {
      QueryTotalsStart(shards, perRank, t);
    } else {
      QueryTotalsAdd(shards, perRank, t, n - 1);
      QueryTotalsStep(shards, perRank, t, n - 1);
    }
  }

  lemma TokenScoresAdd(shards: seq<seq<Head>>, perRank: nat, queries: nat, t: nat)
    requires EqualShards(shards, perRank) && AllHeads(shards) != [] && queries > 0
    ensures Sum(RankTokenScores(shards, perRank, queries, t)) ==
      Times(|shards|, TokenScore(AllHeads(shards), queries, t))
  {
    QueryTotalsAdd(shards, perRank, t, queries);
    SumDivides(RankQueryTotals(shards, perRank, t, queries), RankTokenScores(shards, perRank, queries, t),
      queries as real);
    TimesDivides(|shards|, QueryTotal(AllHeads(shards), t, queries), queries as real);
  }

  lemma {:induction false} BlockTotalsAdd(shards: seq<seq<Head>>, perRank: nat, queries: nat, first: nat, n: nat)
    requires EqualShards(shards, perRank) && AllHeads(shards) != [] && queries > 0
    ensures Sum(RankBlockTotals(shards, perRank, queries, first, n))
         == Times(|shards|, BlockTotal(AllHeads(shards), queries, first, n))
  {
    if n == 0 {
      SumOfZeros(RankBlockTotals(shards, perRank, queries, first, 0));
      TimesZero(|shards|);
    } else {
      BlockTotalsAdd(shards, perRank, queries, first, n - 1);
      TokenScoresAdd(shards, perRank, queries, first + n - 1);
      SumAddsTimes(RankBlockTotals(shards, perRank, queries, first, n - 1),
                   RankTokenScores(shards, perRank, queries, first + n - 1),
                   RankBlockTotals(shards, perRank, queries, first, n), |shards|,
                   BlockTotal(AllHeads(shards), queries, first, n - 1),
                   TokenScore(AllHeads(shards), queries, first + n - 1));
    }
  }

  lemma BlockScoresAdd(shards: seq<seq<Head>>, perRank: nat, queries: nat, blockSize: nat, first: nat)
    requires EqualShards(shards, perRank) && AllHeads(shards) != [] && queries > 0 && blockSize > 0
    ensures Sum(RankBlockScores(shards, perRank, queries, blockSize, first))
         == Times(|shards|, BlockScore(AllHeads(shards), queries, blockSize, first))
  {
    BlockTotalsAdd(shards, perRank, queries, first, blockSize);
    SumDivides(RankBlockTotals(shards, perRank, queries, first, blockSize),
               RankBlockScores(shards, perRank, queries, blockSize, first), blockSize as real);
    TimesDivides(|shards|, BlockTotal(AllHeads(shards), queries, first, blockSize), blockSize as real);
  }

  lemma ReducedScoreAt(shards: seq<seq<Head>>, perRank: nat, queries: nat, blockSize: nat, numBlocks: nat, b: nat)
    requires EqualShards(shards, perRank) && AllHeads(shards) != [] && queries > 0 && blockSize > 0 && b < numBlocks
    ensures ReducedScores(shards, perRank, queries, blockSize, numBlocks)[b]
         == Times(|shards|, BlockScores(AllHeads(shards), queries, blockSize, numBlocks)[b])
  {
    var first := FirstToken(b, blockSize);
    assert ReducedScores(shards, perRank, queries, blockSize, numBlocks)[b]
        == Sum(RankBlockScores(shards, perRank, queries, blockSize, first));
    BlockScoresAdd(shards, perRank, queries, blockSize, first);
  }

  /** The block scores after all_reduce are those of a single device, times the number of ranks. */
  lemma ReducedScoresScale(shards: seq<seq<Head>>, perRank: nat, queries: nat, blockSize: nat, numBlocks: nat)
    requires EqualShards(shards, perRank) && queries > 0 && blockSize > 0
    ensures AllHeads(shards) != []
    ensures forall b :: 0 <= b < numBlocks ==>
              ReducedScores(shards, perRank, queries, blockSize, numBlocks)[b]
              == Times(|shards|, BlockScores(AllHeads(shards), queries, blockSize, numBlocks)[b])
  {
    MeansAdd(shards, perRank, 0, 0);
    forall b | 0 <= b < numBlocks
      ensures ReducedScores(shards, perRank, queries, blockSize, numBlocks)[b]
           == Times(|shards|, BlockScores(AllHeads(shards), queries, blockSize, numBlocks)[b])
    {
      ReducedScoreAt(shards, perRank, queries, blockSize, numBlocks, b);
    }
  }

  // ---------- the nucleus of the reduced scores ----------

  lemma {:induction false} SumOfTimes(g: seq<real>, s: seq<real>, n: nat)
    requires |g| == |s| && forall i :: 0 <= i < |s| ==> s[i] == Times(n, g[i])
    ensures Sum(s) == Times(n, Sum(g))
  {
    if s == [] {
      TimesZero(n);
    } else {
      SumOfTimes(g[..|g| - 1], s[..|s| - 1], n);
      TimesAdds(n, Sum(g[..|g| - 1]), g[|g| - 1]);
    }
  }

  /** With the factor R both score and sum grow and epsilon does not, so a share can only grow. */
  lemma ScaledShare(g: real, total: real, r: real, epsilon: real)
    requires g >= 0.0 && total >= 0.0 && r >= 1.0 && epsilon >= 0.0 && total + epsilon > 0.0
    ensures r * total + epsilon > 0.0
    ensures (r * g) / (r * total + epsilon) >= g / (total + epsilon)
    ensures epsilon == 0.0 ==> (r * g) / (r * total + epsilon) == g / (total + epsilon)
  {
    assert r * total >= total;
    var x, y := (r * g) / (r * total + epsilon), g / (total + epsilon);
    assert y >= 0.0;
    assert x * (r * total + epsilon) == r * g == r * (y * (total + epsilon));
    assert (x - y) * (r * total + epsilon) == (y * epsilon) * (r - 1.0);
    assert (y * epsilon) * (r - 1.0) >= 0.0;
  }

  lemma ShareGrows(g: real, s: real, total: real, reduced: real, n: nat, epsilon: real)
    requires n >= 1 && s == Times(n, g) && reduced == Times(n, total)
    requires g >= 0.0 && total >= 0.0 && epsilon >= 0.0 && total + epsilon > 0.0
    ensures reduced + epsilon > 0.0
    ensures s / (reduced + epsilon) >= g / (total + epsilon)
    ensures epsilon == 0.0 ==> s / (reduced + epsilon) == g / (total + epsilon)
  {
    TimesIsProduct(n, total);
    TimesIsProduct(n, g);
    ScaledShare(g, total, n as real, epsilon);
  }

  /** s are the scores g times n: the shares of s are at least those of g. */
  lemma SharesGrow(g: seq<real>, s: seq<real>, n: nat, epsilon: real)
    requires |g| == |s| && n >= 1 && NonNegative(g) && epsilon >= 0.0 && Sum(g) + epsilon > 0.0
    requires forall j :: 0 <= j < |s| ==> s[j] == Times(n, g[j])
    ensures Sum(s) + epsilon > 0.0
    ensures forall i :: 0 <= i < |s| ==>
              Probs(g, epsilon)[i] <= Probs(s, epsilon)[i]
              && (epsilon == 0.0 ==> Probs(g, epsilon)[i] == Probs(s, epsilon)[i])
  {
    SumOfTimes(g, s, n);
    SumIsNonNegative(g);
    var total, reduced := Sum(g), Sum(s);
    ShareGrows(0.0, Times(n, 0.0), total, reduced, n, epsilon);
    var a, b := Probs(g, epsilon), Probs(s, epsilon);
    forall i | 0 <= i < |s| ensures a[i] <= b[i] && (epsilon == 0.0 ==> a[i] == b[i]) {
      ShareGrows(g[i], s[i], total, reduced, n, epsilon);
    }
  }

  lemma {:induction false} SumMonotone(a: seq<real>, b: seq<real>)
    requires |a| == |b| && forall i :: 0 <= i < |a| ==> a[i] <= b[i]
    ensures Sum(a) <= Sum(b)
  {
    if a != [] { SumMonotone(a[..|a| - 1], b[..|b| - 1]); }
  }

  /** A smaller list takes at least as many terms to pass alpha. */
  lemma NucleusShrinks(a: seq<real>, b: seq<real>, alpha: real, k: nat, l: nat)
    requires |a| == |b| && NonNegative(b) && forall i :: 0 <= i < |a| ==> a[i] <= b[i]
    requires IsNucleusSize(a, alpha, k) && IsNucleusSize(b, alpha, l)
    ensures l <= k
  {
    if k < l {
      SumMonotone(a[..k + 1], b[..k + 1]);
      PrefixSumsGrow(b, k + 1, l);
    }
  }

  /** Sorting by share is sorting by score. */
  lemma SortsScores(score: seq<real>, epsilon: real, order: seq<nat>)
    requires Sum(score) + epsilon > 0.0
    ensures Sorts(order, Probs(score, epsilon)) <==> Sorts(order, score)
  {
    var p, d := Probs(score, epsilon), Sum(score) + epsilon;
    if IsPermutation(order, |score|) {
      forall i, j | 0 <= i <= j < |order|
        ensures Gather(p, order)[i] >= Gather(p, order)[j] <==> Gather(score, order)[i] >= Gather(score, order)[j]
      {
        QuotientMonotone(score[order[i]], score[order[j]], d);
      }
    }
  }

  lemma CompareNuclei(p: seq<real>, q: seq<real>, same: bool, alpha: real, order: seq<nat>, k: nat, l: nat)
    requires |p| == |q| && NonNegative(p) && IsPermutation(order, |p|)
    requires forall i :: 0 <= i < |p| ==> p[i] <= q[i] && (same ==> p[i] == q[i])
    requires IsNucleusSize(Gather(p, order), alpha, k) && IsNucleusSize(Gather(q, order), alpha, l)
    ensures l <= k && (same ==> l == k)
  {
    var a, b := Gather(p, order), Gather(q, order);
    NucleusShrinks(a, b, alpha, k, l);
    if same { NucleusShrinks(b, a, alpha, l, k); }
  }

  lemma TimesKeepsOrder(g: seq<real>, s: seq<real>, n: nat, order: seq<nat>)
    requires n >= 1 && |g| == |s| && forall b :: 0 <= b < |s| ==> s[b] == Times(n, g[b])
    requires Sorts(order, g)
    ensures Sorts(order, s)
  {
    forall i, j | 0 <= i <= j < |order| ensures Gather(s, order)[i] >= Gather(s, order)[j] {
      assert Gather(g, order)[i] >= Gather(g, order)[j];
      TimesIsProduct(n, g[order[i]]);
      TimesIsProduct(n, g[order[j]]);
    }
  }

  lemma ScaledNucleusIsPrefix(g: seq<real>, s: seq<real>, n: nat, epsilon: real, alpha: real, order: seq<nat>,
                              single: nat, parallel: nat)
    requires n >= 1 && |g| == |s| && epsilon >= 0.0 && forall b :: 0 <= b < |s| ==> s[b] == Times(n, g[b])
    requires NonNegative(g) && Sum(g) + epsilon > 0.0 && Sum(s) + epsilon > 0.0
    requires Sorts(order, Probs(g, epsilon))
    requires IsNucleusSize(Gather(Probs(g, epsilon), order), alpha, single)
    requires IsNucleusSize(Gather(Probs(s, epsilon), order), alpha, parallel)
    ensures Sorts(order, Probs(s, epsilon)) && parallel <= single && (epsilon == 0.0 ==> parallel == single)
  {
    SharesGrow(g, s, n, epsilon);
    ProbsAreNonNegative(g, epsilon);
    CompareNuclei(Probs(g, epsilon), Probs(s, epsilon), epsilon == 0.0, alpha, order, single, parallel);
    SortsScores(g, epsilon, order);
    TimesKeepsOrder(g, s, n, order);
    SortsScores(s, epsilon, order);
  }

  /**
    For any order that sorts the single-device probabilities: it sorts the tensor-parallel ones too,
    and in that order the tensor-parallel nucleus is a prefix of the single-device nucleus. Only
    epsilon can make it shorter.
   */
  lemma TensorParallelNucleusIsPrefix(shards: seq<seq<Head>>, perRank: nat, queries: nat, blockSize: nat,
                                      numBlocks: nat, epsilon: real, alpha: real, order: seq<nat>,
                                      single: nat, parallel: nat)
    requires EqualShards(shards, perRank) && queries > 0 && blockSize > 0 && epsilon >= 0.0 && AllHeads(shards) != []
    requires var g := BlockScores(AllHeads(shards), queries, blockSize, numBlocks);
             var s := ReducedScores(shards, perRank, queries, blockSize, numBlocks);
             && NonNegative(g) && Sum(g) + epsilon > 0.0 && Sum(s) + epsilon > 0.0
             && Sorts(order, Probs(g, epsilon))
             && IsNucleusSize(Gather(Probs(g, epsilon), order), alpha, single)
             && IsNucleusSize(Gather(Probs(s, epsilon), order), alpha, parallel)
    ensures Sorts(order, Probs(ReducedScores(shards, perRank, queries, blockSize, numBlocks), epsilon))
    ensures parallel <= single
    ensures epsilon == 0.0 ==> parallel == single
  {
    var g := BlockScores(AllHeads(shards), queries, blockSize, numBlocks);
    var s := ReducedScores(shards, perRank, queries, blockSize, numBlocks);
    ReducedScoresScale(shards, perRank, queries, blockSize, numBlocks);
    ScaledNucleusIsPrefix(g, s, |shards|, epsilon, alpha, order, single, parallel);
  }
}
