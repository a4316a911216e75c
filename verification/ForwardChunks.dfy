/**
  Sequence-parallel shards and lockstep chunks of vllm/forward_context.py.
 */
module ForwardChunks {
  import opened Arithmetic

  /** repeat_interleave: every item `times` times in a row. */
  function RepeatInterleave(s: seq<nat>, times: nat): seq<nat> {
    if s == [] then [] else RepeatInterleave(s[..|s| - 1], times) + seq(times, _ => s[|s| - 1])
  }

  lemma {:induction false} RepeatLength(s: seq<nat>, times: nat)
    ensures |RepeatInterleave(s, times)| == |s| * times
  {
    if s != [] {
      RepeatLength(s[..|s| - 1], times);
      OneMore(|s|, times);
    }
  }

  /** Position j holds the item that repeats there. */
  lemma {:induction false} RepeatAt(s: seq<nat>, times: nat, j: nat)
    requires times > 0 && j < |s| * times
    ensures |RepeatInterleave(s, times)| == |s| * times && j / times < |s|
    ensures RepeatInterleave(s, times)[j] == s[j / times]
  {
    var n := |s| - 1;
    RepeatLength(s, times);
    RepeatLength(s[..n], times);
    OneMore(n, times);
    DivIsLess(j, times, n);
    DivIsLess(j, times, n + 1);
    if j < n * times { RepeatAt(s[..n], times, j); }
  }

  function CeilAll(tokens: seq<nat>, d: nat): (r: seq<nat>)
    requires d > 0
    ensures |r| == |tokens|
  {
    seq(|tokens|, i requires 0 <= i < |tokens| => CeilDiv(tokens[i], d))
  }

  /** _compute_sp_num_tokens */
  function ComputeSpNumTokens(tokens: seq<nat>, sp: nat): seq<nat>
    requires sp > 0
  {
    RepeatInterleave(CeilAll(tokens, sp), sp)
  }

  lemma CeilAllAt(tokens: seq<nat>, sp: nat, i: nat)
    requires sp > 0 && i < |tokens|
    ensures CeilAll(tokens, sp)[i] == CeilDiv(tokens[i], sp)
  {}

  /** Shard j belongs to rank j / sp and holds its tokens divided by sp, rounded up. */
  lemma SpNumTokensAt(tokens: seq<nat>, sp: nat, j: nat)
    requires sp > 0 && j < |tokens| * sp
    ensures |ComputeSpNumTokens(tokens, sp)| == |tokens| * sp && j / sp < |tokens|
    ensures ComputeSpNumTokens(tokens, sp)[j] == CeilDiv(tokens[j / sp], sp)
  {
    RepeatAt(CeilAll(tokens, sp), sp, j);
    CeilAllAt(tokens, sp, j / sp);
  }

  /** The size of one chunk of a shard: at most the maximum, and 1 when nothing is left. */
  function ChunkOf(shard: int, max: nat, chunk: nat): int {
    var rest := shard - max * chunk;
    var size := if rest < max then rest else max;
    if size <= 0 then 1 else size
  }

  /** Shard j is one of rank j / sp, which divides its tokens evenly, rounded up. */
  ghost predicate IsLocalSize(tokens: seq<nat>, sp: nat, max: nat, chunk: nat, j: nat, size: int)
    requires sp > 0
  {
    j / sp < |tokens| && size == ChunkOf(CeilDiv(tokens[j / sp], sp), max, chunk)
  }

  lemma LocalSizeAt(tokens: seq<nat>, sp: nat, max: nat, chunk: nat, j: nat)
    requires sp > 0 && j < |ComputeSpNumTokens(tokens, sp)|
    ensures IsLocalSize(tokens, sp, max, chunk, j, ChunkOf(ComputeSpNumTokens(tokens, sp)[j], max, chunk))
  {
    RepeatLength(CeilAll(tokens, sp), sp);
    SpNumTokensAt(tokens, sp, j);
  }

  /** The loop over the shards. */
  method ChunkEach(spTokens: seq<nat>, max: nat, chunk: nat) returns (local: array<int>)
    ensures fresh(local) && local.Length == |spTokens|
    ensures forall j :: 0 <= j < local.Length ==> local[j] == ChunkOf(spTokens[j], max, chunk)
  {
    local := new int[|spTokens|](_ => -1);
    for i := 0 to |spTokens|
      invariant forall j :: 0 <= j < i ==> local[j] == ChunkOf(spTokens[j], max, chunk)
    {
      var rest := spTokens[i] - max * chunk;
      local[i] := if rest < max then rest else max;
      if local[i] <= 0 { local[i] := 1; }
    }
  }

  /** _compute_chunked_local_num_tokens */
  method ComputeChunkedLocalNumTokens(tokens: seq<nat>, sp: nat, max: nat, chunk: nat) returns (local: array<int>)
    requires sp > 0
    ensures fresh(local) && local.Length == |tokens| * sp
    ensures forall j :: 0 <= j < local.Length ==> IsLocalSize(tokens, sp, max, chunk, j, local[j])
  {
    local := ChunkEach(ComputeSpNumTokens(tokens, sp), max, chunk);
    RepeatLength(CeilAll(tokens, sp), sp);
    forall j | 0 <= j < local.Length ensures IsLocalSize(tokens, sp, max, chunk, j, local[j]) {
      LocalSizeAt(tokens, sp, max, chunk, j);
    }
  }

  // ---------- chunks ----------

  lemma Distributes(a: int, x: int, y: int)
    ensures a * (x + y) == a * x + a * y
  {}

  /** Chunk number `chunk` holds what is left of the shard behind the chunks in front, at most max, at least 1. */
  lemma ChunkIs(shard: nat, max: nat, chunk: nat)
    requires max >= 1
    ensures max * (chunk + 1) <= shard ==> ChunkOf(shard, max, chunk) == max
    ensures max * chunk < shard <= max * (chunk + 1) ==> ChunkOf(shard, max, chunk) == shard - max * chunk
    ensures shard <= max * chunk ==> ChunkOf(shard, max, chunk) == 1
  {
    Distributes(max, chunk, 1);
  }

  /** Every chunk holds between 1 and max tokens. */
  lemma ChunkInRange(shard: nat, max: nat, chunk: nat)
    requires max >= 1
    ensures 1 <= ChunkOf(shard, max, chunk) <= max
  {}

  function ChunkTotal(shard: int, max: nat, chunks: nat): int {
    if chunks == 0 then 0 else ChunkTotal(shard, max, chunks - 1) + ChunkOf(shard, max, chunks - 1)
  }

  /** The chunks before the last useful one are full. */
  lemma {:induction false} FullChunks(shard: nat, max: nat, chunks: nat)
    requires max >= 1 && max * chunks <= shard
    ensures ChunkTotal(shard, max, chunks) == max * chunks
  {
    if chunks > 0 {
      assert max * chunks == max * (chunks - 1) + max;
      FullChunks(shard, max, chunks - 1);
    }
  }

  /** The ceiling's worth of chunks covers the shard exactly. */
  lemma JustEnoughChunks(shard: nat, max: nat, c: nat)
    requires max >= 1 && c == CeilDiv(shard, max)
    ensures ChunkTotal(shard, max, c) == shard
  {
    CeilDivBounds(shard, max);
    if c > 0 {
      var full := max * (c - 1);
      assert c * max == full + max;
      FullChunks(shard, max, c - 1);
    }
  }

  /** Behind the last useful chunk every chunk is one dummy token. */
  lemma DummyChunk(shard: nat, max: nat, chunk: nat)
    requires max >= 1 && CeilDiv(shard, max) <= chunk
    ensures ChunkOf(shard, max, chunk) == 1
  {
    CeilDivBounds(shard, max);
    ProductAtMost(CeilDiv(shard, max), chunk, max);
    assert max * chunk == chunk * max;
  }

  /** Enough chunks cover the shard; the excess is one dummy token for every chunk too many. */
  lemma {:induction false} ChunksConserveTokens(shard: nat, max: nat, chunks: nat)
    requires max >= 1 && CeilDiv(shard, max) <= chunks
    ensures ChunkTotal(shard, max, chunks) == shard + (chunks - CeilDiv(shard, max))
    decreases chunks
  {
    if chunks == CeilDiv(shard, max) {
      JustEnoughChunks(shard, max, chunks);
    } else {
      CeilDivBounds(shard, max);
      ChunksConserveTokens(shard, max, chunks - 1);
      DummyChunk(shard, max, chunks - 1);
    }
  }

  // ---------- shards ----------

  lemma {:induction false} TotalConcat(a: seq<nat>, b: seq<nat>)
    ensures Total(a + b) == Total(a) + Total(b)
  {
    if b == [] {
      assert a + b == a;
    } else {
      assert (a + b)[..|a + b| - 1] == a + b[..|b| - 1];
      TotalConcat(a, b[..|b| - 1]);
    }
  }

  lemma {:induction false} TotalOfConstant(s: seq<nat>, x: nat)
    requires forall i :: 0 <= i < |s| ==> s[i] == x
    ensures Total(s) == |s| * x
  {
    if s != [] { TotalOfConstant(s[..|s| - 1], x); }
  }

  lemma RanksAreTogether(tokens: seq<nat>, sp: nat, i: nat)
    requires sp > 0 && i < |tokens|
    ensures 0 <= i * sp <= i * sp + sp == (i + 1) * sp <= |tokens| * sp == |ComputeSpNumTokens(tokens, sp)|
  {
    RepeatLength(CeilAll(tokens, sp), sp);
    OneMore(i, sp);
    ProductAtMost(i + 1, |tokens|, sp);
  }

  lemma ShardOfRank(tokens: seq<nat>, sp: nat, i: nat, lo: nat, j: nat)
    requires sp > 0 && i < |tokens| && lo == i * sp && lo <= j < lo + sp
    ensures j < |ComputeSpNumTokens(tokens, sp)| && ComputeSpNumTokens(tokens, sp)[j] == CeilDiv(tokens[i], sp)
  {
    RanksAreTogether(tokens, sp, i);
    DivIsLess(j, sp, i);
    DivIsLess(j, sp, i + 1);
    SpNumTokensAt(tokens, sp, j);
  }

  lemma RoundedShards(shards: seq<nat>, n: nat, sp: nat)
    requires sp > 0 && |shards| == sp && forall r :: 0 <= r < sp ==> shards[r] == CeilDiv(n, sp)
    ensures n <= Total(shards) <= n + sp - 1
  {
    TotalOfConstant(shards, CeilDiv(n, sp));
    CeilDivBounds(n, sp);
  }

  /** The shards of rank i together hold its tokens and fewer than sp tokens of padding. */
  lemma ShardsHoldTheTokens(tokens: seq<nat>, sp: nat, i: nat, lo: nat)
    requires sp > 0 && i < |tokens| && lo == i * sp
    ensures lo + sp <= |ComputeSpNumTokens(tokens, sp)|
    ensures var shards := ComputeSpNumTokens(tokens, sp)[lo..lo + sp];
            && (forall r :: 0 <= r < sp ==> shards[r] == CeilDiv(tokens[i], sp))
            && tokens[i] <= Total(shards) <= tokens[i] + sp - 1
  {
    RanksAreTogether(tokens, sp, i);
    var shards := ComputeSpNumTokens(tokens, sp)[lo..lo + sp];
    forall r | 0 <= r < sp ensures shards[r] == CeilDiv(tokens[i], sp) {
      ShardOfRank(tokens, sp, i, lo, lo + r);
    }
    RoundedShards(shards, tokens[i], sp);
  }

  function RunningTotals(s: seq<nat>): (c: seq<nat>)
    ensures |c| == |s| && forall i :: 0 <= i < |s| ==> c[i] == Total(s[..i + 1])
  {
    seq(|s|, i requires 0 <= i < |s| => Total(s[..i + 1]))
  }

  /** num_tokens - 1 + sp in cu_tokens_across_sp is the same rounding. */
  function CuTokensAcrossSp(tokens: seq<nat>, sp: nat): (c: seq<nat>)
    requires sp > 0
  {
    RunningTotals(RepeatInterleave(seq(|tokens|, i requires 0 <= i < |tokens| => (tokens[i] - 1 + sp) / sp), sp))
  }

  lemma {:induction false} RepeatPrefix(s: seq<nat>, times: nat, k: nat)
    requires k <= |s|
    ensures k * times <= |RepeatInterleave(s, times)|
    ensures RepeatInterleave(s, times)[..k * times] == RepeatInterleave(s[..k], times)
  {
    RepeatLength(s, times);
    RepeatLength(s[..k], times);
    if k < |s| {
      var n := |s| - 1;
      RepeatPrefix(s[..n], times, k);
      assert s[..n][..k] == s[..k];
      RepeatLength(s[..n], times);
      ProductAtMost(k, n, times);
      assert RepeatInterleave(s, times)[..k * times] == RepeatInterleave(s[..n], times)[..k * times];
    } else {
      assert s[..k] == s;
    }
  }

  lemma {:induction false} TotalOfRepeat(s: seq<nat>, times: nat)
    ensures Total(RepeatInterleave(s, times)) == times * Total(s)
  {
    if s != [] {
      var n := |s| - 1;
      TotalOfRepeat(s[..n], times);
      TotalConcat(RepeatInterleave(s[..n], times), seq(times, _ => s[n]));
      TotalOfConstant(seq(times, _ => s[n]), s[n]);
      Distributes(times, Total(s[..n]), s[n]);
    }
  }

  /** At the last shard of rank k the cumulative sum is sp times the rounded counts so far. */
  lemma CumulativeAtLastShard(tokens: seq<nat>, sp: nat, k: nat)
    requires sp > 0 && k < |tokens|
    ensures |CuTokensAcrossSp(tokens, sp)| == |tokens| * sp && 0 <= (k + 1) * sp - 1 < |tokens| * sp
    ensures CuTokensAcrossSp(tokens, sp)[(k + 1) * sp - 1] == sp * Total(CeilAll(tokens, sp)[..k + 1])
    ensures CuTokensAcrossSp(tokens, sp) == RunningTotals(ComputeSpNumTokens(tokens, sp))
    ensures forall j :: 0 <= j < |CuTokensAcrossSp(tokens, sp)| ==>
              CuTokensAcrossSp(tokens, sp)[j] == Total(ComputeSpNumTokens(tokens, sp)[..j + 1])
  {
    var ceils := CeilAll(tokens, sp);
    assert ceils == seq(|tokens|, i requires 0 <= i < |tokens| => (tokens[i] - 1 + sp) / sp);
    RepeatLength(ceils, sp);
    ProductAtMost(k + 1, |tokens|, sp);
    ProductAtMost(1, k + 1, sp);
    RepeatPrefix(ceils, sp, k + 1);
    TotalOfRepeat(ceils[..k + 1], sp);
  }
}
