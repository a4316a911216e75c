/**
  The chunk sizes of the ROCm branch of csrc/cumem_allocator.cpp, in 64-bit unsigned arithmetic.
 */
module ChunkSizing {
  import opened Arithmetic
  const WORD := 0x1_0000_0000_0000_0000
  const MB := 0x10_0000
  const DEFAULT_MEMCREATE_CHUNK_SIZE := 256 * MB

  function Wrap(x: int): nat { x % WORD }

  /** What strtoull makes of the environment variable, if it is set. */
  datatype Setting = Unset | Unparsable | Megabytes(value: nat)

  function GetMemcreateChunkSize(env: Setting): (r: nat)
    ensures 0 < r < WORD
    ensures r == (if env.Megabytes? && 0 < env.value * MB < WORD then env.value * MB else DEFAULT_MEMCREATE_CHUNK_SIZE)
  {
    if !env.Megabytes? || env.value == 0 then DEFAULT_MEMCREATE_CHUNK_SIZE
    else if env.value > (WORD - 1) / MB then DEFAULT_MEMCREATE_CHUNK_SIZE
    else Wrap(env.value * MB)
  }

  /** ((x + granularity - 1) / granularity) * granularity on size_t. */
  function AlignUp(x: nat, granularity: nat): nat
    requires granularity > 0
  {
    Wrap(Wrap(x + granularity - 1) / granularity * granularity)
  }

  function NumChunks(alignedSize: nat, chunk: nat): nat
    requires chunk > 0
  {
    Wrap(alignedSize + chunk - 1) / chunk
  }

  function ChunkSize(alignedSize: nat, chunk: nat, i: nat): nat {
    var rest := Wrap(alignedSize - i * chunk);
    if rest < chunk then rest else chunk
  }

  // ---------- division ----------

  lemma WrapSmall(x: int)
    requires 0 <= x < WORD
    ensures Wrap(x) == x
  {}

  lemma DivZero(a: nat, b: nat)
    requires a < b
    ensures a / b == 0
  {}

  ghost predicate IsMultiple(x: nat, g: nat) { exists q: nat :: x == q * g }

  // ---------- alignment ----------

  /** Rounding up finds the least multiple, exactly when the addition does not wrap around. */
  lemma AlignUpIff(x: nat, granularity: nat)
    requires 0 < granularity < WORD && x < WORD
    ensures x <= AlignUp(x, granularity) <==> x + granularity - 1 < WORD
    ensures x + granularity - 1 < WORD ==> AlignUp(x, granularity) < x + granularity
    ensures IsMultiple(AlignUp(x, granularity), granularity) && AlignUp(x, granularity) < WORD
  {
    if x + granularity - 1 < WORD {
      var up := (x + granularity - 1) / granularity * granularity;
      DivBounds(x + granularity - 1, granularity);
      WrapSmall(x + granularity - 1);
      WrapSmall(up);
      assert AlignUp(x, granularity) == up;
    } else {
      var w := x + granularity - 1 - WORD;
      assert Wrap(x + granularity - 1) == w;
      DivZero(w, granularity);
      assert AlignUp(x, granularity) == 0 * granularity;
    }
  }

  /** The aligned chunk size is zero, and the next division fails, exactly when the addition wraps. */
  lemma AlignedChunkIsPositiveIff(base: nat, granularity: nat)
    requires 0 < granularity < WORD && 0 < base < WORD
    ensures AlignUp(base, granularity) > 0 <==> base + granularity - 1 < WORD
  {
    AlignUpIff(base, granularity);
    if base + granularity - 1 >= WORD {
      DivZero(base + granularity - 1 - WORD, granularity);
      assert Wrap(base + granularity - 1) == base + granularity - 1 - WORD;
    }
  }

  // ---------- the chunks ----------

  function ChunkSizes(alignedSize: nat, chunk: nat): (s: seq<nat>)
    requires chunk > 0
    ensures |s| == NumChunks(alignedSize, chunk)
    ensures forall i :: 0 <= i < |s| ==> s[i] == ChunkSize(alignedSize, chunk, i)
  {
    seq(NumChunks(alignedSize, chunk), i requires 0 <= i => ChunkSize(alignedSize, chunk, i))
  }

  /** chunk_sizes, filled front to back. */
  method FillChunkSizes(alignedSize: nat, chunk: nat) returns (chunkSizes: array<nat>)
    requires chunk > 0
    ensures fresh(chunkSizes) && chunkSizes[..] == ChunkSizes(alignedSize, chunk)
  {
    var n := NumChunks(alignedSize, chunk);
    chunkSizes := new nat[n];
    var i := 0;
    while i < n
      invariant i <= n
      invariant forall j :: 0 <= j < i ==> chunkSizes[j] == ChunkSize(alignedSize, chunk, j)
    {
      chunkSizes[i] := ChunkSize(alignedSize, chunk, i);
      i := i + 1;
    }
  }

  /** Without wrap-around the number of chunks is the ceiling. */
  lemma NumChunksBounds(alignedSize: nat, chunk: nat)
    requires chunk > 0 && alignedSize + chunk - 1 < WORD
    ensures var n := NumChunks(alignedSize, chunk);
            alignedSize <= n * chunk < alignedSize + chunk && (n == 0 <==> alignedSize == 0)
  {
    DivBounds(alignedSize + chunk - 1, chunk);
    if alignedSize == 0 { DivZero(chunk - 1, chunk); }
  }

  lemma ChunkStart(alignedSize: nat, chunk: nat, i: nat)
    requires chunk > 0 && alignedSize + chunk - 1 < WORD && i < NumChunks(alignedSize, chunk)
    ensures i * chunk < alignedSize
    ensures i + 1 < NumChunks(alignedSize, chunk) ==> (i + 1) * chunk <= alignedSize
  {
    var n := NumChunks(alignedSize, chunk);
    NumChunksBounds(alignedSize, chunk);
    OneMore(n, chunk);
    ProductAtMost(i, n - 1, chunk);
    if i + 1 < n { ProductAtMost(i + 1, n - 1, chunk); }
  }

  /** All chunks are full but the last, which holds the rest. */
  lemma ChunkSizeIs(alignedSize: nat, chunk: nat, i: nat)
    requires chunk > 0 && alignedSize + chunk - 1 < WORD && i < NumChunks(alignedSize, chunk)
    ensures i * chunk < alignedSize
    ensures ChunkSize(alignedSize, chunk, i) ==
      if (i + 1) * chunk <= alignedSize then chunk else alignedSize - i * chunk
    ensures i + 1 < NumChunks(alignedSize, chunk) ==> (i + 1) * chunk <= alignedSize
  {
    ChunkStart(alignedSize, chunk, i);
    OneMore(i, chunk);
    WrapSmall(alignedSize - i * chunk);
  }

  lemma {:induction false} FirstChunksTotal(alignedSize: nat, chunk: nat, k: nat)
    requires chunk > 0 && alignedSize + chunk - 1 < WORD && k <= NumChunks(alignedSize, chunk)
    ensures Total(ChunkSizes(alignedSize, chunk)[..k])
         == if k == NumChunks(alignedSize, chunk) then alignedSize else k * chunk
  {
    var sizes := ChunkSizes(alignedSize, chunk);
    if k == 0 {
      NumChunksBounds(alignedSize, chunk);
    } else {
      FirstChunksTotal(alignedSize, chunk, k - 1);
      assert sizes[..k][..k - 1] == sizes[..k - 1];
      ChunkSizeIs(alignedSize, chunk, k - 1);
      OneMore(k, chunk);
      NumChunksBounds(alignedSize, chunk);
    }
  }

  lemma MultipleDifference(a: nat, b: nat, g: nat)
    requires g > 0 && b <= a && IsMultiple(a, g) && IsMultiple(b, g)
    ensures IsMultiple(a - b, g)
  {
    var p: nat :| a == p * g;
    var q: nat :| b == q * g;
    if p < q { ProductLess(p, q, g); }
    assert a - b == (p - q) * g;
  }

  lemma MultipleProduct(i: nat, c: nat, g: nat)
    requires IsMultiple(c, g)
    ensures IsMultiple(i * c, g)
  {
    var q: nat :| c == q * g;
    assert i * c == (i * q) * g;
  }

  /** Every chunk is a positive multiple of the granularity. */
  lemma ChunksAreMultiples(alignedSize: nat, chunk: nat, granularity: nat, i: nat)
    requires chunk > 0 && granularity > 0 && alignedSize + chunk - 1 < WORD && i < NumChunks(alignedSize, chunk)
    requires IsMultiple(alignedSize, granularity) && IsMultiple(chunk, granularity)
    ensures ChunkSize(alignedSize, chunk, i) > 0 && IsMultiple(ChunkSize(alignedSize, chunk, i), granularity)
  {
    ChunkSizeIs(alignedSize, chunk, i);
    MultipleProduct(i, chunk, granularity);
    MultipleDifference(alignedSize, i * chunk, granularity);
  }

  /** The chunks add up to the aligned size exactly when the rounding of their number does not wrap. */
  lemma ChunksCoverIff(alignedSize: nat, chunk: nat)
    requires 0 < chunk < WORD && alignedSize < WORD
    ensures Total(ChunkSizes(alignedSize, chunk)) == alignedSize <==> alignedSize + chunk - 1 < WORD
  {
    var sizes := ChunkSizes(alignedSize, chunk);
    if alignedSize + chunk - 1 < WORD {
      FirstChunksTotal(alignedSize, chunk, |sizes|);
      assert sizes[..|sizes|] == sizes;
    } else {
      assert Wrap(alignedSize + chunk - 1) == alignedSize + chunk - 1 - WORD;
      DivZero(alignedSize + chunk - 1 - WORD, chunk);
      assert sizes == [];
    }
  }

  /** A granularity of 2 MB and the setting 2^44 - 2: for 4 MB the number of chunks wraps to 0. */
  lemma LargeChunkCoversNothing()
    ensures var chunk := AlignUp(GetMemcreateChunkSize(Megabytes(WORD / MB - 2)), 2 * MB);
            && chunk == WORD - 2 * MB && AlignUp(4 * MB, 2 * MB) == 4 * MB
            && ChunkSizes(4 * MB, chunk) == [] && Total(ChunkSizes(4 * MB, chunk)) == 0
  {
    var chunk := WORD - 2 * MB;
    assert GetMemcreateChunkSize(Megabytes(WORD / MB - 2)) == chunk && AlignUp(chunk, 2 * MB) == chunk;
    assert Wrap(4 * MB + chunk - 1) == 2 * MB - 1;
    DivZero(2 * MB - 1, chunk);
    assert NumChunks(4 * MB, chunk) == 0;
  }

  /** A granularity of 2 MB and the largest setting: the chunk size wraps to nothing. */
  lemma LargestSettingWraps()
    ensures AlignUp(GetMemcreateChunkSize(Megabytes((WORD - 1) / MB)), 2 * MB) == 0
  {}
}
