/**
  The ROCm branches of create_and_map and unmap_and_release in csrc/cumem_allocator.cpp, over a
  device driver whose calls may fail.
 */
module ChunkedMapping {
  import opened Arithmetic
  import opened ChunkSizing

  type Handle = nat

  /** A mapped range of device memory: its size and the physical memory behind it. */
  datatype Mapping = Mapping(size: nat, handle: Handle)

  /** No mapping shares an address with [addr, addr + size). */
  ghost predicate RangeIsFree(mappings: map<int, Mapping>, addr: int, size: nat) {
    forall a :: a in mappings ==> a + mappings[a].size <= addr || addr + size <= a
  }

  /** The answer to a call: the scripted one, or success past the end of the script. */
  function StatusOf(faults: seq<int>, call: nat): int { if call < |faults| then faults[call] else 0 }

  /** Status 0 is success. The driver answers from two scripts, one for create, map and access, one for cleanup. */
  class Driver {
    var live: set<Handle>
    var nextHandle: Handle
    var mappings: map<int, Mapping>
    /** The ranges that read and write access was granted for, in order. */
    var accessGrants: seq<(int, nat)>
    var errorCode: int
    var creationFaults: seq<int>
    var creationCalls: nat
    var cleanupFaults: seq<int>
    var cleanupCalls: nat

    ghost predicate Valid()
      reads this
    {
      && (forall h :: h in live ==> h < nextHandle)
      && forall a :: a in mappings ==> mappings[a].size > 0
    }

    method NextCreationStatus() returns (status: int)
      modifies this`creationCalls
      ensures status == StatusOf(creationFaults, old(creationCalls)) && creationCalls == old(creationCalls) + 1
    {
      status := StatusOf(creationFaults, creationCalls);
      creationCalls := creationCalls + 1;
    }

    /** cuMemCreate */
    method MemCreate(size: nat) returns (status: int, handle: Handle)
      requires Valid() && size > 0
      modifies this`creationCalls, this`live, this`nextHandle
      ensures Valid()
      ensures status == StatusOf(creationFaults, old(creationCalls)) && creationCalls == old(creationCalls) + 1
      ensures status == 0 ==> handle == old(nextHandle) && nextHandle == handle + 1 && live == old(live) + {handle}
      ensures status != 0 ==> live == old(live) && nextHandle == old(nextHandle)
    {
      status := NextCreationStatus();
      handle := 0;
      if status == 0 {
        handle := nextHandle;
        live := live + {handle};
        nextHandle := nextHandle + 1;
      }
    }

    /** cuMemMap: the handle must be live, and the range free. */
    method MemMap(addr: int, size: nat, handle: Handle) returns (status: int)
      requires Valid() && handle in live && size > 0 && RangeIsFree(mappings, addr, size)
      modifies this`creationCalls, this`mappings
      ensures Valid()
      ensures status == StatusOf(creationFaults, old(creationCalls)) && creationCalls == old(creationCalls) + 1
      ensures mappings == if status == 0 then old(mappings)[addr := Mapping(size, handle)] else old(mappings)
    {
      status := NextCreationStatus();
      if status == 0 { mappings := mappings[addr := Mapping(size, handle)]; }
    }

    /** cuMemSetAccess */
    method MemSetAccess(addr: int, size: nat) returns (status: int)
      modifies this`creationCalls, this`accessGrants
      ensures status == StatusOf(creationFaults, old(creationCalls)) && creationCalls == old(creationCalls) + 1
      ensures accessGrants == if status == 0 then old(accessGrants) + [(addr, size)] else old(accessGrants)
    {
      status := NextCreationStatus();
      if status == 0 { accessGrants := accessGrants + [(addr, size)]; }
    }

    /** cuMemUnmap of exactly one mapped range. */
    method MemUnmap(addr: int, size: nat) returns (status: int)
      requires Valid() && addr in mappings && mappings[addr].size == size
      modifies this`cleanupCalls, this`mappings
      ensures Valid()
      ensures status == StatusOf(cleanupFaults, old(cleanupCalls)) && cleanupCalls == old(cleanupCalls) + 1
      ensures mappings == if status == 0 then old(mappings) - {addr} else old(mappings)
    {
      status := StatusOf(cleanupFaults, cleanupCalls);
      cleanupCalls := cleanupCalls + 1;
      if status == 0 { mappings := mappings - {addr}; }
    }

    /** cuMemRelease of a live handle. */
    method MemRelease(handle: Handle) returns (status: int)
      requires Valid() && handle in live
      modifies this`cleanupCalls, this`live
      ensures Valid()
      ensures status == StatusOf(cleanupFaults, old(cleanupCalls)) && cleanupCalls == old(cleanupCalls) + 1
      ensures live == if status == 0 then old(live) - {handle} else old(live)
    {
      status := StatusOf(cleanupFaults, cleanupCalls);
      cleanupCalls := cleanupCalls + 1;
      if status == 0 { live := live - {handle}; }
    }
  }

  // ---------- the layout of the chunks ----------

  ghost predicate Positive(sizes: seq<nat>) { forall i :: 0 <= i < |sizes| ==> sizes[i] > 0 }

  function Offset(sizes: seq<nat>, i: nat): nat
    requires i <= |sizes|
  {
    Total(sizes[..i])
  }

  lemma OffsetStep(sizes: seq<nat>, i: nat)
    requires i < |sizes|
    ensures Offset(sizes, i + 1) == Offset(sizes, i) + sizes[i]
  {
    assert sizes[..i + 1][..i] == sizes[..i];
  }

  lemma {:induction false} OffsetsGrow(sizes: seq<nat>, i: nat, j: nat)
    requires i <= j <= |sizes|
    ensures Offset(sizes, i) <= Offset(sizes, j)
    ensures i < j ==> Offset(sizes, i) + sizes[i] <= Offset(sizes, j)
    decreases j - i
  {
    if i < j {
      OffsetStep(sizes, j - 1);
      OffsetsGrow(sizes, i, j - 1);
    }
  }

  /** The mappings of chunks lo up to hi, chunk j on handle first + j. */
  function Chunks(base: int, sizes: seq<nat>, first: Handle, lo: nat, hi: nat): map<int, Mapping>
    requires lo <= hi <= |sizes|
    decreases hi - lo
  {
    if lo == hi then map[]
    else Chunks(base, sizes, first, lo, hi - 1)[base + Offset(sizes, hi - 1) := Mapping(sizes[hi - 1], first + hi - 1)]
  }

  /** The handles of chunks lo up to hi. */
  function Handles(first: Handle, lo: nat, hi: nat): (s: set<Handle>)
    requires lo <= hi
    ensures forall h :: h in s <==> first + lo <= h < first + hi
    decreases hi - lo
  {
    if lo == hi then {} else Handles(first, lo, hi - 1) + {first + hi - 1}
  }

  lemma {:induction false} ChunksHold(base: int, sizes: seq<nat>, first: Handle, lo: nat, hi: nat, a: int)
    requires lo <= hi <= |sizes| && Positive(sizes) && a in Chunks(base, sizes, first, lo, hi)
    ensures base + Offset(sizes, lo) <= a
    ensures a + Chunks(base, sizes, first, lo, hi)[a].size <= base + Offset(sizes, hi)
    ensures Chunks(base, sizes, first, lo, hi)[a].size > 0
    ensures lo < hi && (a == base + Offset(sizes, lo) || base + Offset(sizes, lo + 1) <= a)
    decreases hi - lo
  {
    OffsetStep(sizes, hi - 1);
    OffsetsGrow(sizes, lo, hi - 1);
    if lo < hi - 1 { OffsetsGrow(sizes, lo + 1, hi - 1); }
    if a != base + Offset(sizes, hi - 1) { ChunksHold(base, sizes, first, lo, hi - 1, a); }
  }

  lemma {:induction false} FirstChunk(base: int, sizes: seq<nat>, first: Handle, lo: nat, hi: nat)
    requires lo < hi <= |sizes| && Positive(sizes)
    ensures var a := base + Offset(sizes, lo);
            && a in Chunks(base, sizes, first, lo, hi)
            && Chunks(base, sizes, first, lo, hi)[a] == Mapping(sizes[lo], first + lo)
            && Chunks(base, sizes, first, lo, hi) - {a} == Chunks(base, sizes, first, lo + 1, hi)
    decreases hi - lo
  {
    if lo < hi - 1 {
      FirstChunk(base, sizes, first, lo, hi - 1);
      OffsetsGrow(sizes, lo, hi - 1);
    }
  }

  lemma OneChunkMore(base: int, sizes: seq<nat>, first: Handle, lo: nat, hi: nat)
    requires lo < hi <= |sizes| && Positive(sizes)
    ensures |Chunks(base, sizes, first, lo, hi)| == |Chunks(base, sizes, first, lo, hi - 1)| + 1
  {
    var front, a := Chunks(base, sizes, first, lo, hi - 1), base + Offset(sizes, hi - 1);
    if a in front { ChunksHold(base, sizes, first, lo, hi - 1, a); }
    assert front[a := Mapping(sizes[hi - 1], first + hi - 1)].Keys == front.Keys + {a};
  }

  /** Chunk j is mapped at its offset on its own handle, and nothing else is. */
  lemma {:induction false} ChunksAre(base: int, sizes: seq<nat>, first: Handle, lo: nat, hi: nat, j: nat)
    requires lo <= j < hi <= |sizes| && Positive(sizes)
    ensures var chunks, a := Chunks(base, sizes, first, lo, hi), base + Offset(sizes, j);
            a in chunks && chunks[a] == Mapping(sizes[j], first + j)
    ensures |Chunks(base, sizes, first, lo, hi)| == hi - lo
    decreases hi - lo
  {
    if j < hi - 1 {
      ChunksAre(base, sizes, first, lo, hi - 1, j);
      OffsetsGrow(sizes, j, hi - 1);
    } else if lo < hi - 1 {
      ChunksAre(base, sizes, first, lo, hi - 1, lo);
    }
    OneChunkMore(base, sizes, first, lo, hi);
  }

  /** The chunks tile the reservation: neighbours touch, the ends meet the bounds. */
  lemma ChunksTile(base: int, sizes: seq<nat>, i: nat, j: nat)
    requires Positive(sizes) && i < j < |sizes|
    ensures base + Offset(sizes, i) + sizes[i] <= base + Offset(sizes, j)
    ensures j == i + 1 ==> base + Offset(sizes, i) + sizes[i] == base + Offset(sizes, j)
    ensures Offset(sizes, 0) == 0 && Offset(sizes, |sizes| - 1) + sizes[|sizes| - 1] == Total(sizes)
  {
    OffsetsGrow(sizes, i, j);
    OffsetStep(sizes, i);
    OffsetStep(sizes, |sizes| - 1);
    assert sizes[..|sizes|] == sizes;
  }

  ghost predicate PositiveMappings(mappings: map<int, Mapping>) { forall a :: a in mappings ==> mappings[a].size > 0 }

  /** The whole range that the chunks will occupy is unmapped. */
  ghost predicate CanHold(mappings: map<int, Mapping>, base: int, sizes: seq<nat>) {
    Positive(sizes) && PositiveMappings(mappings) && RangeIsFree(mappings, base, Total(sizes))
  }

  /** The chunks that my_malloc computes are non-empty and fill the reserved range, when nothing wraps. */
  lemma ReservationIsFilled(mappings: map<int, Mapping>, base: int, alignedSize: nat, chunk: nat)
    requires 0 < chunk < WORD && alignedSize + chunk - 1 < WORD && PositiveMappings(mappings)
    ensures CanHold(mappings, base, ChunkSizes(alignedSize, chunk)) <==> RangeIsFree(mappings, base, alignedSize)
  {
    ChunksCoverIff(alignedSize, chunk);
    forall i | 0 <= i < NumChunks(alignedSize, chunk) ensures ChunkSize(alignedSize, chunk, i) > 0 {
      ChunkSizeIs(alignedSize, chunk, i);
    }
  }

  // ---------- cleaning up, whatever the driver answers ----------

  /** Of the chunks 0 up to n, those whose unmap (cleanup call number call + j) failed. */
  function StuckChunks(base: int, sizes: seq<nat>, first: Handle, faults: seq<int>, call: nat,
                       n: nat): map<int, Mapping>
    requires n <= |sizes|
  {
    if n == 0 then map[]
    else
      var stuck := StuckChunks(base, sizes, first, faults, call, n - 1);
      if StatusOf(faults, call + n - 1) == 0 then stuck
      else stuck[base + Offset(sizes, n - 1) := Mapping(sizes[n - 1], first + n - 1)]
  }

  /** Of the handles 0 up to n, those whose release failed. */
  function StuckHandles(first: Handle, faults: seq<int>, call: nat, n: nat): set<Handle> {
    if n == 0 then {}
    else
      StuckHandles(first, faults, call, n - 1)
      + if StatusOf(faults, call + n - 1) == 0 then {} else {first + n - 1}
  }

  /** The first non-zero status among n cleanup calls, or 0. */
  function FirstError(faults: seq<int>, call: nat, n: nat): int {
    if n == 0 then 0
    else
      var e := FirstError(faults, call, n - 1);
      if e != 0 then e else StatusOf(faults, call + n - 1)
  }

  /** None of the n calls from number call on fails. */
  ghost predicate AllSucceed(faults: seq<int>, call: nat, n: nat) {
    forall c :: call <= c < call + n ==> StatusOf(faults, c) == 0
  }

  /** Of the calls from number call on, the one f calls later is the first that fails. */
  ghost predicate FirstFaultAt(faults: seq<int>, call: nat, f: nat) {
    AllSucceed(faults, call, f) && StatusOf(faults, call + f) != 0
  }

  lemma FirstFaultIsOne(faults: seq<int>, call: nat, f: nat, g: nat)
    requires FirstFaultAt(faults, call, f) && FirstFaultAt(faults, call, g)
    ensures f == g
  {}

  lemma OnlyFault(faults: seq<int>, call: nat, f: nat, n: nat)
    requires f < n && FirstFaultAt(faults, call, f)
    ensures !AllSucceed(faults, call, n)
    ensures forall g: nat :: FirstFaultAt(faults, call, g) ==> g == f
  {
    forall g: nat | FirstFaultAt(faults, call, g) ensures g == f { FirstFaultIsOne(faults, call, f, g); }
  }

  lemma NoFault(faults: seq<int>, call: nat, n: nat)
    requires AllSucceed(faults, call, n)
    ensures forall g: nat :: g < n ==> !FirstFaultAt(faults, call, g)
  {}

  lemma AllSucceedSplit(faults: seq<int>, call: nat, m: nat, n: nat)
    ensures AllSucceed(faults, call, m + n) <==> AllSucceed(faults, call, m) && AllSucceed(faults, call + m, n)
  {}

  lemma AllSucceedStep(faults: seq<int>, call: nat, n: nat)
    ensures AllSucceed(faults, call, n + 1) <==> AllSucceed(faults, call, n) && StatusOf(faults, call + n) == 0
  {}

  lemma {:induction false} NothingIsStuckIff(base: int, sizes: seq<nat>, first: Handle, faults: seq<int>, call: nat,
                                             n: nat)
    requires n <= |sizes|
    ensures StuckChunks(base, sizes, first, faults, call, n) == map[] <==> AllSucceed(faults, call, n)
  {
    if n > 0 {
      NothingIsStuckIff(base, sizes, first, faults, call, n - 1);
      AllSucceedStep(faults, call, n - 1);
      if StatusOf(faults, call + n - 1) != 0 {
        assert base + Offset(sizes, n - 1) in StuckChunks(base, sizes, first, faults, call, n);
      }
    }
  }

  lemma {:induction false} NoHandleIsStuckIff(first: Handle, faults: seq<int>, call: nat, n: nat)
    ensures StuckHandles(first, faults, call, n) == {} <==> AllSucceed(faults, call, n)
  {
    if n > 0 {
      NoHandleIsStuckIff(first, faults, call, n - 1);
      AllSucceedStep(faults, call, n - 1);
      if StatusOf(faults, call + n - 1) != 0 { assert first + n - 1 in StuckHandles(first, faults, call, n); }
    }
  }

  lemma {:induction false} NoErrorIff(faults: seq<int>, call: nat, n: nat)
    ensures FirstError(faults, call, n) == 0 <==> AllSucceed(faults, call, n)
  {
    if n > 0 {
      NoErrorIff(faults, call, n - 1);
      AllSucceedStep(faults, call, n - 1);
    }
  }

  /** The error is the answer of the first call that fails. */
  lemma {:induction false} FirstErrorIs(faults: seq<int>, call: nat, n: nat, f: nat)
    requires f < n && FirstFaultAt(faults, call, f)
    ensures FirstError(faults, call, n) == StatusOf(faults, call + f)
  {
    if f < n - 1 {
      FirstErrorIs(faults, call, n - 1, f);
    } else {
      NoErrorIff(faults, call, n - 1);
    }
  }

  /** The stuck handles are those whose own release failed. */
  lemma {:induction false} StuckHandlesAre(first: Handle, faults: seq<int>, call: nat, n: nat, h: Handle)
    ensures h in StuckHandles(first, faults, call, n)
       <==> first <= h < first + n && StatusOf(faults, call + (h - first)) != 0
  {
    if n > 0 { StuckHandlesAre(first, faults, call, n - 1, h); }
  }

  /** The stuck chunks are those whose own unmap failed, as they were mapped. */
  lemma {:induction false} StuckChunksAre(base: int, sizes: seq<nat>, first: Handle, faults: seq<int>, call: nat,
                                          n: nat, j: nat)
    requires j < |sizes| && n <= |sizes| && Positive(sizes)
    ensures var stuck, a := StuckChunks(base, sizes, first, faults, call, n), base + Offset(sizes, j);
            && (a in stuck <==> j < n && StatusOf(faults, call + j) != 0)
            && (a in stuck ==> stuck[a] == Mapping(sizes[j], first + j))
  {
    if n > 0 {
      StuckChunksAre(base, sizes, first, faults, call, n - 1, j);
      if j < n - 1 { OffsetsGrow(sizes, j, n - 1); } else if n - 1 < j { OffsetsGrow(sizes, n - 1, j); }
    }
  }

  /** Nothing else is stuck. */
  lemma {:induction false} StuckAreChunks(base: int, sizes: seq<nat>, first: Handle, faults: seq<int>, call: nat,
                                          n: nat, a: int)
    requires n <= |sizes| && a in StuckChunks(base, sizes, first, faults, call, n)
    ensures exists j :: 0 <= j < n && a == base + Offset(sizes, j)
  {
    if a != base + Offset(sizes, n - 1) { StuckAreChunks(base, sizes, first, faults, call, n - 1, a); }
  }

  lemma {:induction false} StuckBelow(base: int, sizes: seq<nat>, first: Handle, faults: seq<int>, call: nat, n: nat,
                                      a: int)
    requires n <= |sizes| && Positive(sizes) && a in StuckChunks(base, sizes, first, faults, call, n)
    ensures a < base + Offset(sizes, n)
  {
    OffsetStep(sizes, n - 1);
    if a != base + Offset(sizes, n - 1) { StuckBelow(base, sizes, first, faults, call, n - 1, a); }
  }

  lemma {:induction false} StuckHandlesBelow(first: Handle, faults: seq<int>, call: nat, n: nat)
    ensures forall h :: h in StuckHandles(first, faults, call, n) ==> first <= h < first + n
  {
    if n > 0 { StuckHandlesBelow(first, faults, call, n - 1); }
  }

  /** The mappings once the unmap of chunks 0 up to j has been tried. */
  function Unmapping(before: map<int, Mapping>, base: int, sizes: seq<nat>, first: Handle, faults: seq<int>, call: nat,
                     j: nat, n: nat): map<int, Mapping>
    requires j <= n <= |sizes|
  {
    before + StuckChunks(base, sizes, first, faults, call, j) + Chunks(base, sizes, first, j, n)
  }

  lemma UnmappingEnds(before: map<int, Mapping>, base: int, sizes: seq<nat>, first: Handle, faults: seq<int>, call: nat,
                      n: nat)
    requires n <= |sizes|
    ensures Unmapping(before, base, sizes, first, faults, call, 0, n) == before + Chunks(base, sizes, first, 0, n)
    ensures Unmapping(before, base, sizes, first, faults, call, n, n)
            == before + StuckChunks(base, sizes, first, faults, call, n)
  {}

  lemma ForeignAddress(before: map<int, Mapping>, base: int, sizes: seq<nat>, j: nat)
    requires CanHold(before, base, sizes) && j < |sizes|
    ensures base + Offset(sizes, j) !in before
  {
    var a := base + Offset(sizes, j);
    OffsetsGrow(sizes, j, |sizes|);
    OffsetsGrow(sizes, 0, j);
    assert sizes[..|sizes|] == sizes;
    forall x | x in before ensures x != a {
      assert before[x].size > 0 && (x + before[x].size <= base || base + Total(sizes) <= x);
    }
  }

  lemma {:induction false} StuckIsForeign(before: map<int, Mapping>, base: int, sizes: seq<nat>, first: Handle,
                                          faults: seq<int>, call: nat, n: nat, a: int)
    requires CanHold(before, base, sizes) && n <= |sizes| && a in StuckChunks(base, sizes, first, faults, call, n)
    ensures a !in before
  {
    ForeignAddress(before, base, sizes, n - 1);
    if a != base + Offset(sizes, n - 1) { StuckIsForeign(before, base, sizes, first, faults, call, n - 1, a); }
  }

  /** What n failed or successful unmaps and m releases leave behind. */
  ghost predicate Leaves(driver: Driver, before: map<int, Mapping>, live: set<Handle>, base: int, sizes: seq<nat>,
                         first: Handle, call: nat, n: nat, m: nat)
    requires n <= |sizes|
    reads driver
  {
    && driver.mappings == before + StuckChunks(base, sizes, first, driver.cleanupFaults, call, n)
    && driver.live == live + StuckHandles(first, driver.cleanupFaults, call + n, m)
    && driver.cleanupCalls == call + n + m
  }

  lemma SumIsUnchangedIff<K, V>(a: map<K, V>, b: map<K, V>)
    requires forall k :: k in b ==> k !in a
    ensures a + b == a <==> b == map[]
  {
    if b != map[] {
      var k :| k in b;
      assert k in a + b;
    }
  }

  lemma UnionIsUnchangedIff<T>(a: set<T>, b: set<T>)
    requires a !! b
    ensures a + b == a <==> b == {}
  {
    if b != {} {
      var x :| x in b;
      assert x in a + b;
    }
  }

  /** Nothing is left behind exactly when none of the cleanup calls fails. */
  lemma NothingIsLeftIff(driver: Driver, before: map<int, Mapping>, live: set<Handle>, base: int, sizes: seq<nat>,
                         first: Handle, call: nat, n: nat, m: nat)
    requires n <= |sizes| && CanHold(before, base, sizes) && forall h :: h in live ==> h < first
    requires Leaves(driver, before, live, base, sizes, first, call, n, m)
    ensures driver.mappings == before && driver.live == live <==> AllSucceed(driver.cleanupFaults, call, n + m)
  {
    var faults := driver.cleanupFaults;
    var stuck := StuckChunks(base, sizes, first, faults, call, n);
    NothingIsStuckIff(base, sizes, first, faults, call, n);
    NoHandleIsStuckIff(first, faults, call + n, m);
    StuckHandlesBelow(first, faults, call + n, m);
    forall a | a in stuck ensures a !in before { StuckIsForeign(before, base, sizes, first, faults, call, n, a); }
    SumIsUnchangedIff(before, stuck);
    assert AllSucceed(faults, call, n + m) <==> AllSucceed(faults, call, n) && AllSucceed(faults, call + n, m);
    UnionIsUnchangedIff(live, StuckHandles(first, faults, call + n, m));
  }

  lemma RemoveUpdated<K, V>(a: map<K, V>, b: map<K, V>, c: map<K, V>, k: K, v: V)
    requires k !in a && k !in b && k !in c
    ensures (a + b + c[k := v]) - {k} == a + b + c
    ensures a + b[k := v] + c == a + b + c[k := v]
    ensures k in a + b + c[k := v] && (a + b + c[k := v])[k] == v
  {}

  lemma UpdateSum<K, V>(a: map<K, V>, b: map<K, V>, k: K, v: V)
    ensures (a + b)[k := v] == a + b[k := v]
  {}

  lemma UnmapStep(before: map<int, Mapping>, base: int, sizes: seq<nat>, first: Handle, faults: seq<int>, call: nat,
                  j: nat, n: nat)
    requires CanHold(before, base, sizes) && j < n <= |sizes|
    ensures var a, m := base + Offset(sizes, j), Unmapping(before, base, sizes, first, faults, call, j, n);
            && a in m && m[a] == Mapping(sizes[j], first + j)
            && Unmapping(before, base, sizes, first, faults, call, j + 1, n)
               == if StatusOf(faults, call + j) == 0 then m - {a} else m
  {
    var a, x := base + Offset(sizes, j), Mapping(sizes[j], first + j);
    var stuck, rest := StuckChunks(base, sizes, first, faults, call, j), Chunks(base, sizes, first, j + 1, n);
    ForeignAddress(before, base, sizes, j);
    FirstChunk(base, sizes, first, j, n);
    if a in stuck { StuckBelow(base, sizes, first, faults, call, j, a); }
    assert Chunks(base, sizes, first, j, n) == rest[a := x];
    RemoveUpdated(before, stuck, rest, a, x);
  }

  /** One unmap, whatever the driver answers. */
  method UnmapOne(driver: Driver, base: int, sizes: seq<nat>, ghost first: Handle, ghost call: nat, j: nat,
                  ghost n: nat, offset: nat, ghost before: map<int, Mapping>)
    returns (status: int)
    requires driver.Valid() && CanHold(before, base, sizes) && j < n <= |sizes| && offset == Offset(sizes, j)
    requires driver.mappings == Unmapping(before, base, sizes, first, driver.cleanupFaults, call, j, n)
    requires driver.cleanupCalls == call + j
    modifies driver`mappings, driver`cleanupCalls
    ensures driver.Valid() && driver.cleanupCalls == call + j + 1 && status == StatusOf(driver.cleanupFaults, call + j)
    ensures driver.mappings == Unmapping(before, base, sizes, first, driver.cleanupFaults, call, j + 1, n)
  {
    UnmapStep(before, base, sizes, first, driver.cleanupFaults, call, j, n);
    status := driver.MemUnmap(base + offset, sizes[j]);
  }

  method UnmapFirst(driver: Driver, base: int, sizes: seq<nat>, ghost first: Handle, n: nat,
                    ghost before: map<int, Mapping>)
    returns (firstError: int)
    requires driver.Valid() && CanHold(before, base, sizes) && n <= |sizes|
    requires driver.mappings == before + Chunks(base, sizes, first, 0, n)
    modifies driver`mappings, driver`cleanupCalls
    ensures driver.Valid() && driver.cleanupCalls == old(driver.cleanupCalls) + n
    ensures driver.mappings ==
      before + StuckChunks(base, sizes, first, driver.cleanupFaults, old(driver.cleanupCalls), n)
    ensures firstError == FirstError(driver.cleanupFaults, old(driver.cleanupCalls), n)
  {
    ghost var faults, call := driver.cleanupFaults, driver.cleanupCalls;
    UnmappingEnds(before, base, sizes, first, faults, call, n);
    firstError := 0;
    var unmappedSize := 0;
    var j := 0;
    while j < n
      invariant j <= n && unmappedSize == Offset(sizes, j) && driver.Valid() && driver.cleanupCalls == call + j
      invariant driver.mappings == Unmapping(before, base, sizes, first, faults, call, j, n)
      invariant firstError == FirstError(faults, call, j)
    {
      OffsetStep(sizes, j);
      var status := UnmapOne(driver, base, sizes, first, call, j, n, unmappedSize, before);
      if status != 0 && firstError == 0 { firstError := status; }
      unmappedSize := unmappedSize + sizes[j];
      j := j + 1;
    }
  }

  /** Release the first n handles, going on after a failure. */
  method ReleaseFirst(driver: Driver, handles: array<Handle>, ghost first: Handle, n: nat, error: int)
    returns (firstError: int)
    requires driver.Valid() && n <= handles.Length
    requires forall j :: 0 <= j < n ==> handles[j] == first + j && handles[j] in driver.live
    modifies driver`live, driver`cleanupCalls
    ensures driver.Valid() && driver.cleanupCalls == old(driver.cleanupCalls) + n
    ensures driver.live == old(driver.live) - Handles(first, 0, n)
                           + StuckHandles(first, driver.cleanupFaults, old(driver.cleanupCalls), n)
    ensures firstError == if error != 0 then error else FirstError(driver.cleanupFaults, old(driver.cleanupCalls), n)
  {
    ghost var faults, call := driver.cleanupFaults, driver.cleanupCalls;
    firstError := error;
    var j := 0;
    while j < n
      invariant j <= n && driver.Valid() && driver.cleanupCalls == call + j
      invariant forall l :: j <= l < n ==> handles[l] in driver.live
      invariant driver.live == old(driver.live) - Handles(first, 0, j) + StuckHandles(first, faults, call, j)
      invariant firstError == if error != 0 then error else FirstError(faults, call, j)
    {
      StuckHandlesBelow(first, faults, call, j);
      var status := driver.MemRelease(handles[j]);
      if status != 0 && firstError == 0 { firstError := status; }
      j := j + 1;
    }
  }

  // ---------- create_and_map ----------

  lemma NextChunkIsFree(mappings: map<int, Mapping>, base: int, sizes: seq<nat>, first: Handle, i: nat)
    requires CanHold(mappings, base, sizes) && i < |sizes|
    ensures RangeIsFree(mappings + Chunks(base, sizes, first, 0, i), base + Offset(sizes, i), sizes[i])
  {
    OffsetsGrow(sizes, i, |sizes|);
    assert sizes[..|sizes|] == sizes;
    var all := mappings + Chunks(base, sizes, first, 0, i);
    forall a | a in all
      ensures a + all[a].size <= base + Offset(sizes, i) || base + Offset(sizes, i) + sizes[i] <= a
    {
      if a in Chunks(base, sizes, first, 0, i) { ChunksHold(base, sizes, first, 0, i, a); }
    }
  }

  lemma AddThenRemove(live: set<Handle>, first: Handle, n: nat, stuck: set<Handle>)
    requires forall h :: h in live ==> h < first
    ensures live + Handles(first, 0, n) - Handles(first, 0, n) + stuck == live + stuck
  {}

  /** The loop over cuMemCreate; when a call fails, the handles made before it are released. */
  method CreateAll(driver: Driver, handles: array<Handle>, sizes: seq<nat>) returns (ok: bool, ghost created: nat)
    requires driver.Valid() && driver.errorCode == 0 && handles.Length == |sizes| && Positive(sizes)
    modifies driver, handles
    ensures driver.Valid() && driver.mappings == old(driver.mappings) && driver.accessGrants == old(driver.accessGrants)
    ensures driver.cleanupFaults == old(driver.cleanupFaults) && driver.creationFaults == old(driver.creationFaults)
    ensures ok <==> driver.errorCode == 0
    ensures ok ==> AllSucceed(driver.creationFaults, old(driver.creationCalls), |sizes|)
    ensures ok ==> driver.creationCalls == old(driver.creationCalls) + |sizes| && created == |sizes|
    ensures !ok ==> FirstFaultAt(driver.creationFaults, old(driver.creationCalls), created)
    ensures !ok ==> driver.errorCode == StatusOf(driver.creationFaults, old(driver.creationCalls) + created)
    ensures ok ==> (forall j :: 0 <= j < |sizes| ==> handles[j] == old(driver.nextHandle) + j)
    ensures ok ==> driver.live == old(driver.live) + Handles(old(driver.nextHandle), 0, |sizes|)
    ensures ok ==> driver.cleanupCalls == old(driver.cleanupCalls)
    ensures !ok ==> created < |sizes| && driver.cleanupCalls == old(driver.cleanupCalls) + created
    ensures !ok ==> driver.live == old(driver.live) + StuckHandles(old(driver.nextHandle), driver.cleanupFaults,
                                                                   old(driver.cleanupCalls), created)
  {
    ghost var first := driver.nextHandle;
    var i := 0;
    while i < |sizes|
      invariant i <= |sizes| && driver.Valid() && driver.errorCode == 0
      invariant driver.mappings == old(driver.mappings) && driver.nextHandle == first + i
      invariant driver.accessGrants == old(driver.accessGrants)
      invariant driver.cleanupFaults == old(driver.cleanupFaults) && driver.cleanupCalls == old(driver.cleanupCalls)
      invariant driver.creationFaults == old(driver.creationFaults)
      invariant driver.creationCalls == old(driver.creationCalls) + i
      invariant AllSucceed(driver.creationFaults, old(driver.creationCalls), i)
      invariant forall j :: 0 <= j < i ==> handles[j] == first + j
      invariant driver.live == old(driver.live) + Handles(first, 0, i)
    {
      var error, handle := driver.MemCreate(sizes[i]);
      if error == 0 { handles[i] := handle; }
      if error != 0 { driver.errorCode := error; }
      if driver.errorCode != 0 {
        var _ := ReleaseFirst(driver, handles, first, i, 0);
        AddThenRemove(old(driver.live), first, i,
                      StuckHandles(first, driver.cleanupFaults, old(driver.cleanupCalls), i));
        return false, i;
      }
      i := i + 1;
    }
    ok, created := true, |sizes|;
  }

  /** After a failed map: unmap the first n chunks, release all handles, ignoring the answers. */
  method RollBack(driver: Driver, base: int, handles: array<Handle>, sizes: seq<nat>, ghost first: Handle, n: nat,
                  ghost before: map<int, Mapping>)
    requires driver.Valid() && handles.Length == |sizes| && n <= |sizes| && CanHold(before, base, sizes)
    requires forall j :: 0 <= j < |sizes| ==> handles[j] == first + j && handles[j] in driver.live
    requires driver.mappings == before + Chunks(base, sizes, first, 0, n)
    modifies driver`mappings, driver`live, driver`cleanupCalls
    ensures driver.Valid()
    ensures Leaves(driver, before, old(driver.live) - Handles(first, 0, |sizes|), base, sizes, first,
                   old(driver.cleanupCalls), n, |sizes|)
  {
    var _ := UnmapFirst(driver, base, sizes, first, n, before);
    var _ := ReleaseFirst(driver, handles, first, |sizes|, 0);
  }

  lemma OneMoreChunk(before: map<int, Mapping>, base: int, sizes: seq<nat>, first: Handle, i: nat)
    requires i < |sizes|
    ensures before + Chunks(base, sizes, first, 0, i + 1)
         == (before + Chunks(base, sizes, first, 0, i))[base + Offset(sizes, i) := Mapping(sizes[i], first + i)]
  {
    UpdateSum(before, Chunks(base, sizes, first, 0, i), base + Offset(sizes, i), Mapping(sizes[i], first + i));
  }

  /** One map: chunk i joins the mappings, or the error is set and they stay as they are. */
  method MapOne(driver: Driver, base: int, handles: array<Handle>, sizes: seq<nat>, i: nat, offset: nat,
                ghost first: Handle, ghost before: map<int, Mapping>)
    requires driver.Valid() && driver.errorCode == 0 && i < |sizes| == handles.Length && offset == Offset(sizes, i)
    requires handles[i] == first + i && handles[i] in driver.live && CanHold(before, base, sizes)
    requires driver.mappings == before + Chunks(base, sizes, first, 0, i)
    modifies driver
    ensures driver.Valid() && driver.cleanupFaults == old(driver.cleanupFaults)
    ensures driver.live == old(driver.live) && driver.accessGrants == old(driver.accessGrants)
    ensures driver.cleanupCalls == old(driver.cleanupCalls) && driver.creationFaults == old(driver.creationFaults)
    ensures driver.errorCode == StatusOf(driver.creationFaults, old(driver.creationCalls))
    ensures driver.creationCalls == old(driver.creationCalls) + 1
    ensures driver.mappings == before + Chunks(base, sizes, first, 0, if driver.errorCode == 0 then i + 1 else i)
  {
    NextChunkIsFree(before, base, sizes, first, i);
    OneMoreChunk(before, base, sizes, first, i);
    var error := driver.MemMap(base + offset, sizes[i], handles[i]);
    if error != 0 { driver.errorCode := error; }
  }

  /** The loop over cuMemMap; on failure unmap the chunks placed before and release every handle. */
  method MapAll(driver: Driver, base: int, handles: array<Handle>, sizes: seq<nat>, ghost first: Handle)
    returns (ok: bool, ghost placed: nat)
    requires driver.Valid() && driver.errorCode == 0 && handles.Length == |sizes|
    requires forall j :: 0 <= j < |sizes| ==> handles[j] == first + j && handles[j] in driver.live
    requires CanHold(driver.mappings, base, sizes)
    modifies driver
    ensures driver.Valid() && driver.cleanupFaults == old(driver.cleanupFaults)
    ensures driver.accessGrants == old(driver.accessGrants) && driver.creationFaults == old(driver.creationFaults)
    ensures ok <==> driver.errorCode == 0
    ensures ok ==> AllSucceed(driver.creationFaults, old(driver.creationCalls), |sizes|)
    ensures ok ==> driver.creationCalls == old(driver.creationCalls) + |sizes| && placed == |sizes|
    ensures !ok ==> placed < |sizes| && FirstFaultAt(driver.creationFaults, old(driver.creationCalls), placed)
    ensures !ok ==> driver.errorCode == StatusOf(driver.creationFaults, old(driver.creationCalls) + placed)
    ensures ok ==> driver.live == old(driver.live) && driver.cleanupCalls == old(driver.cleanupCalls)
    ensures ok ==> driver.mappings == old(driver.mappings) + Chunks(base, sizes, first, 0, |sizes|)
    ensures placed <= |sizes|
    ensures !ok ==> Leaves(driver, old(driver.mappings), old(driver.live) - Handles(first, 0, |sizes|), base, sizes,
                           first, old(driver.cleanupCalls), placed, |sizes|)
  {
    ghost var before := driver.mappings;
    var allocatedSize := 0;
    var i := 0;
    while i < |sizes|
      invariant i <= |sizes| && driver.Valid() && driver.errorCode == 0 && allocatedSize == Offset(sizes, i)
      invariant driver.cleanupFaults == old(driver.cleanupFaults) && driver.cleanupCalls == old(driver.cleanupCalls)
      invariant driver.live == old(driver.live) && driver.accessGrants == old(driver.accessGrants)
      invariant driver.creationFaults == old(driver.creationFaults)
      invariant driver.creationCalls == old(driver.creationCalls) + i
      invariant AllSucceed(driver.creationFaults, old(driver.creationCalls), i)
      invariant driver.mappings == before + Chunks(base, sizes, first, 0, i)
    {
      OffsetStep(sizes, i);
      MapOne(driver, base, handles, sizes, i, allocatedSize, first, before);
      if driver.errorCode != 0 {
        RollBack(driver, base, handles, sizes, first, i, before);
        return false, i;
      }
      allocatedSize := allocatedSize + sizes[i];
      i := i + 1;
    }
    ok, placed := true, |sizes|;
  }

  /** The two loops: everything is created and mapped, or what the cleanup calls leave is there. */
  method CreateThenMap(driver: Driver, base: int, handles: array<Handle>, sizes: seq<nat>)
    returns (ok: bool, ghost placed: nat, ghost created: nat)
    requires driver.Valid() && driver.errorCode == 0 && handles.Length == |sizes|
    requires CanHold(driver.mappings, base, sizes)
    modifies driver, handles
    ensures driver.Valid() && driver.cleanupFaults == old(driver.cleanupFaults)
    ensures driver.creationFaults == old(driver.creationFaults) && driver.accessGrants == old(driver.accessGrants)
    ensures ok <==> driver.errorCode == 0
    ensures ok ==> AllSucceed(driver.creationFaults, old(driver.creationCalls), 2 * |sizes|)
    ensures ok ==> driver.creationCalls == old(driver.creationCalls) + 2 * |sizes|
    ensures ok ==> created == placed == |sizes| && driver.cleanupCalls == old(driver.cleanupCalls)
    ensures ok ==> (forall j :: 0 <= j < |sizes| ==> handles[j] == old(driver.nextHandle) + j)
    ensures ok ==> driver.live == old(driver.live) + Handles(old(driver.nextHandle), 0, |sizes|)
    ensures ok ==> driver.mappings == old(driver.mappings) + Chunks(base, sizes, old(driver.nextHandle), 0, |sizes|)
    ensures !ok ==> if created < |sizes| then placed == 0 else created == |sizes| && placed < |sizes|
    ensures !ok ==> FirstFaultAt(driver.creationFaults, old(driver.creationCalls), created + placed)
    ensures !ok ==> driver.errorCode == StatusOf(driver.creationFaults, old(driver.creationCalls) + created + placed)
    ensures !ok ==> Leaves(driver, old(driver.mappings), old(driver.live), base, sizes, old(driver.nextHandle),
                           old(driver.cleanupCalls), placed, created)
  {
    ghost var live, first, n := driver.live, driver.nextHandle, |sizes|;
    ghost var faults, c := driver.creationFaults, driver.creationCalls;
    placed := 0;
    ok, created := CreateAll(driver, handles, sizes);
    if ok {
      ok, placed := MapAll(driver, base, handles, sizes, first);
      AllSucceedSplit(faults, c, n, placed);
      AddThenRemove(live, first, n, {});
    }
  }

  /**
    All or nothing up to the mapping. Error-free, every chunk is created and mapped behind the one
    before, and access is granted to the whole range. When a create or map call fails, exactly the
    chunks and handles whose cleanup call fails are left, so nothing is iff none of these calls does.
    A failure of cuMemSetAccess sets the error and leaves everything mapped. There is no error iff
    the 2 * |sizes| + 1 calls all succeed; otherwise the first that fails gives the error, and its
    number says how many chunks had been created and mapped.
   */
  method CreateAndMap(driver: Driver, base: int, handles: array<Handle>, sizes: seq<nat>)
    returns (ghost mapped: bool, ghost placed: nat, ghost created: nat)
    requires driver.Valid() && driver.errorCode == 0 && handles.Length == |sizes|
    requires CanHold(driver.mappings, base, sizes)
    modifies driver, handles
    ensures driver.Valid() && driver.cleanupFaults == old(driver.cleanupFaults)
    ensures driver.creationFaults == old(driver.creationFaults)
    ensures driver.errorCode == 0 <==> AllSucceed(driver.creationFaults, old(driver.creationCalls), 2 * |sizes| + 1)
    ensures forall f: nat :: f <= 2 * |sizes| && FirstFaultAt(driver.creationFaults, old(driver.creationCalls), f) ==>
              && driver.errorCode == StatusOf(driver.creationFaults, old(driver.creationCalls) + f)
              && mapped == (f == 2 * |sizes|)
              && created == (if f < |sizes| then f else |sizes|)
              && placed == (if f < |sizes| then 0 else if f < 2 * |sizes| then f - |sizes| else |sizes|)
    ensures driver.errorCode == 0 <==> driver.accessGrants == old(driver.accessGrants) + [(base, Total(sizes))]
    ensures driver.errorCode == 0 ==> mapped
    ensures driver.errorCode != 0 ==> driver.accessGrants == old(driver.accessGrants)
    ensures mapped ==> (forall j :: 0 <= j < |sizes| ==> handles[j] == old(driver.nextHandle) + j)
    ensures mapped ==> driver.live == old(driver.live) + Handles(old(driver.nextHandle), 0, |sizes|)
    ensures mapped ==> driver.mappings == old(driver.mappings) + Chunks(base, sizes, old(driver.nextHandle), 0, |sizes|)
    ensures mapped ==> driver.cleanupCalls == old(driver.cleanupCalls)
    ensures placed <= |sizes| && (placed > 0 ==> created == |sizes|)
    ensures !mapped ==> Leaves(driver, old(driver.mappings), old(driver.live), base, sizes, old(driver.nextHandle),
                               old(driver.cleanupCalls), placed, created)
    ensures !mapped ==> (driver.mappings == old(driver.mappings) && driver.live == old(driver.live)
                         <==> AllSucceed(driver.cleanupFaults, old(driver.cleanupCalls), placed + created))
  {
    ghost var before, live, first, call := driver.mappings, driver.live, driver.nextHandle, driver.cleanupCalls;
    ghost var faults, n, c := driver.creationFaults, |sizes|, driver.creationCalls;
    var ok;
    ok, placed, created := CreateThenMap(driver, base, handles, sizes);
    mapped := ok;
    if !ok {
      OnlyFault(faults, c, created + placed, 2 * n + 1);
      NothingIsLeftIff(driver, before, live, base, sizes, first, call, placed, created);
      return;
    }
    var error := driver.MemSetAccess(base, Total(sizes));
    if error != 0 { driver.errorCode := error; }
    AllSucceedStep(faults, c, 2 * n);
    if error != 0 { OnlyFault(faults, c, 2 * n, 2 * n + 1); } else { NoFault(faults, c, 2 * n + 1); }
  }

  // ---------- unmap_and_release ----------

  /**
    Every chunk is unmapped once and every handle released once, whatever fails: exactly the failed
    ones are left, and the first failure is the error.
   */
  method UnmapAndRelease(driver: Driver, base: int, handles: array<Handle>, sizes: seq<nat>,
                         ghost first: Handle, ghost before: map<int, Mapping>)
    requires driver.Valid() && handles.Length == |sizes| && CanHold(before, base, sizes)
    requires forall j :: 0 <= j < |sizes| ==> handles[j] == first + j && handles[j] in driver.live
    requires driver.mappings == before + Chunks(base, sizes, first, 0, |sizes|)
    modifies driver
    ensures driver.Valid() && driver.cleanupFaults == old(driver.cleanupFaults)
    ensures driver.cleanupCalls == old(driver.cleanupCalls) + 2 * |sizes|
    ensures driver.mappings ==
      before + StuckChunks(base, sizes, first, driver.cleanupFaults, old(driver.cleanupCalls), |sizes|)
    ensures driver.live == old(driver.live) - Handles(first, 0, |sizes|)
                           + StuckHandles(first, driver.cleanupFaults, old(driver.cleanupCalls) + |sizes|, |sizes|)
    ensures var e := FirstError(driver.cleanupFaults, old(driver.cleanupCalls), |sizes|);
            var f := FirstError(driver.cleanupFaults, old(driver.cleanupCalls) + |sizes|, |sizes|);
            driver.errorCode == if e != 0 then e else if f != 0 then f else old(driver.errorCode)
  {
    var firstError := UnmapFirst(driver, base, sizes, first, |sizes|, before);
    firstError := ReleaseFirst(driver, handles, first, |sizes|, firstError);
    if firstError != 0 { driver.errorCode := firstError; }
  }

  /**
    After a create_and_map without error, unmap_and_release leaves exactly what the driver refuses to
    give up. What was there before is restored, without an error, iff it refuses nothing.
   */
  method MapThenUnmap(driver: Driver, base: int, handles: array<Handle>, sizes: seq<nat>) returns (created: bool)
    requires driver.Valid() && driver.errorCode == 0 && handles.Length == |sizes|
    requires CanHold(driver.mappings, base, sizes)
    modifies driver, handles
    ensures driver.cleanupFaults == old(driver.cleanupFaults)
    ensures created <==> AllSucceed(old(driver.creationFaults), old(driver.creationCalls), 2 * |sizes| + 1)
    ensures created ==> Leaves(driver, old(driver.mappings), old(driver.live), base, sizes, old(driver.nextHandle),
                               old(driver.cleanupCalls), |sizes|, |sizes|)
    ensures created ==> (driver.mappings == old(driver.mappings) && driver.live == old(driver.live)
                         <==> AllSucceed(driver.cleanupFaults, old(driver.cleanupCalls), 2 * |sizes|))
    ensures created ==> (driver.errorCode == 0
                         <==> AllSucceed(driver.cleanupFaults, old(driver.cleanupCalls), 2 * |sizes|))
  {
    ghost var before, live, first, call := driver.mappings, driver.live, driver.nextHandle, driver.cleanupCalls;
    ghost var mapped, placed, made := CreateAndMap(driver, base, handles, sizes);
    created := driver.errorCode == 0;
    if created {
      ghost var n, faults := |sizes|, driver.cleanupFaults;
      UnmapAndRelease(driver, base, handles, sizes, first, before);
      AddThenRemove(live, first, n, StuckHandles(first, faults, call + n, n));
      NothingIsLeftIff(driver, before, live, base, sizes, first, call, n, n);
      NoErrorIff(faults, call, n);
      NoErrorIff(faults, call + n, n);
      assert AllSucceed(faults, call, 2 * n) <==> AllSucceed(faults, call, n) && AllSucceed(faults, call + n, n);
    }
  }
}
