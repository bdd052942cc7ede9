/** Whole runs of a coalescing allocator: what it hands out, and that history leaves no trace. */
module HeapRuns {
  import opened Basics
  import opened HeapBlocks
  import opened HeapSpec

  lemma {:induction false} TotalSolid(f: seq<Block>)
    ensures Total(Solid(f)) == Total(f)
  {
    if f != [] {
      TotalSolid(f[1..]);
      if f[0].size > 0 {
        assert ([f[0]] + Solid(f[1..]))[1..] == Solid(f[1..]);
      }
    }
  }

  // Without markers the list has nothing but blocks of bytes.
  lemma {:induction false} NoMarkers(f: seq<Block>)
    requires forall i :: 0 <= i < |f| ==> f[i].size > 0
    ensures Solid(f) == f
  {
    if f != [] {
      assert forall i :: 0 <= i < |f[1..]| ==> f[1..][i] == f[i + 1];
      NoMarkers(f[1..]);
      assert f == [f[0]] + f[1..];
    }
  }

  lemma {:induction false} MarkerFree(h: Heap, arena: Arena)
    requires Inv(h, arena) && arena.markers == {}
    ensures Solid(h.free) == h.free
  {
    assert forall i :: 0 <= i < |h.free| ==> GoodBlock(h.free[i], arena);
    NoMarkers(h.free);
  }

  /** The free list is a function of the allocated blocks alone: it lists the maximal gaps between
      them in address order, whatever happened before - exactly so in heap_4, and the markers aside in
      heap_5. */
  lemma {:induction false} FreeListDetermined(h1: Heap, h2: Heap, arena: Arena)
    requires Inv(h1, arena) && Inv(h2, arena) && h1.alloc == h2.alloc
    ensures Solid(h1.free) == Solid(h2.free) && h1.freeBytes == h2.freeBytes
    ensures arena.markers == {} ==> h1.free == h2.free
  {
    SolidIsCanonical(h1.free);
    SolidIsCanonical(h2.free);
    SolidCovers(h1.free);
    SolidCovers(h2.free);
    forall x
      ensures Covers(Solid(h1.free), x) <==> Covers(Solid(h2.free), x)
    {
      if x >= 0 {
        var n: nat := x;
        assert Covers(h1.free, n) <==> Covers(h2.free, n);
      }
    }
    CanonicalUnique(Solid(h1.free), Solid(h2.free));
    TotalSolid(h1.free);
    TotalSolid(h2.free);
    if arena.markers == {} {
      MarkerFree(h1, arena);
      MarkerFree(h2, arena);
    }
  }

  // ---- what pvPortMalloc() hands out ----

  lemma {:induction false} TotalBounds(f: seq<Block>, i: nat)
    requires i < |f|
    ensures f[i].size <= Total(f)
  {
    if i > 0 {
      TotalBounds(f[1..], i - 1);
    }
  }

  /** First fit is complete: a request succeeds exactly when some free block is big enough for it,
      and then it gets the lowest of those. */
  lemma {:induction false} MallocFirstFit(h: Heap, arena: Arena, n: nat)
    requires Inv(h, arena) && 0 < n < ALLOCATED_BIT
    ensures var p := Malloc(h, n).1;
      && (p != 0 <==> exists b :: b in h.free && b.size >= Wanted(n))
      && (p != 0 ==> exists b :: b in h.free && b.addr == p - HEADER && b.size >= Wanted(n))
      && (p != 0 ==> forall b :: b in h.free && b.size >= Wanted(n) ==> p - HEADER <= b.addr)
  {
    var f, w := h.free, Wanted(n);
    var i := FirstFit(f, w);
    if i < |f| {
      TotalBounds(f, i);
      assert f[i] in f;
      forall b | b in f && b.size >= w
        ensures f[i].addr <= b.addr
      {
        var j :| 0 <= j < |f| && f[j] == b;
        assert i <= j;
      }
    }
  }

  // The block that a successful request gets.
  lemma {:induction false} MallocTakes(h: Heap, n: nat) returns (i: nat)
    requires Malloc(h, n).1 != 0
    ensures 0 < n && i < |h.free| && 0 < Wanted(n) <= h.free[i].size
    ensures Malloc(h, n) == (Take(h, i, Wanted(n)), h.free[i].addr + HEADER)
  {
    i := FirstFit(h.free, Wanted(n));
  }

  lemma {:induction false} AfterHeader(b: Block, arena: Arena)
    requires GoodBlock(b, arena)
    ensures (b.addr + HEADER) % ALIGNMENT == 0
  {
  }

  /** The block handed out is new, aligned, inside the managed bytes, has room for the n bytes after
      its header, and wastes no more than heapMINIMUM_BLOCK_SIZE; the other blocks stay as they are. */
  lemma {:induction false} MallocBlock(h: Heap, arena: Arena, n: nat, h': Heap, p: nat)
    requires Inv(h, arena) && Malloc(h, n) == (h', p) && p != 0
    ensures p >= HEADER && p % ALIGNMENT == 0
    ensures p - HEADER !in h.alloc && p - HEADER in h'.alloc
    ensures h'.alloc == h.alloc[p - HEADER := h'.alloc[p - HEADER]]
    ensures n + HEADER <= Wanted(n) <= h'.alloc[p - HEADER] <= Wanted(n) + MINIMUM_BLOCK
    ensures Within(arena, p - HEADER, h'.alloc[p - HEADER])
  {
    var i := MallocTakes(h, n);
    TakenFresh(h, arena, i);
    TakeKept(h, arena, i, Wanted(n));
    AfterHeader(h.free[i], arena);
  }

  lemma {:induction false} MallocAdds(h: Heap, arena: Arena, n: nat, taken: Heap, p: nat)
    requires Inv(h, arena) && Malloc(h, n) == (taken, p) && p != 0
    ensures p >= HEADER && p - HEADER in taken.alloc && taken.alloc - {p - HEADER} == h.alloc
  {
    var i := MallocTakes(h, n);
    TakenFresh(h, arena, i);
  }

  // A free that leaves the blocks of an earlier heap allocated leaves its free list.
  lemma {:induction false} Restored(h: Heap, taken: Heap, p: nat, back: Heap, arena: Arena)
    requires Inv(h, arena) && Inv(taken, arena) && back == Free(taken, p)
    requires p >= HEADER && p - HEADER in taken.alloc && taken.alloc - {p - HEADER} == h.alloc
    ensures back.alloc == h.alloc && back.freeBytes == h.freeBytes && Solid(back.free) == Solid(h.free)
    ensures arena.markers == {} ==> back.free == h.free
  {
    FreeKept(taken, arena, p);
    FreeListDetermined(back, h, arena);
  }

  /** Freeing what was just allocated undoes the allocation, even if blocks were split or merged. */
  lemma {:induction false} MallocThenFree(h: Heap, arena: Arena, n: nat, taken: Heap, p: nat, back: Heap)
    requires Inv(h, arena) && Malloc(h, n) == (taken, p) && p != 0 && back == Free(taken, p)
    ensures back.alloc == h.alloc && back.freeBytes == h.freeBytes && Solid(back.free) == Solid(h.free)
    ensures arena.markers == {} ==> back.free == h.free
  {
    MallocAdds(h, arena, n, taken, p);
    MallocKept(h, arena, n);
    Restored(h, taken, p, back, arena);
  }

  // ---- conservation ----

  function Range(a: nat, size: nat): (r: set<nat>)
    ensures forall x: nat :: x in r <==> a <= x < a + size
  {
    if size == 0 then {} else Range(a, size - 1) + {a + size - 1}
  }

  lemma {:induction false} RangeSize(a: nat, size: nat)
    ensures |Range(a, size)| == size
  {
    if size > 0 {
      RangeSize(a, size - 1);
    }
  }

  function BytesOf(f: seq<Block>): set<nat> {
    if f == [] then {} else Range(f[0].addr, f[0].size) + BytesOf(f[1..])
  }

  lemma {:induction false} BytesCovered(f: seq<Block>, x: nat)
    ensures x in BytesOf(f) <==> Covers(f, x)
  {
    if f != [] {
      BytesCovered(f[1..], x);
      assert f == [f[0]] + f[1..];
      CoversAppend([f[0]], f[1..], x);
      CoversOne(f[0], x);
    }
  }

  lemma {:induction false} BytesCount(f: seq<Block>)
    requires Ordered(f)
    ensures |BytesOf(f)| == Total(f)
  {
    if f != [] {
      assert forall i :: 0 <= i < |f[1..]| ==> f[1..][i] == f[i + 1];
      BytesCount(f[1..]);
      RangeSize(f[0].addr, f[0].size);
      forall x | x in BytesOf(f[1..])
        ensures x !in Range(f[0].addr, f[0].size)
      {
        BytesCovered(f[1..], x);
        var i :| 0 <= i < |f[1..]| && f[1..][i].addr <= x < f[1..][i].End();
        assert f[0].End() <= f[i + 1].addr;
      }
      assert Range(f[0].addr, f[0].size) !! BytesOf(f[1..]);
    }
  }

  ghost function TakenBytes(h: Heap, arena: Arena): set<nat> {
    set x | x in arena.bytes && Taken(h.alloc, x)
  }

  /** No byte is lost or counted twice: the free count and the bytes in allocated blocks add up to
      the managed bytes. */
  lemma {:induction false} BytesConserved(h: Heap, arena: Arena)
    requires Inv(h, arena)
    ensures h.freeBytes + |TakenBytes(h, arena)| == |arena.bytes|
  {
    BytesCount(h.free);
    forall x: nat
      ensures x in BytesOf(h.free) <==> Covers(h.free, x)
    {
      BytesCovered(h.free, x);
    }
    assert arena.bytes == BytesOf(h.free) + TakenBytes(h, arena);
    assert BytesOf(h.free) !! TakenBytes(h, arena);
  }

  // ---- runs ----

  datatype Request = DoMalloc(n: nat) | DoFree(p: nat)

  function Step(h: Heap, r: Request): Heap {
    match r case DoMalloc(n) => Malloc(h, n).0 case DoFree(p) => Free(h, p)
  }

  function Run(h: Heap, rs: seq<Request>): Heap
    decreases |rs|
  {
    if rs == [] then h else Run(Step(h, rs[0]), rs[1..])
  }

  // The lowest free count of a run, its start included.
  function LowWater(h: Heap, rs: seq<Request>): int
    decreases |rs|
  {
    if rs == [] then h.freeBytes else Min(h.freeBytes, LowWater(Step(h, rs[0]), rs[1..]))
  }

  lemma {:induction false} StepKept(h: Heap, arena: Arena, r: Request)
    requires Inv(h, arena)
    ensures Inv(Step(h, r), arena)
    ensures Step(h, r).minimumEver == Min(h.minimumEver, Step(h, r).freeBytes)
  {
    match r
    case DoMalloc(n) => MallocKept(h, arena, n);
    case DoFree(p) => FreeKept(h, arena, p);
  }

  /** Every run keeps the tiling, and xMinimumEverFreeBytesRemaining is the low-water mark of the
      free count. */
  lemma {:induction false} RunKept(h: Heap, arena: Arena, rs: seq<Request>)
    requires Inv(h, arena)
    ensures Inv(Run(h, rs), arena)
    ensures Run(h, rs).minimumEver == Min(h.minimumEver, LowWater(h, rs))
    decreases |rs|
  {
    if rs != [] {
      StepKept(h, arena, rs[0]);
      RunKept(Step(h, rs[0]), arena, rs[1..]);
    }
  }

  /** History leaves no trace: two runs that end with the same blocks allocated end with the same
      free list - in particular, a run that frees all it allocated, in whatever order, ends with the
      list it started from; in heap_5, but for the markers. */
  lemma {:induction false} HistoryIndependent(h: Heap, arena: Arena, rs: seq<Request>, qs: seq<Request>)
    requires Inv(h, arena) && Run(h, rs).alloc == Run(h, qs).alloc
    ensures Solid(Run(h, rs).free) == Solid(Run(h, qs).free)
    ensures Run(h, rs).freeBytes == Run(h, qs).freeBytes
    ensures Run(h, rs).alloc == h.alloc ==> Solid(Run(h, rs).free) == Solid(h.free)
    ensures arena.markers == {} ==> Run(h, rs).free == Run(h, qs).free
    ensures arena.markers == {} && Run(h, rs).alloc == h.alloc ==> Run(h, rs).free == h.free
  {
    RunKept(h, arena, rs);
    RunKept(h, arena, qs);
    FreeListDetermined(Run(h, rs), Run(h, qs), arena);
    if Run(h, rs).alloc == h.alloc {
      FreeListDetermined(Run(h, rs), h, arena);
    }
  }
}
