/** What the calls of the coalescing allocators answer, in terms of the sizes that are asked for. */
module HeapCalls {
  import opened Basics
  import opened HeapBlocks
  import opened HeapSpec
  import opened HeapRuns
  import opened HeapSetup

  // ---- pvPortMalloc() ----

  // Sizes of blocks are aligned, so that padding a request costs it no block.
  lemma {:induction false} PaddingIsFree(n: nat, size: nat)
    requires n > 0 && size % ALIGNMENT == 0
    ensures size >= Wanted(n) <==> size >= n + HEADER
  {
  }

  lemma {:induction false} SizesAligned(h: Heap, arena: Arena, b: Block)
    requires Inv(h, arena) && b in h.free
    ensures b.size % ALIGNMENT == 0
  {
    var i :| 0 <= i < |h.free| && h.free[i] == b;
    assert GoodBlock(h.free[i], arena);
  }

  /** A request succeeds exactly when some free block holds the header and the bytes asked for, and it gets
      the lowest of those blocks. */
  lemma {:induction false} MallocSucceeds(h: Heap, arena: Arena, n: nat)
    requires Inv(h, arena) && 0 < n < 0x8000_0000
    ensures var p := Malloc(h, n).1;
      && (p != 0 <==> exists b :: b in h.free && b.size >= n + HEADER)
      && (p != 0 ==> exists b :: b in h.free && b.addr == p - HEADER && b.size >= n + HEADER)
      && (p != 0 ==> forall b :: b in h.free && b.size >= n + HEADER ==> p - HEADER <= b.addr)
  {
    MallocFirstFit(h, arena, n);
    forall b | b in h.free
      ensures b.size >= Wanted(n) <==> b.size >= n + HEADER
    {
      SizesAligned(h, arena, b);
      PaddingIsFree(n, b.size);
    }
  }

  /** A refused request leaves no trace, and one for nothing or for 2^31 bytes or more is refused. */
  lemma {:induction false} MallocRefused(h: Heap, n: nat)
    ensures Malloc(h, n).1 == 0 ==> Malloc(h, n).0 == h
    ensures n == 0 || n >= 0x8000_0000 ==> Malloc(h, n).1 == 0
  {
  }

  // The aligned size a request is rounded up to.
  lemma {:induction false} WantedIs(n: nat, w: nat)
    requires n > 0 && w % ALIGNMENT == 0 && n + HEADER <= w < n + HEADER + ALIGNMENT
    ensures Wanted(n) == w
  {
  }

  /** Exactly what a successful request gets: the beginning of a free block, cut to the request with its
      header, rounded up to the alignment, if more than two headers are left over, and otherwise all of
      it. What is left over stays free, and the counters follow. */
  lemma {:induction false} MallocGives(h: Heap, arena: Arena, n: nat, w: nat, h': Heap, p: nat)
    requires Inv(h, arena) && Malloc(h, n) == (h', p) && p != 0
    requires w % ALIGNMENT == 0 && n + HEADER <= w < n + HEADER + ALIGNMENT
    ensures exists b :: b in h.free && b.addr == p - HEADER && w <= b.size &&
                        h'.alloc == h.alloc[p - HEADER := if b.size - w > 2 * HEADER then w else b.size]
    ensures h'.freeBytes == h.freeBytes - h'.alloc[p - HEADER]
    ensures h'.minimumEver == Min(h.minimumEver, h'.freeBytes)
    ensures forall x: int ::
      Covers(h'.free, x) <==> Covers(h.free, x) && !(p - HEADER <= x < p - HEADER + h'.alloc[p - HEADER])
  {
    var i := MallocTakes(h, n);
    WantedIs(n, w);
    TakeGives(h, i, w);
    assert h.free[i] in h.free;
    forall x: int
      ensures Covers(h'.free, x) <==> Covers(h.free, x) && !(p - HEADER <= x < p - HEADER + h'.alloc[p - HEADER])
    {
      TakeCovers(h.free, i, w, x);
    }
  }

  lemma {:induction false} TakeGives(h: Heap, i: nat, w: nat)
    requires i < |h.free| && 0 < w <= h.free[i].size
    ensures var (b, h') := (h.free[i], Take(h, i, w));
      && h'.alloc == h.alloc[b.addr := if b.size - w > 2 * HEADER then w else b.size]
      && h'.free == Rest(h.free, i, w) && h'.alloc[b.addr] == Given(b, w)
      && h'.freeBytes == h.freeBytes - h'.alloc[b.addr] && h'.minimumEver == Min(h.minimumEver, h'.freeBytes)
  {
  }

  /** A block freed gives back its bytes and no others; anything else that is freed changes nothing. */
  lemma {:induction false} FreeReturns(h: Heap, arena: Arena, p: nat)
    requires Inv(h, arena)
    ensures p < HEADER || p - HEADER !in h.alloc ==> Free(h, p) == h
    ensures p >= HEADER && p - HEADER in h.alloc ==>
      && Free(h, p).alloc == h.alloc - {p - HEADER} && Free(h, p).minimumEver == h.minimumEver
      && Free(h, p).freeBytes == h.freeBytes + h.alloc[p - HEADER]
      && forall x: int ::
           Covers(Free(h, p).free, x) <==> Covers(h.free, x) || p - HEADER <= x < p - HEADER + h.alloc[p - HEADER]
  {
    if p >= HEADER && p - HEADER in h.alloc {
      var b := Block(p - HEADER, h.alloc[p - HEADER]);
      forall x: int
        ensures Covers(Free(h, p).free, x) <==> Covers(h.free, x) || Holds(b, x)
      {
        InsertCovers(h.free, b, x);
      }
    }
  }

  // ---- the set-up ----

  /** The bytes a region contributes: from its first aligned address to the last aligned one that leaves
      room for the end marker. */
  lemma {:induction false} RegionExact(r: Region, first: nat, last: nat)
    requires Large(r) && first % ALIGNMENT == 0 && last % ALIGNMENT == 0
    requires r.start <= first < r.start + ALIGNMENT
    requires last + HEADER <= r.start + r.size < last + HEADER + ALIGNMENT
    ensures FirstBlock(r).addr == first && FirstBlock(r).End() == last
  {
  }

  // The bytes of all regions together.
  function Managed(rs: seq<Region>): int {
    if rs == [] then 0 else Managed(rs[..|rs| - 1]) + Last(rs[|rs| - 1]) - First(rs[|rs| - 1])
  }

  // The block of each region, with a marker of no bytes between each two.
  predicate LaidOut(rs: seq<Region>, f: seq<Block>)
    requires forall i :: 0 <= i < |rs| ==> Large(rs[i])
  {
    && |f| == 2 * |rs| - 1
    && (forall i :: 0 <= i < |rs| ==> f[2 * i].addr == First(rs[i]) && f[2 * i].End() == Last(rs[i]))
    && (forall i :: 0 <= i < |rs| - 1 ==> f[2 * i + 1].addr == Last(rs[i]) && f[2 * i + 1].size == 0)
  }

  lemma {:induction false} LaidOutSnoc(front: seq<Region>, r: Region, f: seq<Block>, m: Block, b: Block)
    requires front != [] && (forall i :: 0 <= i < |front| ==> Large(front[i])) && Large(r) && LaidOut(front, f)
    requires m.addr == Last(front[|front| - 1]) && m.size == 0 && b == FirstBlock(r)
    ensures LaidOut(front + [r], f + [m] + [b])
  {
  }

  /** The initial list has just these blocks and markers. */
  lemma {:induction false} SetupExact(rs: seq<Region>)
    requires rs != [] && forall i :: 0 <= i < |rs| ==> Large(rs[i])
    ensures LaidOut(rs, Setup(rs))
  {
    var n := |rs| - 1;
    if n == 0 {
      assert Setup(rs) == [FirstBlock(rs[0])];
    } else {
      var front := rs[..n];
      SetupExact(front);
      assert rs == front + [rs[n]];
      SetupSnoc(front, rs[n]);
      LaidOutSnoc(front, rs[n], Setup(front), Block(Last(rs[n - 1]), 0), FirstBlock(rs[n]));
    }
  }

  /** All its bytes are free. */
  lemma {:induction false} SetupFree(rs: seq<Region>)
    requires forall i :: 0 <= i < |rs| ==> Large(rs[i])
    ensures Initial(Setup(rs)).freeBytes == Managed(rs)
  {
    if rs != [] {
      var n := |rs| - 1;
      SetupFree(rs[..n]);
      SetupTotal(rs[..n], rs[n]);
      assert rs == rs[..n] + [rs[n]];
    }
  }

  // Each region adds its bytes.
  lemma {:induction false} SetupTotal(front: seq<Region>, r: Region)
    requires Large(r) && forall i :: 0 <= i < |front| ==> Large(front[i])
    ensures Total(Setup(front + [r])) == Total(Setup(front)) + FirstBlock(r).size
  {
    if front == [] {
      TotalSnoc([], FirstBlock(r));
      assert [] + [r] == [r] && Setup([r]) == [] + [FirstBlock(r)];
    } else {
      SetupSnoc(front, r);
      var marker := Block(Last(front[|front| - 1]), 0);
      TotalSnoc(Setup(front), marker);
      TotalSnoc(Setup(front) + [marker], FirstBlock(r));
    }
  }

  lemma {:induction false} TotalSnoc(f: seq<Block>, b: Block)
    ensures Total(f + [b]) == Total(f) + b.size
  {
    if f == [] {
      assert [] + [b] == [b] && [b][1..] == [];
    } else {
      TotalSnoc(f[1..], b);
      assert (f + [b])[1..] == f[1..] + [b];
    }
  }

  /** Since the set-up, xMinimumEverFreeBytesRemaining is the lowest the free count has been. */
  lemma {:induction false} LowestEver(f: seq<Block>, top: nat, rs: seq<Request>)
    requires Fresh(f, top)
    ensures Run(Initial(f), rs).minimumEver == LowWater(Initial(f), rs)
  {
    InitialKept(f, top);
    RunKept(Initial(f), ArenaOf(f, top), rs);
    if rs != [] {
    }
  }
}
