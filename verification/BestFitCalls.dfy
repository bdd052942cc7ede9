/** What the calls of heap_2.c answer, in terms of the sizes that are asked for, and where its bytes are. */
module BestFitCalls {
  import opened HeapBlocks
  import opened BestFitSpec
  import opened BestFitRuns

  // ---- pvPortMalloc() ----

  // The bytes a request asks for, header included: if adding the header wraps, no more than a header.
  function Asked(n: nat): nat { if n + HEADER > SIZES then HEADER else n + HEADER }

  // Sizes of blocks are aligned, so that padding a request costs it no block, unless it is padded to zero.
  lemma {:induction false} PaddingIsFree(n: nat, size: nat)
    requires 0 < n < SIZES && size % ALIGNMENT == 0 && 0 < size <= ADJUSTED
    ensures 0 < Wanted(n) < ADJUSTED <==> Asked(n) <= ADJUSTED - ALIGNMENT
    ensures 0 < Wanted(n) ==> (size >= Wanted(n) <==> size >= Asked(n))
  {
    if n + HEADER > SIZES {
      assert Wanted(n) == HEADER;
    }
  }

  lemma {:induction false} FreeAligned(h: Pool, base: nat, b: Block)
    requires Inv(h, base) && b in h.free
    ensures b.size % ALIGNMENT == 0 && 0 < b.size <= ADJUSTED
  {
    assert b in h.blocks;
    TilesInside(h.blocks, base, base + ADJUSTED, b);
  }

  /** A request succeeds exactly when it asks for less than the heap, and some free block holds it with its
      header. It gets one of the smallest of those blocks. */
  lemma {:induction false} MallocSucceeds(h: Pool, base: nat, n: nat)
    requires Inv(h, base) && 0 < n < SIZES
    ensures var (p, least) := (Malloc(h, n).1, Asked(n));
      && (p != 0 <==> least <= ADJUSTED - ALIGNMENT && exists b :: b in h.free && b.size >= least)
      && (p != 0 ==> exists b :: b in h.free && b.addr + HEADER == p && b.size >= least
                                 && forall c :: c in h.free && c.size >= least ==> b.size <= c.size)
  {
    forall b | b in h.free
      ensures 0 < Wanted(n) ==> (b.size >= Wanted(n) <==> b.size >= Asked(n))
    {
      FreeAligned(h, base, b);
      PaddingIsFree(n, b.size);
    }
    PaddingIsFree(n, ADJUSTED);
    if 0 < Wanted(n) < ADJUSTED {
      BestFit(h, base, n);
    }
  }

  /** A refused request leaves no trace, and one for nothing is refused. */
  lemma {:induction false} MallocRefused(h: Pool, n: nat)
    ensures Malloc(h, n).1 == 0 ==> Malloc(h, n).0 == h
    ensures n == 0 ==> Malloc(h, n).1 == 0
  {
  }

  lemma {:induction false} AlignedIs(x: nat, w: nat)
    requires w % ALIGNMENT == 0 && x <= w < x + ALIGNMENT
    ensures w == if x % ALIGNMENT != 0 then x + (ALIGNMENT - x % ALIGNMENT) else x
  {
  }

  // The aligned size a request is rounded up to.
  lemma {:induction false} WantedIs(n: nat, w: nat)
    requires 0 < n < SIZES && w % ALIGNMENT == 0 && Asked(n) <= w < Asked(n) + ALIGNMENT
    ensures 0 < Wanted(n) ==> Wanted(n) == w
  {
    if n + HEADER > SIZES {
      assert Wanted(n) == HEADER;
    } else {
      AlignedIs(n + HEADER, w);
    }
  }

  /** Exactly what a successful request gets: the beginning of a free block, cut to the size asked for,
      rounded up to the alignment, if more than two headers are left over, and otherwise all of it. What
      is left over is a free block. */
  lemma {:induction false} MallocGives(h: Pool, base: nat, n: nat, w: nat, h': Pool, p: nat)
    requires Inv(h, base) && 0 < n < SIZES && Malloc(h, n) == (h', p) && p != 0
    requires w % ALIGNMENT == 0 && Asked(n) <= w < Asked(n) + ALIGNMENT
    ensures exists b :: b in h.free && b.addr + HEADER == p && w <= b.size && TakenFrom(h, h', b, w)
  {
    var k := MallocTakes(h, n);
    WantedIs(n, w);
    WantedAligned(n);
    assert h.free[k] in h.free;
    TakeGives(h, base, k, w);
  }

  // Pool `h'` is pool `h` with a block of `w` bytes taken from free block `b`.
  ghost predicate TakenFrom(h: Pool, h': Pool, b: Block, w: nat)
    requires w <= b.size
  {
    var leaves := b.size - w > 2 * HEADER;
    && h'.alloc == h.alloc[b.addr := if leaves then w else b.size]
    && h'.freeBytes == h.freeBytes - (if leaves then w else b.size)
    && (forall c :: c in h'.free <==>
          (c in h.free && c != b) || (leaves && c.addr == b.addr + w && c.End() == b.End()))
  }

  lemma {:induction false} TakeGives(h: Pool, base: nat, k: nat, w: nat)
    requires Inv(h, base) && k < |h.free| && 0 < w <= h.free[k].size && w % ALIGNMENT == 0
    ensures TakenFrom(h, Take(h, k, w), h.free[k], w)
  {
    TakeList(h, base, k, w);
    LeftOver(h, Take(h, k, w), h.free[k], w);
  }

  lemma {:induction false} LeftOver(h: Pool, h': Pool, b: Block, w: nat)
    requires w <= b.size && h'.alloc == h.alloc[b.addr := Given(b, w).size]
    requires h'.freeBytes == h.freeBytes - Given(b, w).size
    requires forall c :: c in h'.free <==> (c in h.free && c != b) || (Splits(b, w) && c == Tail(b, w))
    ensures TakenFrom(h, h', b, w)
  {
    forall c: Block
      ensures c == Tail(b, w) <==> c.addr == b.addr + w && c.End() == b.End()
    {
    }
  }

  // ---- vPortFree() ----

  /** A block freed is a free block again; NULL is left alone. */
  lemma {:induction false} FreeReturns(h: Pool, p: nat)
    requires p != 0 ==> p >= HEADER && p - HEADER in h.alloc
    ensures p == 0 ==> Free(h, p) == h
    ensures p != 0 ==> var a := p - HEADER;
      && Free(h, p).alloc == h.alloc - {a} && Free(h, p).freeBytes == h.freeBytes + h.alloc[a]
      && forall c :: c in Free(h, p).free <==> c in h.free || c == Block(a, h.alloc[a])
  {
    if p != 0 {
      var b := Block(p - HEADER, h.alloc[p - HEADER]);
      SpreadAt(h.free, FirstFit(h.free, b.size), b);
    }
  }

  // The place behind all smaller blocks is where the search for that size stops.
  lemma {:induction false} FoundAgain(f: seq<Block>, b: Block)
    ensures var g := Enlist(f, b); FirstFit(g, b.size) == FirstFit(f, b.size) < |g|
    ensures var (g, k) := (Enlist(f, b), FirstFit(f, b.size)); g[k] == b && Without(g, k) == f
  {
    var k := FirstFit(f, b.size);
    var g := Enlist(f, b);
    SpreadAt(f, k, b);
    assert g[k].size >= b.size && forall j :: 0 <= j < k ==> g[j].size < b.size;
    assert Without(g, k) == f;
  }

  /** A block that has just been freed is the first to be given out again: a request for a block of its
      size undoes the free. */
  lemma {:induction false} FreeThenMalloc(h: Pool, p: nat, n: nat)
    requires p >= HEADER && p - HEADER in h.alloc && h.alloc[p - HEADER] == Wanted(n) && 0 < Wanted(n) < ADJUSTED
    ensures Malloc(Free(h, p), n) == (h, p)
  {
    var a, size := p - HEADER, Wanted(n);
    FoundAgain(h.free, Block(a, size));
    assert (h.alloc - {a})[a := size] == h.alloc;
  }

  // ---- conservation ----

  // The bytes of those blocks that are listed, and of those that are in use.
  ghost function ListedBytes(blocks: seq<Block>, f: seq<Block>): nat {
    if blocks == [] then 0 else (if blocks[0] in f then blocks[0].size else 0) + ListedBytes(blocks[1..], f)
  }

  ghost function UsedBytes(blocks: seq<Block>, alloc: map<nat, nat>): nat {
    if blocks == [] then 0 else (if InUse(alloc, blocks[0]) then blocks[0].size else 0) + UsedBytes(blocks[1..], alloc)
  }

  lemma {:induction false} TilesTotal(blocks: seq<Block>, from: nat, to: nat)
    requires Tiles(blocks, from, to)
    ensures Total(blocks) == to - from
    decreases |blocks|
  {
    if blocks != [] {
      TilesTotal(blocks[1..], blocks[0].End(), to);
    }
  }

  lemma {:induction false} ListedOrUsed(blocks: seq<Block>, f: seq<Block>, alloc: map<nat, nat>)
    requires forall b :: b in blocks ==> (b in f <==> !InUse(alloc, b))
    ensures ListedBytes(blocks, f) + UsedBytes(blocks, alloc) == Total(blocks)
    decreases |blocks|
  {
    if blocks != [] {
      ListedOrUsed(blocks[1..], f, alloc);
    }
  }

  // One more block on the list.
  lemma {:induction false} ListedOneMore(blocks: seq<Block>, from: nat, to: nat, f: seq<Block>, b: Block)
    requires Tiles(blocks, from, to) && b !in f
    ensures ListedBytes(blocks, [b] + f) == ListedBytes(blocks, f) + if b in blocks then b.size else 0
    decreases |blocks|
  {
    if blocks != [] {
      ListedOneMore(blocks[1..], blocks[0].End(), to, f, b);
      if blocks[0] == b && b in blocks[1..] {
        TilesInside(blocks[1..], blocks[0].End(), to, b);
      }
    }
  }

  lemma {:induction false} NoneListed(blocks: seq<Block>)
    ensures ListedBytes(blocks, []) == 0
  {
    if blocks != [] {
      NoneListed(blocks[1..]);
    }
  }

  lemma {:induction false} ListedTotal(blocks: seq<Block>, from: nat, to: nat, f: seq<Block>)
    requires Tiles(blocks, from, to) && Distinct(f) && forall b :: b in f ==> b in blocks
    ensures ListedBytes(blocks, f) == Total(f)
    decreases |f|
  {
    if f == [] {
      NoneListed(blocks);
    } else {
      assert f == [f[0]] + f[1..];
      assert f[0] !in f[1..];
      ListedTotal(blocks, from, to, f[1..]);
      ListedOneMore(blocks, from, to, f[1..], f[0]);
    }
  }

  /** No byte is lost: the free count and the blocks in use add up to the whole heap. */
  lemma {:induction false} BytesConserved(h: Pool, base: nat)
    requires Inv(h, base)
    ensures h.freeBytes + UsedBytes(h.blocks, h.alloc) == ADJUSTED
  {
    TilesTotal(h.blocks, base, base + ADJUSTED);
    ListedTotal(h.blocks, base, base + ADJUSTED, h.free);
    forall b | b in h.blocks
      ensures b in h.free <==> !InUse(h.alloc, b)
    {
    }
    ListedOrUsed(h.blocks, h.free, h.alloc);
  }

  lemma {:induction false} NoneUsed(blocks: seq<Block>)
    ensures UsedBytes(blocks, map[]) == 0
  {
    if blocks != [] {
      NoneUsed(blocks[1..]);
    }
  }

  lemma {:induction false} FirstListed(f: seq<Block>)
    ensures f == [] || f[0] in f
  {
  }

  // The list and the partition have the same blocks, so as many of them.
  lemma {:induction false} SameCount(blocks: seq<Block>, from: nat, to: nat, f: seq<Block>)
    requires Tiles(blocks, from, to) && Distinct(f) && forall b :: b in f <==> b in blocks
    ensures |f| == |blocks|
    decreases |blocks|
  {
    if blocks == [] {
      FirstListed(f);
    } else {
      var b, rest := blocks[0], blocks[1..];
      assert blocks == [b] + rest && b in f;
      var k :| 0 <= k < |f| && f[k] == b;
      WithoutAt(f, k);
      if b in rest {
        TilesInside(rest, b.End(), to, b);
      }
      SameCount(rest, b.End(), to, Without(f, k));
    }
  }

  lemma {:induction false} AllListed(h: Pool, base: nat)
    requires Inv(h, base) && h.alloc == map[]
    ensures h.freeBytes == ADJUSTED && |h.free| == |h.blocks|
  {
    BytesConserved(h, base);
    NoneUsed(h.blocks);
    SameCount(h.blocks, base, base + ADJUSTED, h.free);
  }

  /** A run that frees all it allocated ends with every byte free, but in as many blocks as it has cut. */
  lemma {:induction false} AllFreed(base: nat, rs: seq<Request>)
    requires base % ALIGNMENT == 0 && AllowedRun(Initial(base), rs) && Run(Initial(base), rs).alloc == map[]
    ensures Run(Initial(base), rs).freeBytes == ADJUSTED
    ensures |Run(Initial(base), rs).free| == 1 + SplitsIn(Initial(base), rs)
  {
    InitialKept(base);
    RunKept(Initial(base), base, rs);
    AllListed(Run(Initial(base), rs), base);
    SplitsBounded(base, rs);
  }
}
