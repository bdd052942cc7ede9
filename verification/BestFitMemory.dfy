/** heap_2.c as it works, by rewriting block headers in memory. */
module BestFitMemory {
  import opened HeapBlocks
  import opened HeapLinks
  import opened BestFitSpec
  import opened BestFitRuns

  const NULL := 0

  class BestFitHeap {
    // The addresses of the static list head and list end, which are no heap addresses.
    const xStart: nat
    const xEnd: nat
    // The two fields of the header at each address.
    var pxNextFreeBlock: Field
    var xBlockSize: Field
    var xFreeBytesRemaining: int
    var xHeapHasBeenInitialised: bool
    ghost var free: seq<Block>
    ghost var alloc: map<nat, nat>
    ghost var blocks: seq<Block>
    ghost var base: nat

    // Static storage: nothing is set up, and the free count has its initial value.
    constructor (head: nat, end: nat)
      ensures xStart == head && xEnd == end && !xHeapHasBeenInitialised && xFreeBytesRemaining == ADJUSTED
    {
      xStart, xEnd := head, end;
      pxNextFreeBlock, xBlockSize := map[], map[];
      xFreeBytesRemaining, xHeapHasBeenInitialised := ADJUSTED, false;
      free, alloc, blocks, base := [], map[], [], 0;
    }

    ghost function View(): Pool
      reads this`free, this`alloc, this`blocks, this`xFreeBytesRemaining
    {
      Pool(free, alloc, xFreeBytesRemaining, blocks)
    }

    // The list head and the list end lie outside the heap, and so does NULL.
    ghost predicate Layout()
      reads this`base
    {
      && xStart != xEnd && xEnd != NULL && 0 < base
      && !(base <= xStart < base + ADJUSTED) && !(base <= xEnd < base + ADJUSTED)
    }

    ghost predicate Ends()
      reads this`pxNextFreeBlock, this`xBlockSize
    {
      && xEnd in xBlockSize && xBlockSize[xEnd] == ADJUSTED
      && xEnd in pxNextFreeBlock && pxNextFreeBlock[xEnd] == NULL
    }

    ghost predicate Sited(f: seq<Block>)
      reads this`base
    {
      && (forall i :: 0 <= i < |f| ==> base <= f[i].addr < base + ADJUSTED)
      && forall i, j :: 0 <= i < j < |f| ==> f[i].addr != f[j].addr
    }

    ghost predicate SizesKept(a: map<nat, nat>)
      reads this`xBlockSize
    {
      forall x :: x in a ==> x in xBlockSize && xBlockSize[x] == a[x]
    }

    ghost predicate Listed(f: seq<Block>)
      reads this`pxNextFreeBlock, this`xBlockSize, this`base
    {
      Layout() && Ends() && Sited(f) && Linked(pxNextFreeBlock, xBlockSize, xStart, f, xEnd)
    }

    ghost predicate Valid()
      reads this
    {
      Inv(View(), base) && Listed(free) && SizesKept(alloc) && xHeapHasBeenInitialised
    }

    lemma {:induction false} NodesDiffer(f: seq<Block>)
      requires Layout() && Sited(f)
      ensures HeapLinks.Distinct(xStart, f, xEnd)
    {
    }

    // The walk of prvInsertBlockIntoFreeList: behind the last block that is smaller. The list end is as
    // large as the whole heap, so that the walk ends there at the latest.
    method WalkTo(size: nat, ghost f: seq<Block>) returns (pxIterator: nat, ghost k: nat)
      requires Listed(f) && size <= ADJUSTED
      ensures k == FirstFit(f, size) && pxIterator == Node(xStart, f, xEnd, k as int - 1)
    {
      pxIterator := xStart;
      k := 0;
      assert pxNextFreeBlock[Node(xStart, f, xEnd, -1)] == Node(xStart, f, xEnd, 0);
      while xBlockSize[pxNextFreeBlock[pxIterator]] < size
        invariant k <= |f| && pxIterator == Node(xStart, f, xEnd, k as int - 1)
        invariant pxIterator in pxNextFreeBlock && pxNextFreeBlock[pxIterator] == Node(xStart, f, xEnd, k)
        invariant Node(xStart, f, xEnd, k) in xBlockSize
        invariant forall i :: 0 <= i < k ==> f[i].size < size
        decreases |f| - k
      {
        pxIterator := pxNextFreeBlock[pxIterator];
        k := k + 1;
        assert pxNextFreeBlock[Node(xStart, f, xEnd, k - 1)] == Node(xStart, f, xEnd, k);
      }
    }

    /** prvInsertBlockIntoFreeList: the block goes in front of the first one that is not smaller. */
    method InsertBlockIntoFreeList(pxBlockToInsert: nat, ghost f: seq<Block>, ghost b: Block)
      requires Listed(f) && Sited(f + [b]) && b.addr == pxBlockToInsert && b.size <= ADJUSTED
      requires pxBlockToInsert in xBlockSize && xBlockSize[pxBlockToInsert] == b.size
      modifies this`pxNextFreeBlock
      ensures Listed(Enlist(f, b))
    {
      var pxIterator;
      ghost var k;
      pxIterator, k := WalkTo(xBlockSize[pxBlockToInsert], f);
      ghost var next := pxNextFreeBlock;
      ghost var i: int := k as int - 1;
      assert next[Node(xStart, f, xEnd, i)] == Node(xStart, f, xEnd, i + 1);
      pxNextFreeBlock := pxNextFreeBlock[pxBlockToInsert := pxNextFreeBlock[pxIterator]];
      pxNextFreeBlock := pxNextFreeBlock[pxIterator := pxBlockToInsert];
      Enlisted(next, f, b, k);
    }

    lemma {:induction false} Enlisted(next: Field, f: seq<Block>, b: Block, k: nat)
      requires Layout() && Sited(f + [b]) && Linked(next, xBlockSize, xStart, f, xEnd) && k == FirstFit(f, b.size)
      requires xEnd in xBlockSize && xBlockSize[xEnd] == ADJUSTED
      requires xEnd in next && next[xEnd] == NULL
      requires b.addr in xBlockSize && xBlockSize[b.addr] == b.size
      requires pxNextFreeBlock ==
               next[b.addr := Node(xStart, f, xEnd, k)][Node(xStart, f, xEnd, k as int - 1) := b.addr]
      ensures Listed(Enlist(f, b))
    {
      NewNode(f, b);
      InsertLinked(next, xBlockSize, pxNextFreeBlock, xBlockSize, xStart, f, Splice(k, b, k), xEnd);
      EnlistSited(f, b, k);
    }

    // The block to insert is none of the nodes, which differ from one another.
    lemma {:induction false} NewNode(f: seq<Block>, b: Block)
      requires Layout() && Sited(f + [b])
      ensures Sited(f) && HeapLinks.Distinct(xStart, f, xEnd)
      ensures b.addr != xEnd && forall j :: -1 <= j <= |f| ==> b.addr != Node(xStart, f, xEnd, j)
      ensures forall j :: -1 <= j < |f| ==> Node(xStart, f, xEnd, j) != xEnd
    {
      assert Node(xStart, f, xEnd, |f|) == xEnd;
      assert (f + [b])[|f|] == b && forall j :: 0 <= j < |f| ==> (f + [b])[j] == f[j];
      NodesDiffer(f);
    }

    lemma {:induction false} EnlistSited(f: seq<Block>, b: Block, k: nat)
      requires k <= |f| && Sited(f + [b])
      ensures Sited(Spread(f, k, b)) && Spread(f, k, b) == Spliced(f, Splice(k, b, k))
    {
      assert (f + [b])[|f|] == b && forall i :: 0 <= i < |f| ==> (f + [b])[i] == f[i];
      SpreadAt(f, k, b);
    }

    // The search of pvPortMalloc(): the first, and so a smallest, block that is big enough, or xEnd.
    method FindBlock(xWantedSize: nat) returns (pxPreviousBlock: nat, pxBlock: nat, ghost k: nat)
      requires Listed(free) && xWantedSize < ADJUSTED
      ensures k == FirstFit(free, xWantedSize) && pxPreviousBlock == Node(xStart, free, xEnd, k as int - 1)
      ensures pxBlock == Node(xStart, free, xEnd, k) && (pxBlock == xEnd <==> k == |free|)
      ensures pxPreviousBlock in pxNextFreeBlock && pxNextFreeBlock[pxPreviousBlock] == pxBlock
    {
      k := 0;
      pxPreviousBlock := xStart;
      assert pxNextFreeBlock[Node(xStart, free, xEnd, -1)] == Node(xStart, free, xEnd, 0);
      pxBlock := pxNextFreeBlock[xStart];
      while xBlockSize[pxBlock] < xWantedSize && pxNextFreeBlock[pxBlock] != NULL
        invariant k <= |free| && pxPreviousBlock == Node(xStart, free, xEnd, k as int - 1)
        invariant pxBlock == Node(xStart, free, xEnd, k) && pxBlock in xBlockSize && pxBlock in pxNextFreeBlock
        invariant pxPreviousBlock in pxNextFreeBlock && pxNextFreeBlock[pxPreviousBlock] == pxBlock
        invariant forall i :: 0 <= i < k ==> free[i].size < xWantedSize
        decreases |free| - k
      {
        pxPreviousBlock := pxBlock;
        pxBlock := pxNextFreeBlock[pxBlock];
        k := k + 1;
        assert Node(xStart, free, xEnd, k) == pxBlock;
      }
      assert k < |free| ==> pxNextFreeBlock[Node(xStart, free, xEnd, k)] == Node(xStart, free, xEnd, k + 1);
    }

    // ---- pvPortMalloc() ----

    // Block `k`, and the list without it.
    lemma {:induction false} WithoutReady(k: nat)
      requires Inv(View(), base) && Listed(free) && k < |free|
      ensures base <= free[k].addr && free[k].End() <= base + ADJUSTED && free[k].addr !in alloc
      ensures Sited(Without(free, k))
      ensures forall i :: 0 <= i < |Without(free, k)| ==> Without(free, k)[i].addr != free[k].addr
    {
      assert free[k] in free && free[k] in blocks;
      TilesInside(blocks, base, base + ADJUSTED, free[k]);
      RestSited(free, k);
    }

    lemma {:induction false} RestSited(f: seq<Block>, k: nat)
      requires Sited(f) && k < |f|
      ensures Sited(Without(f, k))
      ensures forall i :: 0 <= i < |Without(f, k)| ==> Without(f, k)[i].addr != f[k].addr
    {
      var g := Without(f, k);
      assert forall i :: 0 <= i < |g| ==> g[i] == f[if i < k then i else i + 1];
    }

    // The tail of block `k` can be put back.
    lemma {:induction false} TailReady(k: nat, wanted: nat)
      requires Inv(View(), base) && Listed(free) && k < |free| && 0 < wanted < free[k].size
      ensures Splits(free[k], wanted) ==> free[k].addr + wanted !in alloc
      ensures forall i :: 0 <= i < |Without(free, k)| ==> Without(free, k)[i].addr != free[k].addr + wanted
    {
      TailUnused(View(), base, k, wanted);
      WithoutAt(free, k);
      var rest := Without(free, k);
      forall i | 0 <= i < |rest|
        ensures rest[i].addr != free[k].addr + wanted
      {
        assert rest[i] in rest && free[k] in free;
        TailApart(View(), base, free[k], rest[i], wanted);
      }
    }

    // Unlinking block `k`.
    method Unlink(pxPreviousBlock: nat, pxBlock: nat, ghost k: nat)
      requires Listed(free) && k < |free| && Sited(Without(free, k))
      requires pxPreviousBlock == Node(xStart, free, xEnd, k as int - 1) && pxBlock == free[k].addr
      modifies this`pxNextFreeBlock
      ensures Listed(Without(free, k))
    {
      ghost var next := pxNextFreeBlock;
      NodesDiffer(free);
      assert next[Node(xStart, free, xEnd, k)] == Node(xStart, free, xEnd, k + 1);
      assert next[Node(xStart, free, xEnd, k as int - 1)] == Node(xStart, free, xEnd, k);
      pxNextFreeBlock := pxNextFreeBlock[pxPreviousBlock := pxNextFreeBlock[pxBlock]];
      BypassLinked(next, xBlockSize, pxNextFreeBlock, xStart, free, k, xEnd);
    }

    // Block `b`, out of the list `f`, can be cut to size.
    ghost predicate CanCut(f: seq<Block>, b: Block, wanted: nat)
      reads this`base, this`alloc
    {
      && base <= b.addr && b.End() <= base + ADJUSTED && 0 < wanted <= b.size && b.addr !in alloc
      && (forall i :: 0 <= i < |f| ==> f[i].addr != b.addr)
      && (Splits(b, wanted) ==>
            b.addr + wanted !in alloc && forall i :: 0 <= i < |f| ==> f[i].addr != b.addr + wanted)
    }

    // The unlinked block `b` is split, and its tail put back in the list, if that is worth while.
    method CutToSize(pxBlock: nat, xWantedSize: nat, ghost f: seq<Block>, ghost b: Block)
      requires Listed(f) && pxBlock == b.addr && pxBlock in xBlockSize && xBlockSize[pxBlock] == b.size
      requires CanCut(f, b, xWantedSize) && SizesKept(alloc)
      modifies this`pxNextFreeBlock, this`xBlockSize
      ensures Listed(if Splits(b, xWantedSize) then Enlist(f, Tail(b, xWantedSize)) else f) && SizesKept(alloc)
      ensures pxBlock in xBlockSize && xBlockSize[pxBlock] == Given(b, xWantedSize).size
    {
      if xBlockSize[pxBlock] - xWantedSize > MINIMUM_BLOCK {
        var pxNewBlockLink := pxBlock + xWantedSize;
        ghost var size := xBlockSize;
        xBlockSize := xBlockSize[pxNewBlockLink := xBlockSize[pxBlock] - xWantedSize];
        xBlockSize := xBlockSize[pxBlock := xWantedSize];
        Resized(size, f, b, xWantedSize);
        InsertBlockIntoFreeList(pxNewBlockLink, f, Tail(b, xWantedSize));
      }
    }

    // Writing the sizes of the two parts leaves the list, and the sizes of the allocated blocks.
    lemma {:induction false} Resized(size: Field, f: seq<Block>, b: Block, wanted: nat)
      requires Layout() && Sited(f) && Linked(pxNextFreeBlock, size, xStart, f, xEnd) && CanCut(f, b, wanted)
      requires Splits(b, wanted) && xBlockSize == size[b.addr + wanted := b.size - wanted][b.addr := wanted]
      ensures Linked(pxNextFreeBlock, xBlockSize, xStart, f, xEnd) && Sited(f + [Tail(b, wanted)])
      ensures (forall a :: a in alloc ==> a in size && size[a] == alloc[a]) ==> SizesKept(alloc)
      ensures SameAt(size, xBlockSize, xStart) && SameAt(size, xBlockSize, xEnd)
    {
    }

    // The block is unlinked; `rest` is the list without it.
    method Withdraw(pxPreviousBlock: nat, pxBlock: nat, ghost k: nat, ghost wanted: nat)
      returns (ghost rest: seq<Block>)
      requires Valid() && k < |free| && 0 < wanted <= free[k].size
      requires pxPreviousBlock == Node(xStart, free, xEnd, k as int - 1) && pxBlock == free[k].addr
      modifies this`pxNextFreeBlock
      ensures Listed(rest) && CanCut(rest, free[k], wanted) && rest == Without(free, k)
      ensures pxBlock in xBlockSize && xBlockSize[pxBlock] == free[k].size
    {
      WithoutReady(k);
      if Splits(free[k], wanted) {
        TailReady(k, wanted);
      }
      Unlink(pxPreviousBlock, pxBlock, k);
      rest := Without(free, k);
    }

    // The block is cut to size, counted and recorded: this leaves the pool `h`.
    method HandOut(pxBlock: nat, xWantedSize: nat, ghost f: seq<Block>, ghost b: Block, ghost h: Pool)
      requires Listed(f) && pxBlock == b.addr && pxBlock in xBlockSize && xBlockSize[pxBlock] == b.size
      requires CanCut(f, b, xWantedSize) && SizesKept(alloc)
      requires h.free == if Splits(b, xWantedSize) then Enlist(f, Tail(b, xWantedSize)) else f
      requires h.alloc == alloc[b.addr := Given(b, xWantedSize).size]
      requires h.freeBytes == xFreeBytesRemaining - Given(b, xWantedSize).size
      modifies this`pxNextFreeBlock, this`xBlockSize, this`xFreeBytesRemaining, this`free, this`alloc, this`blocks
      ensures Listed(free) && SizesKept(alloc) && View() == h
    {
      CutToSize(pxBlock, xWantedSize, f, b);
      xFreeBytesRemaining := xFreeBytesRemaining - xBlockSize[pxBlock];
      free, alloc, blocks := h.free, h.alloc, h.blocks;
    }

    // What is left to do once a block was found.
    method TakeBlock(pxPreviousBlock: nat, pxBlock: nat, xWantedSize: nat, ghost k: nat, ghost h: Pool)
      requires Valid() && k < |free| && 0 < xWantedSize <= free[k].size && xWantedSize % ALIGNMENT == 0
      requires pxPreviousBlock == Node(xStart, free, xEnd, k as int - 1) && pxBlock == free[k].addr
      requires h == Take(View(), k, xWantedSize)
      modifies this`pxNextFreeBlock, this`xBlockSize, this`xFreeBytesRemaining, this`free, this`alloc, this`blocks
      ensures Listed(free) && SizesKept(alloc) && View() == h
    {
      ghost var b := free[k];
      ghost var rest := Withdraw(pxPreviousBlock, pxBlock, k, xWantedSize);
      HandOut(pxBlock, xWantedSize, rest, b, h);
    }

    // The search, and what follows if it finds a block.
    method TakeFit(xWantedSize: nat) returns (pvReturn: nat, ghost k: nat)
      requires Valid() && 0 < xWantedSize < ADJUSTED && xWantedSize % ALIGNMENT == 0
      modifies this`pxNextFreeBlock, this`xBlockSize, this`xFreeBytesRemaining, this`free, this`alloc, this`blocks
      ensures Valid() && k == FirstFit(old(free), xWantedSize)
      ensures k == |old(free)| ==> pvReturn == NULL && View() == old(View())
      ensures k < |old(free)| ==>
        pvReturn == old(free)[k].addr + HEADER && View() == Take(old(View()), k, xWantedSize)
    {
      var pxPreviousBlock, pxBlock;
      pxPreviousBlock, pxBlock, k := FindBlock(xWantedSize);
      pvReturn := NULL;
      if pxBlock != xEnd {
        pvReturn := pxNextFreeBlock[pxPreviousBlock] + HEADER;
        ghost var before := View();
        TakeBlock(pxPreviousBlock, pxBlock, xWantedSize, k, Take(before, k, xWantedSize));
        AfterTake(before, k, xWantedSize);
      }
    }

    // The heap is in order again.
    lemma {:induction false} AfterTake(before: Pool, k: nat, wanted: nat)
      requires Inv(before, base) && k < |before.free| && 0 < wanted <= before.free[k].size && wanted % ALIGNMENT == 0
      requires View() == Take(before, k, wanted) && Listed(free) && SizesKept(alloc) && xHeapHasBeenInitialised
      ensures Valid()
    {
      TakeKept(before, base, k, wanted);
    }

    lemma {:induction false} TakeFirstIs(before: Pool, after: Pool, wanted: nat, k: nat, p: nat)
      requires k == FirstFit(before.free, wanted)
      requires k == |before.free| ==> p == NULL && after == before
      requires k < |before.free| ==> p == before.free[k].addr + HEADER && after == Take(before, k, wanted)
      ensures (after, p) == TakeFirst(before, wanted)
    {
    }

    // The two ends of the list lie outside the heap array.
    predicate Apart(ucHeap: nat) {
      && xStart != xEnd && xEnd != NULL
      && !(ucHeap <= xStart < ucHeap + TOTAL_HEAP_SIZE) && !(ucHeap <= xEnd < ucHeap + TOTAL_HEAP_SIZE)
    }

    /** prvHeapInit(): everything is one free block. */
    method HeapInit(ucHeap: nat)
      requires !xHeapHasBeenInitialised && xFreeBytesRemaining == ADJUSTED && Apart(ucHeap)
      modifies this
      ensures Valid() && View() == Initial(AlignedHeap(ucHeap)) && base == AlignedHeap(ucHeap)
    {
      var pucAlignedHeap := ucHeap + ALIGNMENT - (ucHeap + ALIGNMENT) % ALIGNMENT;
      pxNextFreeBlock := pxNextFreeBlock[xStart := pucAlignedHeap][xEnd := NULL][pucAlignedHeap := xEnd];
      xBlockSize := xBlockSize[xStart := 0][xEnd := ADJUSTED][pucAlignedHeap := ADJUSTED];
      xHeapHasBeenInitialised := true;
      base, free, alloc := pucAlignedHeap, [Block(pucAlignedHeap, ADJUSTED)], map[];
      blocks := free;
      OneLinked(pxNextFreeBlock, xBlockSize, xStart, Block(pucAlignedHeap, ADJUSTED), xEnd);
      InitialKept(base);
      assert View() == Initial(base);
    }

    /** pvPortMalloc() of a heap that is set up, in the arithmetic of size_t. */
    method AllocateFrom(n: nat) returns (pvReturn: nat)
      requires Valid() && n < SIZES
      modifies this`pxNextFreeBlock, this`xBlockSize, this`xFreeBytesRemaining, this`free, this`alloc, this`blocks
      ensures Valid() && (View(), pvReturn) == Malloc(old(View()), n)
    {
      var xWantedSize := n;
      pvReturn := NULL;
      if xWantedSize > 0 {
        xWantedSize := (xWantedSize + HEADER) % SIZES;
        if xWantedSize % ALIGNMENT != 0 {
          xWantedSize := (xWantedSize + (ALIGNMENT - xWantedSize % ALIGNMENT)) % SIZES;
        }
      }
      assert xWantedSize == Wanted(n);
      WantedAligned(n);
      if xWantedSize > 0 && xWantedSize < ADJUSTED {
        ghost var before := View();
        ghost var k;
        pvReturn, k := TakeFit(xWantedSize);
        TakeFirstIs(before, View(), xWantedSize, k, pvReturn);
      }
    }

    /** pvPortMalloc(), which sets up the heap on its first call. */
    method PortMalloc(ucHeap: nat, n: nat) returns (pvReturn: nat)
      requires n < SIZES && Apart(ucHeap)
      requires Valid() || (!xHeapHasBeenInitialised && xFreeBytesRemaining == ADJUSTED)
      modifies this
      ensures Valid()
      ensures (View(), pvReturn) ==
        Malloc(if old(xHeapHasBeenInitialised) then old(View()) else Initial(AlignedHeap(ucHeap)), n)
    {
      if !xHeapHasBeenInitialised {
        HeapInit(ucHeap);
      }
      pvReturn := AllocateFrom(n);
    }

    // ---- vPortFree() ----

    lemma {:induction false} FreeReady(a: nat)
      requires Inv(View(), base) && Listed(free) && a in alloc
      ensures Sited(free + [Block(a, alloc[a])]) && alloc[a] <= ADJUSTED
    {
      var b := Block(a, alloc[a]);
      assert InUse(alloc, b) && b in blocks;
      TilesInside(blocks, base, base + ADJUSTED, b);
      forall i | 0 <= i < |free|
        ensures free[i].addr != a
      {
        assert free[i] in free;
      }
    }

    /** vPortFree(): the block goes back to the list as it is; nothing is merged. */
    method PortFree(pv: nat)
      requires Valid() && (pv != NULL ==> pv >= HEADER && pv - HEADER in alloc)
      modifies this`pxNextFreeBlock, this`xFreeBytesRemaining, this`free, this`alloc
      ensures Valid() && View() == BestFitSpec.Free(old(View()), pv)
    {
      if pv != NULL {
        var pxLink := pv - HEADER;
        ghost var h := View();
        FreeReady(pxLink);
        ReturnBlock(pxLink);
        AfterFree(h, pv);
      }
    }

    method ReturnBlock(pxLink: nat)
      requires Listed(free) && SizesKept(alloc) && pxLink in alloc && alloc[pxLink] <= ADJUSTED
      requires Sited(free + [Block(pxLink, alloc[pxLink])])
      modifies this`pxNextFreeBlock, this`xFreeBytesRemaining, this`free, this`alloc
      ensures Listed(free) && SizesKept(alloc)
      ensures View() == BestFitSpec.Free(old(View()), pxLink + HEADER)
    {
      InsertBlockIntoFreeList(pxLink, free, Block(pxLink, alloc[pxLink]));
      xFreeBytesRemaining := xFreeBytesRemaining + xBlockSize[pxLink];
      free, alloc := Enlist(free, Block(pxLink, alloc[pxLink])), alloc - {pxLink};
    }

    lemma {:induction false} AfterFree(before: Pool, pv: nat)
      requires Inv(before, base) && pv >= HEADER && pv - HEADER in before.alloc
      requires View() == BestFitSpec.Free(before, pv) && Listed(free) && SizesKept(alloc) && xHeapHasBeenInitialised
      ensures Valid()
    {
      FreeKept(before, base, pv);
    }
  }

  lemma {:induction false} OneLinked(next: Field, size: Field, start: nat, b: Block, end: nat)
    requires start in next && next[start] == b.addr && b.addr in next && next[b.addr] == end
    requires b.addr in size && size[b.addr] == b.size
    ensures Linked(next, size, start, [b], end)
  {
  }
}
