/** heap_4.c and heap_5.c: the allocators as they work, by rewriting block headers in memory. The two
    files share pvPortMalloc(), vPortFree() and the list insertion; they differ in how the heap is
    set up. */
module HeapMemory {
  import opened Basics
  import opened HeapBlocks
  import opened HeapSpec
  import opened HeapLinks
  import opened HeapSetup

  const NULL := 0

  class HeapObject {
    // The address of the static list head, which is no heap address.
    const xStart: nat
    // The two fields of the header at each address.
    var pxNextFreeBlock: Field
    var xBlockSize: Field
    var pxEnd: nat
    var xFreeBytesRemaining: int
    var xMinimumEverFreeBytesRemaining: int
    var xBlockAllocatedBit: nat
    ghost var free: seq<Block>
    ghost var alloc: map<nat, nat>
    ghost var arena: Arena

    ghost function View(): Heap
      reads this`free, this`alloc, this`xFreeBytesRemaining, this`xMinimumEverFreeBytesRemaining
    {
      Heap(free, alloc, xFreeBytesRemaining, xMinimumEverFreeBytesRemaining)
    }

    // xStart, the managed bytes with their markers, and pxEnd lie apart, and none of them at NULL.
    ghost predicate Layout()
      reads this`pxEnd, this`arena
    {
      && pxEnd != NULL && xStart != pxEnd
      && (forall x :: x in arena.bytes || x in arena.markers ==> x != NULL && x != xStart && x < pxEnd)
    }

    ghost predicate Ends()
      reads this`pxNextFreeBlock, this`xBlockSize, this`pxEnd
    {
      && xStart in xBlockSize && xBlockSize[xStart] == 0
      && pxEnd in xBlockSize && xBlockSize[pxEnd] == 0
      && pxEnd in pxNextFreeBlock && pxNextFreeBlock[pxEnd] == NULL
    }

    // An allocated block carries the top bit in its size and has no successor.
    ghost predicate Marked(a: nat, size: nat)
      reads this`pxNextFreeBlock, this`xBlockSize
    {
      && a in xBlockSize && xBlockSize[a] == size + ALLOCATED_BIT
      && a in pxNextFreeBlock && pxNextFreeBlock[a] == NULL
    }

    ghost predicate Valid()
      reads this
    {
      && Inv(View(), arena) && Layout() && Ends()
      && xBlockAllocatedBit == ALLOCATED_BIT
      && Linked(pxNextFreeBlock, xBlockSize, xStart, free, pxEnd)
      && AllMarked(alloc)
    }

    // All addresses of a list of good blocks are heap addresses.
    ghost predicate Sited(f: seq<Block>)
      reads this`arena
    {
      forall i :: 0 <= i < |f| ==> f[i].addr in arena.bytes || f[i].addr in arena.markers
    }

    ghost function At(f: seq<Block>, i: int): nat
      requires -1 <= i <= |f|
      reads this`pxEnd
    {
      Node(xStart, f, pxEnd, i)
    }

    lemma {:induction false} NodesDiffer(f: seq<Block>)
      requires Layout() && Sited(f) && Ordered(f)
      ensures Distinct(xStart, f, pxEnd)
    {
    }

    // The walk of prvInsertBlockIntoFreeList(): the last header below an address.
    method WalkTo(address: nat, ghost f: seq<Block>) returns (pxIterator: nat, ghost k: nat)
      requires Layout() && Sited(f) && Linked(pxNextFreeBlock, xBlockSize, xStart, f, pxEnd)
      requires address in arena.bytes
      ensures k == Position(f, address) && pxIterator == At(f, k - 1)
    {
      pxIterator := xStart;
      k := 0;
      assert pxNextFreeBlock[At(f, -1)] == At(f, 0);
      while pxNextFreeBlock[pxIterator] < address
        invariant k <= |f| && pxIterator == At(f, k - 1)
        invariant pxIterator in pxNextFreeBlock && pxNextFreeBlock[pxIterator] == At(f, k)
        invariant forall i :: 0 <= i < k ==> f[i].addr < address
        decreases |f| - k
      {
        pxIterator := pxNextFreeBlock[pxIterator];
        k := k + 1;
        assert pxNextFreeBlock[At(f, k - 1)] == At(f, k);
      }
    }

    /** The first merge of prvInsertBlockIntoFreeList(): the predecessor swallows the block if it
        touches it. */
    method MergeLeft(pxIterator: nat, pxBlockToInsert: nat, ghost f: seq<Block>, ghost k: nat, ghost b: Block)
      returns (block: nat, ghost left: Block)
      requires Layout() && Ends() && Sited(f) && k <= |f| && pxIterator == At(f, k as int - 1)
      requires k > 0 ==> f[k - 1].addr in xBlockSize && xBlockSize[f[k - 1].addr] == f[k - 1].size
      requires b.addr in xBlockSize && xBlockSize[b.addr] == b.size && b.addr in arena.bytes
      requires pxBlockToInsert == b.addr
      modifies this`xBlockSize
      ensures block == left.addr && block in xBlockSize && xBlockSize[block] == left.size
      ensures if k > 0 && f[k - 1].End() == b.addr
        then left == Block(f[k - 1].addr, f[k - 1].size + b.size) && xBlockSize == old(xBlockSize)[block := left.size]
        else left == b && xBlockSize == old(xBlockSize)
    {
      block, left := pxBlockToInsert, b;
      if pxIterator + xBlockSize[pxIterator] == block {
        xBlockSize := xBlockSize[pxIterator := xBlockSize[pxIterator] + xBlockSize[block]];
        block, left := pxIterator, Block(f[k - 1].addr, f[k - 1].size + b.size);
      }
    }

    /** The second half of prvInsertBlockIntoFreeList(): the block, or the predecessor it has been
        merged into, swallows its successor if it touches it, and gets its link. */
    method MergeRight(pxIterator: nat, block: nat, ghost f: seq<Block>, ghost left: Block, ghost k: nat)
      requires k <= |f| && pxIterator in pxNextFreeBlock && pxNextFreeBlock[pxIterator] == At(f, k)
      requires k < |f| ==> f[k].addr in xBlockSize && xBlockSize[f[k].addr] == f[k].size
      requires k < |f| ==> f[k].addr in pxNextFreeBlock && pxNextFreeBlock[f[k].addr] == At(f, k + 1)
      requires k < |f| ==> f[k].addr < pxEnd
      requires block == left.addr && block in xBlockSize && xBlockSize[block] == left.size
      modifies this`pxNextFreeBlock, this`xBlockSize
      ensures var joins := k < |f| && left.End() == f[k].addr;
        && xBlockSize == old(xBlockSize)[block := if joins then left.size + f[k].size else left.size]
        && pxNextFreeBlock == old(pxNextFreeBlock)[block := At(f, if joins then k + 1 else k)]
    {
      if block + xBlockSize[block] == pxNextFreeBlock[pxIterator] {
        if pxNextFreeBlock[pxIterator] != pxEnd {
          var after := pxNextFreeBlock[pxIterator];
          xBlockSize := xBlockSize[block := xBlockSize[block] + xBlockSize[after]];
          pxNextFreeBlock := pxNextFreeBlock[block := pxNextFreeBlock[after]];
        } else {
          pxNextFreeBlock := pxNextFreeBlock[block := pxEnd];
        }
      } else {
        pxNextFreeBlock := pxNextFreeBlock[block := pxNextFreeBlock[pxIterator]];
      }
    }

    // Both merges: the block, or what it has become, holds the merged size and the link that follows.
    method Merge(pxIterator: nat, pxBlockToInsert: nat, ghost f: seq<Block>, ghost k: nat, ghost b: Block,
                 ghost s: Splice) returns (block: nat)
      requires Before(pxNextFreeBlock, xBlockSize, f, s, k, b)
      requires pxIterator == At(f, k as int - 1) && pxBlockToInsert == b.addr
      requires b.addr in xBlockSize && xBlockSize[b.addr] == b.size
      modifies this`pxNextFreeBlock, this`xBlockSize
      ensures block == s.merged.addr
      ensures xBlockSize == old(xBlockSize)[block := s.merged.size]
      ensures pxNextFreeBlock == old(pxNextFreeBlock)[block := At(f, s.after)]
    {
      ghost var i: int := k;
      NodesDiffer(f);
      assert pxNextFreeBlock[At(f, i - 1)] == At(f, i);
      assert k < |f| ==> pxNextFreeBlock[At(f, i)] == At(f, i + 1);
      ghost var left;
      block, left := MergeLeft(pxIterator, pxBlockToInsert, f, k, b);
      MergeRight(pxIterator, block, f, left, k);
    }

    /** prvInsertBlockIntoFreeList(): the walk to the place in address order, then the two merges. */
    method InsertBlockIntoFreeList(pxBlockToInsert: nat, ghost f: seq<Block>, ghost b: Block)
      requires Layout() && Ends() && Sited(f) && Ordered(f)
      requires Linked(pxNextFreeBlock, xBlockSize, xStart, f, pxEnd)
      requires b.addr == pxBlockToInsert && pxBlockToInsert in xBlockSize
      requires b.size == xBlockSize[pxBlockToInsert] > 0
      requires b.addr in arena.bytes && Fits(f, b)
      modifies this`pxNextFreeBlock, this`xBlockSize
      ensures Ends()
      ensures Linked(pxNextFreeBlock, xBlockSize, xStart, Insert(f, b), pxEnd)
      ensures Elsewhere(old(pxNextFreeBlock), pxNextFreeBlock, xStart, f, b.addr)
      ensures Elsewhere(old(xBlockSize), xBlockSize, xStart, f, b.addr)
    {
      ghost var next, size := pxNextFreeBlock, xBlockSize;
      var pxIterator;
      ghost var k;
      pxIterator, k := WalkTo(pxBlockToInsert, f);
      ghost var s := SpliceAt(f, b, k);
      Joins(f, k, b);
      var block := Merge(pxIterator, pxBlockToInsert, f, k, b, s);
      if pxIterator != block {
        pxNextFreeBlock := pxNextFreeBlock[pxIterator := block];
        InsertedFacts(next, size, f, s, k, b);
      } else {
        GrownFacts(next, size, f, s, k, b);
      }
    }

    // The predecessor is the merged block exactly if the block was merged into it.
    lemma {:induction false} Joins(f: seq<Block>, k: nat, b: Block)
      requires Layout() && Sited(f) && k <= |f| && b.addr in arena.bytes && Fits(f, b)
      ensures var s := SpliceAt(f, b, k);
        if At(f, k as int - 1) == s.merged.addr then s.before as int == k - 1 && s.merged.addr == f[k - 1].addr
        else s.before == k && s.merged.addr == b.addr
    {
    }

    ghost predicate Before(next: Field, size: Field, f: seq<Block>, s: Splice, k: nat, b: Block)
      reads this`pxEnd, this`arena
    {
      && Layout() && Sited(f) && Ordered(f) && Linked(next, size, xStart, f, pxEnd)
      && xStart in size && size[xStart] == 0 && pxEnd in size && size[pxEnd] == 0
      && pxEnd in next && next[pxEnd] == NULL
      && k <= |f| && s == SpliceAt(f, b, k) && b.addr in arena.bytes && Fits(f, b) && b.size > 0
    }

    ghost predicate After(next: Field, size: Field, f: seq<Block>, s: Splice, b: Block)
      requires s.before <= s.after <= |f|
      reads this
    {
      && Ends() && Linked(pxNextFreeBlock, xBlockSize, xStart, Spliced(f, s), pxEnd)
      && Elsewhere(next, pxNextFreeBlock, xStart, f, b.addr)
      && Elsewhere(size, xBlockSize, xStart, f, b.addr)
    }

    lemma {:induction false} InsertedFacts(next: Field, size: Field, f: seq<Block>, s: Splice, k: nat, b: Block)
      requires Before(next, size, f, s, k, b) && s.before == k
      requires pxNextFreeBlock == next[b.addr := At(f, s.after)][At(f, k as int - 1) := b.addr]
      requires xBlockSize == size[b.addr := s.merged.size]
      ensures After(next, size, f, s, b)
    {
      NodesDiffer(f);
      forall i | -1 <= i <= |f|
        ensures b.addr != At(f, i)
      {
      }
      InsertLinked(next, size, pxNextFreeBlock, xBlockSize, xStart, f, s, pxEnd);
    }

    lemma {:induction false} GrownFacts(next: Field, size: Field, f: seq<Block>, s: Splice, k: nat, b: Block)
      requires Before(next, size, f, s, k, b) && s.before == k as int - 1
      requires pxNextFreeBlock == next[f[k - 1].addr := At(f, s.after)]
      requires xBlockSize == size[f[k - 1].addr := s.merged.size]
      ensures After(next, size, f, s, b)
    {
      NodesDiffer(f);
      forall i | 0 <= i < |f| && i != s.before
        ensures f[i].addr != s.merged.addr
      {
      }
      GrowLinked(next, size, pxNextFreeBlock, xBlockSize, xStart, f, s, pxEnd);
    }

    // ---- pvPortMalloc() ----

    // The list is `f`, and memory is otherwise in order.
    ghost predicate Listed(f: seq<Block>)
      reads this`pxNextFreeBlock, this`xBlockSize, this`pxEnd, this`arena
    {
      && Layout() && Ends() && Sited(f) && Ordered(f)
      && Linked(pxNextFreeBlock, xBlockSize, xStart, f, pxEnd)
    }

    ghost predicate AllMarked(blocks: map<nat, nat>)
      reads this`pxNextFreeBlock, this`xBlockSize
    {
      forall a :: a in blocks ==> Marked(a, blocks[a])
    }

    // The search of pvPortMalloc(): the first block that is big enough, or pxEnd.
    method FindBlock(xWantedSize: nat) returns (pxPreviousBlock: nat, pxBlock: nat, ghost k: nat)
      requires Listed(free) && xWantedSize > 0
      ensures k == FirstFit(free, xWantedSize) && pxPreviousBlock == At(free, k as int - 1) && pxBlock == At(free, k)
      ensures pxBlock == pxEnd <==> k == |free|
      ensures pxPreviousBlock in pxNextFreeBlock && pxNextFreeBlock[pxPreviousBlock] == pxBlock
    {
      k := 0;
      pxPreviousBlock := xStart;
      assert pxNextFreeBlock[At(free, -1)] == At(free, 0);
      pxBlock := pxNextFreeBlock[xStart];
      while xBlockSize[pxBlock] < xWantedSize && pxNextFreeBlock[pxBlock] != NULL
        invariant k <= |free| && pxPreviousBlock == At(free, k as int - 1) && pxBlock == At(free, k)
        invariant pxBlock in xBlockSize && pxBlock in pxNextFreeBlock
        invariant pxPreviousBlock in pxNextFreeBlock && pxNextFreeBlock[pxPreviousBlock] == pxBlock
        invariant forall i :: 0 <= i < k ==> free[i].size < xWantedSize
        decreases |free| - k
      {
        pxPreviousBlock := pxBlock;
        pxBlock := pxNextFreeBlock[pxBlock];
        k := k + 1;
        assert At(free, k) == pxBlock;
      }
      assert k < |free| ==> pxNextFreeBlock[At(free, k)] == At(free, k + 1) != NULL;
    }

    // Block `k` of the list, and what is left of the list without it.
    lemma {:induction false} Unlinked(f: seq<Block>, k: nat)
      requires Inv(View(), arena) && Layout() && f == free && k < |f| && f[k].size > 0
      ensures GoodList(Without(f, k), arena) && Sited(Without(f, k)) && Sited(f)
      ensures f[k].addr in arena.bytes
      ensures forall i :: 0 <= i < |Without(f, k)| ==> Without(f, k)[i].addr != f[k].addr
    {
      var a: nat := f[k].addr;
      FreeInside(View(), arena, k, a);
      RestKept(f, k, arena);
      Remaining(f, k);
    }

    lemma {:induction false} Remaining(f: seq<Block>, k: nat)
      requires Sited(f) && Ordered(f) && k < |f|
      ensures Sited(Without(f, k))
      ensures forall i :: 0 <= i < |Without(f, k)| ==> Without(f, k)[i].addr != f[k].addr
    {
      var g := Without(f, k);
      assert forall i :: 0 <= i < |g| ==> g[i] == f[if i < k then i else i + 1];
    }

    // Allocated blocks are none of the places a list operation writes to.
    lemma {:induction false} AllocatedApart(f: seq<Block>, a: nat)
      requires Inv(View(), arena) && Layout() && f == free && a in alloc
      ensures a in arena.bytes && a != xStart && forall i :: 0 <= i < |f| ==> f[i].addr != a
      ensures !Covers(f, a)
    {
      assert a <= a < a + alloc[a];
      assert Within(arena, a, alloc[a]);
      assert Taken(alloc, a);
    }

    // Splitting the unlinked block `b`: its tail goes back to the list.
    method Split(pxBlock: nat, xWantedSize: nat, ghost f: seq<Block>, ghost b: Block, ghost blocks: map<nat, nat>)
      requires Listed(f) && pxBlock == b.addr && pxBlock in xBlockSize && xBlockSize[pxBlock] == b.size
      requires 0 < xWantedSize < b.size && b.addr in arena.bytes
      requires forall i :: 0 <= i < |f| ==> f[i].addr != b.addr
      requires var r := Tail(b, xWantedSize); r.addr in arena.bytes && Fits(f, r)
      requires AllMarked(blocks)
      requires forall a :: a in blocks ==> a != b.addr && !Site(xStart, f, b.addr + xWantedSize, a)
      modifies this`pxNextFreeBlock, this`xBlockSize
      ensures Ends() && Linked(pxNextFreeBlock, xBlockSize, xStart, Insert(f, Tail(b, xWantedSize)), pxEnd)
      ensures pxBlock in xBlockSize && xBlockSize[pxBlock] == xWantedSize
      ensures AllMarked(blocks)
    {
      var pxNewBlockLink := pxBlock + xWantedSize;
      xBlockSize := xBlockSize[pxNewBlockLink := xBlockSize[pxBlock] - xWantedSize];
      xBlockSize := xBlockSize[pxBlock := xWantedSize];
      InsertBlockIntoFreeList(pxNewBlockLink, f, Tail(b, xWantedSize));
      assert !Site(xStart, f, pxNewBlockLink, pxBlock);
    }

    // Marking block `b`, which is in no list, as allocated.
    method MarkAllocated(pxBlock: nat, ghost f: seq<Block>, ghost b: Block, ghost blocks: map<nat, nat>)
      requires Listed(f) && pxBlock == b.addr && pxBlock in xBlockSize && xBlockSize[pxBlock] == b.size
      requires b.addr in arena.bytes && xBlockAllocatedBit == ALLOCATED_BIT
      requires forall i :: 0 <= i < |f| ==> f[i].addr != b.addr
      requires b.addr !in blocks && AllMarked(blocks)
      modifies this`pxNextFreeBlock, this`xBlockSize
      ensures Listed(f) && AllMarked(blocks[b.addr := b.size])
    {
      ghost var next, size := pxNextFreeBlock, xBlockSize;
      xBlockSize := xBlockSize[pxBlock := xBlockSize[pxBlock] + xBlockAllocatedBit];
      pxNextFreeBlock := pxNextFreeBlock[pxBlock := NULL];
    }

    // What the list looks like once block `k` was taken.
    lemma {:induction false} TakenFacts(k: nat, wanted: nat)
      requires Inv(View(), arena) && Layout()
      requires k < |free| && 0 < wanted <= free[k].size && wanted % ALIGNMENT == 0
      ensures IsWithout(Rest(free, k, wanted), free[k])
    {
      var b := free[k];
      TakeFree(View(), arena, k, wanted);
      var g := Rest(free, k, wanted);
      forall x: nat
        ensures Covers(g, x) ==> x in arena.bytes && !(b.addr <= x < b.addr + Given(b, wanted))
      {
        TakeCovers(free, k, wanted, x);
      }
      FreeInside(View(), arena, k, b.addr);
    }

    // Taking block `k` touches no allocated block.
    lemma {:induction false} AllocatedElsewhere(f: seq<Block>, k: nat, wanted: nat, a: nat)
      requires Inv(View(), arena) && Layout() && f == free && a in alloc && k < |f|
      requires 0 < wanted < f[k].size
      ensures a != f[k].addr && !Site(xStart, Without(f, k), f[k].addr + wanted, a)
    {
      AllocatedApart(f, a);
      assert f[k].addr <= f[k].addr + wanted < f[k].End();
      assert a == f[k].addr + wanted ==> Covers(f, a);
      var g := Without(f, k);
      assert forall i :: 0 <= i < |g| ==> g[i] == f[if i < k then i else i + 1];
    }

    // Block `b`, out of the list `f`, can be cut to size.
    ghost predicate CanCut(f: seq<Block>, b: Block, wanted: nat)
      reads this`alloc, this`arena
    {
      && 0 < wanted <= b.size && b.addr in arena.bytes && b.addr !in alloc
      && (forall i :: 0 <= i < |f| ==> f[i].addr != b.addr)
      && (wanted < b.size ==> var r := Tail(b, wanted); r.addr in arena.bytes && Fits(f, r))
      && (forall a :: a in alloc && wanted < b.size ==> a != b.addr && !Site(xStart, f, b.addr + wanted, a))
    }

    // A list that block `b` is not in.
    ghost predicate IsWithout(f: seq<Block>, b: Block)
      reads this`arena
    {
      Sited(f) && Ordered(f) && forall i :: 0 <= i < |f| ==> f[i].addr != b.addr
    }

    // Handing out block `b`, out of the list `f`, leaves the heap `h`.
    ghost predicate Leaves(f: seq<Block>, b: Block, wanted: nat, h: Heap)
      reads this`alloc, this`xFreeBytesRemaining, this`xMinimumEverFreeBytesRemaining
    {
      h == var given := Given(b, wanted);
        Heap(if Splits(b, wanted) then Insert(f, Tail(b, wanted)) else f, alloc[b.addr := given],
             xFreeBytesRemaining - given, Min(xMinimumEverFreeBytesRemaining, xFreeBytesRemaining - given))
    }

    // Taking block `k` writes to no allocated block.
    lemma {:induction false} AllocatedSafe(k: nat, wanted: nat)
      requires Inv(View(), arena) && Layout() && k < |free| && 0 < wanted <= free[k].size
      ensures forall a :: a in alloc ==> a != xStart && forall i :: 0 <= i < |free| ==> free[i].addr != a
      ensures forall a :: a in alloc && wanted < free[k].size ==>
        a != free[k].addr && !Site(xStart, Without(free, k), free[k].addr + wanted, a)
    {
      forall a | a in alloc
        ensures a != xStart && forall i :: 0 <= i < |free| ==> free[i].addr != a
      {
        AllocatedApart(free, a);
      }
      forall a | a in alloc && wanted < free[k].size
        ensures a != free[k].addr && !Site(xStart, Without(free, k), free[k].addr + wanted, a)
      {
        AllocatedElsewhere(free, k, wanted, a);
      }
    }

    lemma {:induction false} BecomesReady(k: nat, wanted: nat)
      requires Inv(View(), arena) && Layout()
      requires k < |free| && 0 < wanted <= free[k].size && wanted % ALIGNMENT == 0
      ensures CanCut(Without(free, k), free[k], wanted) && IsWithout(Without(free, k), free[k])
      ensures Sited(free)
    {
      Unlinked(free, k);
      TakenFresh(View(), arena, k);
      AllocatedSafe(k, wanted);
    }

    lemma {:induction false} UnlinkFacts(k: nat, wanted: nat)
      requires Inv(View(), arena) && Layout()
      requires k < |free| && 0 < wanted <= free[k].size && wanted % ALIGNMENT == 0
      ensures Sited(free) && CanCut(Without(free, k), free[k], wanted)
      ensures Sited(Without(free, k)) && Ordered(Without(free, k))
      ensures forall a :: a in alloc ==> a != xStart && forall i :: 0 <= i < |free| ==> free[i].addr != a
      ensures var h := Take(View(), k, wanted);
        Leaves(Without(free, k), free[k], wanted, h) && IsWithout(h.free, free[k])
    {
      BecomesReady(k, wanted);
      AllocatedSafe(k, wanted);
      TakenFacts(k, wanted);
    }

    method Bypass(pxPreviousBlock: nat, pxBlock: nat, ghost k: nat)
      requires Listed(free) && AllMarked(alloc) && k < |free| && Sited(Without(free, k)) && Ordered(Without(free, k))
      requires pxPreviousBlock == At(free, k as int - 1) && pxBlock == free[k].addr
      requires forall a :: a in alloc ==> a != xStart && forall i :: 0 <= i < |free| ==> free[i].addr != a
      modifies this`pxNextFreeBlock
      ensures Listed(Without(free, k)) && AllMarked(alloc)
    {
      ghost var next := pxNextFreeBlock;
      NodesDiffer(free);
      assert next[At(free, k)] == At(free, k + 1);
      assert next[At(free, k as int - 1)] == At(free, k);
      pxNextFreeBlock := pxNextFreeBlock[pxPreviousBlock := pxNextFreeBlock[pxBlock]];
      BypassLinked(next, xBlockSize, pxNextFreeBlock, xStart, free, k, pxEnd);
    }

    // Unlinking block `k`, which leaves the list `rest`.
    method Unlink(pxPreviousBlock: nat, pxBlock: nat, ghost k: nat, ghost wanted: nat, ghost h: Heap)
      returns (ghost rest: seq<Block>)
      requires Valid() && k < |free| && 0 < wanted <= free[k].size && wanted % ALIGNMENT == 0
      requires pxPreviousBlock == At(free, k as int - 1) && pxBlock == free[k].addr
      requires h == Take(View(), k, wanted)
      modifies this`pxNextFreeBlock
      ensures Listed(rest) && AllMarked(alloc) && CanCut(rest, free[k], wanted)
      ensures Leaves(rest, free[k], wanted, h) && IsWithout(h.free, free[k])
      ensures pxBlock in xBlockSize && xBlockSize[pxBlock] == free[k].size
    {
      UnlinkFacts(k, wanted);
      Bypass(pxPreviousBlock, pxBlock, k);
      rest := Without(free, k);
    }

    // The unlinked block `b` is split if that is worth while.
    method CutToSize(pxBlock: nat, xWantedSize: nat, ghost f: seq<Block>, ghost b: Block, ghost blocks: map<nat, nat>)
      requires Listed(f) && pxBlock == b.addr && pxBlock in xBlockSize && xBlockSize[pxBlock] == b.size
      requires 0 < xWantedSize <= b.size && b.addr in arena.bytes && AllMarked(blocks)
      requires forall i :: 0 <= i < |f| ==> f[i].addr != b.addr
      requires xWantedSize < b.size ==> var r := Tail(b, xWantedSize); r.addr in arena.bytes && Fits(f, r)
      requires forall a :: a in blocks && xWantedSize < b.size ==>
                 a != b.addr && !Site(xStart, f, b.addr + xWantedSize, a)
      modifies this`pxNextFreeBlock, this`xBlockSize
      ensures Ends()
      ensures Linked(pxNextFreeBlock, xBlockSize, xStart,
                     if Splits(b, xWantedSize) then Insert(f, Tail(b, xWantedSize)) else f, pxEnd)
      ensures pxBlock in xBlockSize && xBlockSize[pxBlock] == Given(b, xWantedSize)
      ensures AllMarked(blocks)
    {
      if xBlockSize[pxBlock] - xWantedSize > MINIMUM_BLOCK {
        Split(pxBlock, xWantedSize, f, b, blocks);
      }
    }

    // The bookkeeping for a block `b` that was taken out of the list.
    method Account(pxBlock: nat, ghost b: Block, ghost h: Heap)
      requires Listed(h.free) && pxBlock == b.addr && pxBlock in xBlockSize && xBlockSize[pxBlock] == b.size
      requires b.addr in arena.bytes && xBlockAllocatedBit == ALLOCATED_BIT
      requires forall i :: 0 <= i < |h.free| ==> h.free[i].addr != b.addr
      requires b.addr !in alloc && AllMarked(alloc)
      requires h == Heap(h.free, alloc[b.addr := b.size], xFreeBytesRemaining - b.size,
                         Min(xMinimumEverFreeBytesRemaining, xFreeBytesRemaining - b.size))
      modifies this`pxNextFreeBlock, this`xBlockSize, this`free, this`alloc
      modifies this`xFreeBytesRemaining, this`xMinimumEverFreeBytesRemaining
      ensures Listed(h.free) && AllMarked(h.alloc) && View() == h
    {
      xFreeBytesRemaining := xFreeBytesRemaining - xBlockSize[pxBlock];
      if xFreeBytesRemaining < xMinimumEverFreeBytesRemaining {
        xMinimumEverFreeBytesRemaining := xFreeBytesRemaining;
      }
      MarkAllocated(pxBlock, h.free, b, alloc);
      free, alloc := h.free, h.alloc;
    }

    // Block `b`, out of the list `f`, is cut to size, counted and marked.
    method HandOut(pxBlock: nat, xWantedSize: nat, ghost f: seq<Block>, ghost b: Block, ghost h: Heap)
      requires Listed(f) && AllMarked(alloc) && CanCut(f, b, xWantedSize)
      requires Leaves(f, b, xWantedSize, h) && IsWithout(h.free, b) && xBlockAllocatedBit == ALLOCATED_BIT
      requires pxBlock == b.addr && pxBlock in xBlockSize && xBlockSize[pxBlock] == b.size
      modifies this`pxNextFreeBlock, this`xBlockSize, this`free, this`alloc
      modifies this`xFreeBytesRemaining, this`xMinimumEverFreeBytesRemaining
      ensures Listed(h.free) && AllMarked(h.alloc) && View() == h
    {
      CutToSize(pxBlock, xWantedSize, f, b, alloc);
      Account(pxBlock, Block(b.addr, Given(b, xWantedSize)), h);
    }

    /** The rest of pvPortMalloc(): the block is unlinked, split if that is worth while, counted and
        marked. */
    method TakeBlock(pxPreviousBlock: nat, pxBlock: nat, xWantedSize: nat, ghost k: nat, ghost h: Heap)
      requires Valid() && k < |free| && 0 < xWantedSize <= free[k].size && xWantedSize % ALIGNMENT == 0
      requires pxPreviousBlock == At(free, k as int - 1) && pxBlock == free[k].addr
      requires h == Take(View(), k, xWantedSize)
      modifies this`pxNextFreeBlock, this`xBlockSize, this`free, this`alloc
      modifies this`xFreeBytesRemaining, this`xMinimumEverFreeBytesRemaining
      ensures Listed(h.free) && AllMarked(h.alloc) && View() == h
    {
      ghost var b := free[k];
      ghost var rest := Unlink(pxPreviousBlock, pxBlock, k, xWantedSize, h);
      HandOut(pxBlock, xWantedSize, rest, b, h);
    }

    // The heap is in order again.
    lemma {:induction false} AfterTake(before: Heap, k: nat, wanted: nat)
      requires Inv(before, arena) && k < |before.free| && 0 < wanted <= before.free[k].size && wanted % ALIGNMENT == 0
      requires View() == Take(before, k, wanted) && Listed(free) && AllMarked(alloc)
      requires xBlockAllocatedBit == ALLOCATED_BIT
      ensures Valid()
    {
      TakeKept(before, arena, k, wanted);
    }

    // The search, and what follows if it finds a block.
    method TakeFirstFit(xWantedSize: nat) returns (pvReturn: nat, ghost k: nat)
      requires Valid() && 0 < xWantedSize && xWantedSize % ALIGNMENT == 0
      modifies this`pxNextFreeBlock, this`xBlockSize, this`free, this`alloc
      modifies this`xFreeBytesRemaining, this`xMinimumEverFreeBytesRemaining
      ensures Valid() && k == FirstFit(old(free), xWantedSize)
      ensures k == |old(free)| ==> pvReturn == NULL && View() == old(View())
      ensures k < |old(free)| ==>
        pvReturn == old(free)[k].addr + HEADER && View() == Take(old(View()), k, xWantedSize)
    {
      var pxPreviousBlock, pxBlock;
      pxPreviousBlock, pxBlock, k := FindBlock(xWantedSize);
      pvReturn := NULL;
      if pxBlock != pxEnd {
        pvReturn := pxNextFreeBlock[pxPreviousBlock] + HEADER;
        ghost var before := View();
        TakeBlock(pxPreviousBlock, pxBlock, xWantedSize, k, Take(before, k, xWantedSize));
        AfterTake(before, k, xWantedSize);
      }
    }

    lemma {:induction false} TakeFirstIs(before: Heap, after: Heap, wanted: nat, k: nat, p: nat)
      requires k == FirstFit(before.free, wanted)
      requires k == |before.free| ==> p == NULL && after == before
      requires k < |before.free| ==> p == before.free[k].addr + HEADER && after == Take(before, k, wanted)
      ensures (after, p) == TakeFirst(before, wanted)
    {
    }

    /** pvPortMalloc() of a heap that is set up. */
    method AllocateFrom(n: nat) returns (pvReturn: nat)
      requires Valid()
      modifies this`pxNextFreeBlock, this`xBlockSize, this`free, this`alloc
      modifies this`xFreeBytesRemaining, this`xMinimumEverFreeBytesRemaining
      ensures Valid() && (View(), pvReturn) == Malloc(old(View()), n)
    {
      pvReturn := NULL;
      if n < xBlockAllocatedBit {
        var xWantedSize := n;
        if xWantedSize > 0 {
          xWantedSize := xWantedSize + HEADER;
          if xWantedSize % ALIGNMENT != 0 {
            xWantedSize := xWantedSize + (ALIGNMENT - xWantedSize % ALIGNMENT);
          }
        }
        assert xWantedSize == Wanted(n);
        if xWantedSize > 0 && xWantedSize <= xFreeBytesRemaining {
          ghost var before := View();
          ghost var k;
          pvReturn, k := TakeFirstFit(xWantedSize);
          TakeFirstIs(before, View(), xWantedSize, k, pvReturn);
        }
      }
    }

    // ---- vPortFree() ----

    // What the insertion needs to know about the allocated block at `a`.
    lemma {:induction false} CanReturn(a: nat)
      requires Inv(View(), arena) && Layout() && a in alloc
      ensures Sited(free) && a in arena.bytes && Fits(free, Block(a, alloc[a])) && alloc[a] > 0
      ensures forall i :: 0 <= i < |free| ==> free[i].addr != a
      ensures forall c :: c in alloc && c != a ==> !Site(xStart, free, a, c)
      ensures a != xStart && a != pxEnd
    {
      var b := Block(a, alloc[a]);
      forall x: nat | Holds(b, x)
        ensures !Covers(free, x)
      {
        assert Taken(alloc, x);
      }
      FitsFree(free, b, arena);
      forall c | c in alloc
        ensures c in arena.bytes && c != xStart && forall i :: 0 <= i < |free| ==> free[i].addr != c
      {
        AllocatedApart(free, c);
      }
    }

    // The mark is taken off the block at `pxLink`, and the block joins the list.
    method ReturnBlock(pxLink: nat)
      requires Valid() && pxLink in alloc
      modifies this`pxNextFreeBlock, this`xBlockSize, this`free, this`alloc, this`xFreeBytesRemaining
      ensures Ends() && Linked(pxNextFreeBlock, xBlockSize, xStart, free, pxEnd) && AllMarked(alloc)
      ensures View() == HeapSpec.Free(old(View()), pxLink + HEADER)
    {
      CanReturn(pxLink);
      FreeOf(View(), pxLink);
      Unmark(pxLink);
      Relist(pxLink);
    }

    // The block joins the list; the other allocated blocks keep their marks.
    method Relist(pxLink: nat)
      requires Listed(free) && pxLink in alloc && pxLink in arena.bytes && alloc[pxLink] > 0
      requires Fits(free, Block(pxLink, alloc[pxLink]))
      requires pxLink in xBlockSize && xBlockSize[pxLink] == alloc[pxLink]
      requires forall c :: c in alloc && c != pxLink ==> Marked(c, alloc[c]) && !Site(xStart, free, pxLink, c)
      modifies this`pxNextFreeBlock, this`xBlockSize, this`free, this`alloc, this`xFreeBytesRemaining
      ensures Ends() && Linked(pxNextFreeBlock, xBlockSize, xStart, free, pxEnd) && AllMarked(alloc)
      ensures free == old(Insert(free, Block(pxLink, alloc[pxLink]))) && alloc == old(alloc) - {pxLink}
      ensures xFreeBytesRemaining == old(xFreeBytesRemaining + alloc[pxLink])
    {
      xFreeBytesRemaining := xFreeBytesRemaining + xBlockSize[pxLink];
      ghost var next, size, b := pxNextFreeBlock, xBlockSize, Block(pxLink, alloc[pxLink]);
      InsertBlockIntoFreeList(pxLink, free, b);
      OthersMarked(next, size, pxLink);
      free, alloc := Insert(free, b), alloc - {pxLink};
    }

    // The insertion of the block at `a` leaves the marks of the other allocated blocks.
    lemma {:induction false} OthersMarked(next: Field, size: Field, a: nat)
      requires Elsewhere(next, pxNextFreeBlock, xStart, free, a) && Elsewhere(size, xBlockSize, xStart, free, a)
      requires forall c :: c in alloc && c != a ==> !Site(xStart, free, a, c)
      requires forall c :: c in alloc && c != a ==>
        c in size && size[c] == alloc[c] + ALLOCATED_BIT && c in next && next[c] == NULL
      ensures AllMarked(alloc - {a})
    {
    }

    // The mark is taken off; the list does not change.
    method Unmark(pxLink: nat)
      requires Valid() && pxLink in alloc && pxLink != xStart && pxLink != pxEnd
      requires forall i :: 0 <= i < |free| ==> free[i].addr != pxLink
      modifies this`xBlockSize
      ensures Ends() && Linked(pxNextFreeBlock, xBlockSize, xStart, free, pxEnd)
      ensures forall c :: c in alloc && c != pxLink ==> Marked(c, alloc[c])
      ensures xBlockSize == old(xBlockSize)[pxLink := alloc[pxLink]]
    {
      xBlockSize := xBlockSize[pxLink := xBlockSize[pxLink] - xBlockAllocatedBit];
    }

    lemma {:induction false} FreeOf(h: Heap, a: nat)
      requires a in h.alloc
      ensures HeapSpec.Free(h, a + HEADER) ==
        Heap(Insert(h.free, Block(a, h.alloc[a])), h.alloc - {a}, h.freeBytes + h.alloc[a], h.minimumEver)
    {
    }

    /** vPortFree(): a block goes back to the list if its header says that it is allocated; NULL, or a
        header that does not carry the mark any more, is left alone. */
    method PortFree(pv: nat)
      requires Valid()
      requires pv != NULL ==> pv >= HEADER
      requires pv >= HEADER && pv - HEADER !in alloc ==>
                 pv - HEADER in xBlockSize && xBlockSize[pv - HEADER] < ALLOCATED_BIT
      modifies this`pxNextFreeBlock, this`xBlockSize, this`free, this`alloc, this`xFreeBytesRemaining
      ensures Valid() && View() == HeapSpec.Free(old(View()), pv)
    {
      if pv != NULL {
        var pxLink := pv - HEADER;
        if xBlockSize[pxLink] >= xBlockAllocatedBit {
          if pxNextFreeBlock[pxLink] == NULL {
            ghost var before := View();
            ReturnBlock(pxLink);
            AfterFree(before, pv);
          }
        }
      }
    }

    lemma {:induction false} AfterFree(before: Heap, pv: nat)
      requires Inv(before, arena) && View() == HeapSpec.Free(before, pv) && Layout() && Ends()
      requires Linked(pxNextFreeBlock, xBlockSize, xStart, free, pxEnd) && AllMarked(alloc)
      requires xBlockAllocatedBit == ALLOCATED_BIT
      ensures Valid()
    {
      FreeKept(before, arena, pv);
    }

    // ---- setting up the heap ----

    // Nothing is set up yet; static storage starts out as zeros.
    constructor (head: nat)
      ensures Unset() && xStart == head
    {
      xStart := head;
      pxNextFreeBlock, xBlockSize := map[], map[];
      pxEnd, xFreeBytesRemaining, xMinimumEverFreeBytesRemaining, xBlockAllocatedBit := NULL, 0, 0, 0;
      free, alloc, arena := [], map[], Arena({}, {});
    }

    ghost predicate Unset()
      reads this
    {
      pxEnd == NULL && free == [] && alloc == map[] && xFreeBytesRemaining == 0 && xBlockAllocatedBit == 0
    }

    // The static list head lies in none of the regions.
    ghost predicate Outside(rs: seq<Region>) {
      forall r :: r in rs ==> !(r.start <= xStart < r.start + r.size)
    }

    // The list `f` lies in memory, up to the end marker at `top`.
    ghost predicate Building(f: seq<Block>, top: nat)
      reads this`pxNextFreeBlock, this`xBlockSize, this`pxEnd
    {
      && pxEnd == top && top != NULL && xStart != top && Ends()
      && Linked(pxNextFreeBlock, xBlockSize, xStart, f, top)
    }

    // The last step of both initialisations.
    ghost method Complete(rs: seq<Region>)
      requires Proper(rs) && Outside(rs) && Building(Setup(rs), Last(rs[|rs| - 1]))
      requires xBlockAllocatedBit == ALLOCATED_BIT
      requires xFreeBytesRemaining == xMinimumEverFreeBytesRemaining == Total(Setup(rs))
      modifies this`free, this`alloc, this`arena
      ensures Valid() && View() == Initial(Setup(rs)) && arena == ArenaOf(Setup(rs), Last(rs[|rs| - 1]))
    {
      free, alloc, arena := Setup(rs), map[], ArenaOf(Setup(rs), Last(rs[|rs| - 1]));
      InitiallyLaidOut(rs);
    }

    // The aligned start of a region, and the address of the end marker in it.
    method Bounds(r: Region) returns (xAlignedHeap: nat, xAddress: nat)
      requires Large(r)
      ensures xAlignedHeap == First(r) && xAddress == Last(r)
    {
      var xTotalRegionSize := r.size as int;
      xAlignedHeap := r.start;
      if xAlignedHeap % ALIGNMENT != 0 {
        xAlignedHeap := xAlignedHeap + (ALIGNMENT - 1);
        xAlignedHeap := xAlignedHeap - xAlignedHeap % ALIGNMENT;
        xTotalRegionSize := xTotalRegionSize - (xAlignedHeap - r.start);
      }
      var end := xAlignedHeap + xTotalRegionSize;
      end := end - HEADER;
      xAddress := end - end % ALIGNMENT;
    }

    // xStart is neither the first block of the region nor its end marker.
    lemma {:induction false} Clear(r: Region)
      requires Large(r) && Outside([r])
      ensures First(r) != xStart && Last(r) != xStart && 0 < First(r)
    {
      assert r in [r];
    }

    lemma {:induction false} InitiallyLaidOut(rs: seq<Region>)
      requires Proper(rs) && Outside(rs)
      ensures var arena := ArenaOf(Setup(rs), Last(rs[|rs| - 1]));
        && Inv(Initial(Setup(rs)), arena)
        && forall x :: x in arena.bytes || x in arena.markers ==>
             x != NULL && x != xStart && x < Last(rs[|rs| - 1])
    {
      SetupFresh(rs);
      InitialKept(Setup(rs), Last(rs[|rs| - 1]));
      var arena := ArenaOf(Setup(rs), Last(rs[|rs| - 1]));
      forall x | x in arena.bytes || x in arena.markers
        ensures x != NULL && x != xStart && x < Last(rs[|rs| - 1])
      {
        ManagedInside(rs, x);
      }
    }

    // What holds once the list `f` has been built.
    ghost predicate Strung(f: seq<Block>, top: nat, total: int)
      reads this`pxNextFreeBlock, this`xBlockSize, this`pxEnd
    {
      total == Total(f) && if f == [] then pxEnd == top == NULL else Building(f, top) && Fresh(f, top)
    }

    // The list `f`, up to the end marker at `top`, followed by block `b`.
    ghost function Appended(f: seq<Block>, top: nat, b: Block): seq<Block> {
      if f == [] then [b] else f + [Block(top, 0)] + [b]
    }

    // One round of vPortDefineHeapRegions(): region `r` is appended.
    method AddRegion(r: Region, xDefinedRegions: nat, xTotalHeapSize: int, ghost f: seq<Block>, ghost top: nat)
      returns (total: int)
      requires Large(r) && Outside([r]) && Strung(f, top, xTotalHeapSize) && top < First(r) && top % ALIGNMENT == 0
      requires xDefinedRegions == 0 <==> f == []
      modifies this`pxNextFreeBlock, this`xBlockSize, this`pxEnd
      ensures Strung(Appended(f, top, FirstBlock(r)), Last(r), total)
    {
      var xAlignedHeap, xAddress := Bounds(r);
      Clear(r);
      RegionAligned(r);
      ghost var b := FirstBlock(r);
      if xDefinedRegions == 0 {
        pxNextFreeBlock := pxNextFreeBlock[xStart := xAlignedHeap];
        xBlockSize := xBlockSize[xStart := 0];
      }
      var pxPreviousFreeBlock := pxEnd;
      ghost var next, size := pxNextFreeBlock, xBlockSize;
      pxEnd := xAddress;
      xBlockSize := xBlockSize[pxEnd := 0];
      pxNextFreeBlock := pxNextFreeBlock[pxEnd := NULL];
      xBlockSize := xBlockSize[xAlignedHeap := xAddress - xAlignedHeap];
      pxNextFreeBlock := pxNextFreeBlock[xAlignedHeap := pxEnd];
      if pxPreviousFreeBlock != NULL {
        pxNextFreeBlock := pxNextFreeBlock[pxPreviousFreeBlock := xAlignedHeap];
        AppendsBlock(next, size, f, top, b);
      } else {
        FirstOf(r);
      }
      total := xTotalHeapSize + xBlockSize[xAlignedHeap];
    }

    lemma {:induction false} FirstOf(r: Region)
      requires Large(r)
      ensures Fresh([FirstBlock(r)], Last(r)) && Total([FirstBlock(r)]) == Last(r) - First(r)
    {
      FreshOne(r);
    }

    lemma {:induction false} AppendsBlock(next: Field, size: Field, f: seq<Block>, top: nat, b: Block)
      requires Fresh(f, top) && Aligned(b) && b.size > 0 && top < b.addr && top % ALIGNMENT == 0
      requires Linked(next, size, xStart, f, top) && top in size && size[top] == 0
      requires xStart in size && size[xStart] == 0 && xStart !in {top, b.addr, b.End()}
      requires pxEnd == b.End() && xBlockSize == size[pxEnd := 0][b.addr := b.size]
      requires pxNextFreeBlock == next[pxEnd := NULL][b.addr := pxEnd][top := b.addr]
      ensures Building(f + [Block(top, 0)] + [b], b.End()) && Fresh(f + [Block(top, 0)] + [b], b.End())
      ensures Total(f + [Block(top, 0)] + [b]) == Total(f) + b.size
    {
      FreshAppend(f, b, top);
      TotalThree(f, [Block(top, 0)], [b]);
      LinkAppended(next, size, pxNextFreeBlock, xBlockSize, xStart, f, top, b, b.End());
    }

    /** prvHeapInit() of heap_4.c: one block takes up the aligned part of the heap array, up to pxEnd,
        just as heap_5.c does it for its first region. */
    method HeapInit(ucHeap: nat)
      requires Unset() && Large(Region(ucHeap, TOTAL_HEAP_SIZE)) && Outside([Region(ucHeap, TOTAL_HEAP_SIZE)])
      modifies this
      ensures Valid() && View() == Initial([FirstBlock(Region(ucHeap, TOTAL_HEAP_SIZE))])
      ensures arena == ArenaOf([FirstBlock(Region(ucHeap, TOTAL_HEAP_SIZE))], Last(Region(ucHeap, TOTAL_HEAP_SIZE)))
    {
      ghost var r := Region(ucHeap, TOTAL_HEAP_SIZE);
      assert Strung([], NULL, 0) && Outside([r]);
      var size := AddRegion(Region(ucHeap, TOTAL_HEAP_SIZE), 0, 0, [], NULL);
      xMinimumEverFreeBytesRemaining := size;
      xFreeBytesRemaining := size;
      xBlockAllocatedBit := ALLOCATED_BIT;
      assert Setup([r]) == [FirstBlock(r)];
      Complete([r]);
    }

    /** pvPortMalloc() of heap_4.c, which sets up the heap on its first call. */
    method PortMalloc(ucHeap: nat, n: nat) returns (pvReturn: nat)
      requires n < 0x1_0000_0000 && (Unset() || Valid())
      requires Large(Region(ucHeap, TOTAL_HEAP_SIZE)) && Outside([Region(ucHeap, TOTAL_HEAP_SIZE)])
      modifies this
      ensures Valid()
      ensures old(Valid()) ==> (View(), pvReturn) == Malloc(old(View()), n) && arena == old(arena)
      ensures !old(Valid()) ==>
        (View(), pvReturn) == Malloc(Initial([FirstBlock(Region(ucHeap, TOTAL_HEAP_SIZE))]), n)
    {
      if pxEnd == NULL {
        HeapInit(ucHeap);
      }
      pvReturn := AllocateFrom(n);
    }

    // The regions, and an entry of size 0 after them.
    ghost predicate Terminated(pxHeapRegions: seq<Region>, rs: seq<Region>) {
      && |pxHeapRegions| == |rs| + 1 && pxHeapRegions[|rs|].size == 0
      && forall i :: 0 <= i < |rs| ==> pxHeapRegions[i] == rs[i]
    }

    // `f` and `top` are the list and the end marker made of the first `n` regions.
    ghost predicate UpTo(rs: seq<Region>, n: nat, f: seq<Block>, top: nat)
      requires Proper(rs) && n <= |rs|
    {
      f == Setup(rs[..n]) && top == if n == 0 then NULL else Last(rs[n - 1])
    }

    ghost predicate StrungUpTo(rs: seq<Region>, n: nat, total: int)
      reads this`pxNextFreeBlock, this`xBlockSize, this`pxEnd
    {
      Proper(rs) && Outside(rs) && n <= |rs| && exists f, top :: UpTo(rs, n, f, top) && Strung(f, top, total)
    }

    method AddNext(r: Region, xDefinedRegions: nat, xTotalHeapSize: int, ghost rs: seq<Region>) returns (total: int)
      requires StrungUpTo(rs, xDefinedRegions, xTotalHeapSize) && xDefinedRegions < |rs| && r == rs[xDefinedRegions]
      modifies this`pxNextFreeBlock, this`xBlockSize, this`pxEnd
      ensures StrungUpTo(rs, xDefinedRegions + 1, total)
    {
      ghost var f, top :| UpTo(rs, xDefinedRegions, f, top) && Strung(f, top, xTotalHeapSize);
      NextRegion(rs, xDefinedRegions, f, top);
      total := AddRegion(r, xDefinedRegions, xTotalHeapSize, f, top);
      assert UpTo(rs, xDefinedRegions + 1, Appended(f, top, FirstBlock(r)), Last(r));
    }

    // The loop of vPortDefineHeapRegions(), which stops at an entry of size 0.
    method StringRegions(pxHeapRegions: seq<Region>, ghost rs: seq<Region>) returns (xTotalHeapSize: int)
      requires Unset() && Terminated(pxHeapRegions, rs) && Proper(rs) && Outside(rs)
      modifies this`pxNextFreeBlock, this`xBlockSize, this`pxEnd
      ensures Building(Setup(rs), Last(rs[|rs| - 1])) && xTotalHeapSize == Total(Setup(rs))
    {
      var xDefinedRegions := 0;
      xTotalHeapSize := 0;
      NoneStrung(rs);
      while pxHeapRegions[xDefinedRegions].size > 0
        invariant xDefinedRegions <= |rs| && StrungUpTo(rs, xDefinedRegions, xTotalHeapSize)
        decreases |rs| - xDefinedRegions
      {
        xTotalHeapSize := AddNext(pxHeapRegions[xDefinedRegions], xDefinedRegions, xTotalHeapSize, rs);
        xDefinedRegions := xDefinedRegions + 1;
      }
      AllStrung(rs, xDefinedRegions, xTotalHeapSize);
    }

    /** vPortDefineHeapRegions() of heap_5.c: the regions are strung together in one list, with the
        end marker of each but the last staying in it. */
    method DefineHeapRegions(pxHeapRegions: seq<Region>, ghost rs: seq<Region>)
      requires Unset() && Terminated(pxHeapRegions, rs) && Proper(rs) && Outside(rs)
      modifies this
      ensures Valid() && View() == Initial(Setup(rs)) && arena == ArenaOf(Setup(rs), Last(rs[|rs| - 1]))
    {
      var xTotalHeapSize := StringRegions(pxHeapRegions, rs);
      xMinimumEverFreeBytesRemaining := xTotalHeapSize;
      xFreeBytesRemaining := xTotalHeapSize;
      xBlockAllocatedBit := ALLOCATED_BIT;
      Complete(rs);
    }

    lemma {:induction false} NoneStrung(rs: seq<Region>)
      requires Proper(rs) && Outside(rs) && pxEnd == NULL
      ensures StrungUpTo(rs, 0, 0)
    {
      assert UpTo(rs, 0, [], NULL) && Strung([], NULL, 0);
    }

    lemma {:induction false} AllStrung(rs: seq<Region>, n: nat, total: int)
      requires StrungUpTo(rs, n, total) && (n < |rs| ==> rs[n].size == 0)
      ensures Building(Setup(rs), Last(rs[|rs| - 1])) && total == Total(Setup(rs))
    {
      assert n < |rs| ==> Large(rs[n]);
      assert rs[..|rs|] == rs;
    }

    lemma {:induction false} NextRegion(rs: seq<Region>, n: nat, f: seq<Block>, top: nat)
      requires Proper(rs) && Outside(rs) && n < |rs| && UpTo(rs, n, f, top)
      ensures var r := rs[n];
        && Large(r) && Outside([r]) && top < First(r) && top % ALIGNMENT == 0 && (n == 0 <==> f == [])
        && UpTo(rs, n + 1, Appended(f, top, FirstBlock(r)), Last(r))
    {
      assert rs[n] in rs && Large(rs[n]);
      if n > 0 {
        RegionAligned(rs[n - 1]);
      }
      NextSetup(rs, n);
    }

    lemma {:induction false} NextSetup(rs: seq<Region>, n: nat)
      requires Proper(rs) && n < |rs|
      ensures n == 0 ==> Setup(rs[..1]) == [FirstBlock(rs[0])]
      ensures n > 0 ==>
        Setup(rs[..n]) != [] && Setup(rs[..n + 1]) == Appended(Setup(rs[..n]), Last(rs[n - 1]), FirstBlock(rs[n]))
    {
      assert rs[..n + 1] == rs[..n] + [rs[n]];
      if n > 0 {
        SetupSnoc(rs[..n], rs[n]);
      }
    }
  }
}
