/** heap_2.c: a free list in the order of sizes, best fit, and no merging. */
module BestFitSpec {
  import opened HeapBlocks

  // configADJUSTED_HEAP_SIZE, and the range of size_t.
  const ADJUSTED := TOTAL_HEAP_SIZE - ALIGNMENT
  const SIZES := 0x1_0000_0000

  // The free list in the order of sizes, the allocated blocks by address, the free count, and all
  // blocks - free and allocated - in the order of addresses.
  datatype Pool = Pool(free: seq<Block>, alloc: map<nat, nat>, freeBytes: int, blocks: seq<Block>)

  // The aligned start of the heap array: what is lost before it leaves the adjusted size.
  function AlignedHeap(ucHeap: nat): (r: nat)
    ensures r % ALIGNMENT == 0 && ucHeap < r && r + ADJUSTED <= ucHeap + TOTAL_HEAP_SIZE
  {
    (ucHeap + ALIGNMENT) / ALIGNMENT * ALIGNMENT
  }

  // The size a request needs, in the arithmetic of size_t.
  function Wanted(n: nat): nat {
    if n == 0 then 0
    else
      var w := (n + HEADER) % SIZES;
      if w % ALIGNMENT != 0 then (w + (ALIGNMENT - w % ALIGNMENT)) % SIZES else w
  }

  function Spread(f: seq<Block>, k: nat, b: Block): seq<Block>
    requires k <= |f|
  {
    f[..k] + [b] + f[k..]
  }

  // prvInsertBlockIntoFreeList.
  function Enlist(f: seq<Block>, b: Block): seq<Block> { Spread(f, FirstFit(f, b.size), b) }

  function Given(b: Block, wanted: nat): Block { Block(b.addr, if Splits(b, wanted) then wanted else b.size) }

  // Block `b` cut in two.
  function Cut(blocks: seq<Block>, b: Block, wanted: nat): seq<Block>
    requires wanted <= b.size
  {
    if blocks == [] then []
    else if blocks[0] == b then [Block(b.addr, wanted), Tail(b, wanted)] + blocks[1..]
    else [blocks[0]] + Cut(blocks[1..], b, wanted)
  }

  // Block `k` of the free list is taken for a request.
  function Take(h: Pool, k: nat, wanted: nat): Pool
    requires k < |h.free| && wanted <= h.free[k].size
  {
    var b := h.free[k];
    var given := Given(b, wanted);
    var rest := Without(h.free, k);
    Pool(if Splits(b, wanted) then Enlist(rest, Tail(b, wanted)) else rest, h.alloc[b.addr := given.size],
         h.freeBytes - given.size, if Splits(b, wanted) then Cut(h.blocks, b, wanted) else h.blocks)
  }

  // The result is NULL (0) or the address after the header.
  function TakeFirst(h: Pool, wanted: nat): (Pool, nat) {
    var k := FirstFit(h.free, wanted);
    if k == |h.free| then (h, 0) else (Take(h, k, wanted), h.free[k].addr + HEADER)
  }

  // pvPortMalloc() of an initialised heap.
  function Malloc(h: Pool, n: nat): (Pool, nat) {
    var wanted := Wanted(n);
    if wanted == 0 || wanted >= ADJUSTED then (h, 0) else TakeFirst(h, wanted)
  }

  // vPortFree() of NULL or of an allocated block.
  function Free(h: Pool, p: nat): Pool
    requires p != 0 ==> p >= HEADER && p - HEADER in h.alloc
  {
    if p == 0 then h
    else
      var a := p - HEADER;
      Pool(Enlist(h.free, Block(a, h.alloc[a])), h.alloc - {a}, h.freeBytes + h.alloc[a], h.blocks)
  }

  // ---- the invariant ----

  ghost predicate SortedBySize(f: seq<Block>) { forall i, j :: 0 <= i < j < |f| ==> f[i].size <= f[j].size }

  ghost predicate Distinct(f: seq<Block>) { forall i, j :: 0 <= i < j < |f| ==> f[i].addr != f[j].addr }

  // The blocks lie one behind the other, from `from` to `to`.
  ghost predicate Tiles(blocks: seq<Block>, from: nat, to: nat) {
    if blocks == [] then from == to
    else blocks[0].addr == from && blocks[0].size > 0 && Tiles(blocks[1..], blocks[0].End(), to)
  }

  ghost predicate InUse(alloc: map<nat, nat>, b: Block) { b.addr in alloc && alloc[b.addr] == b.size }

  // A pool over the bytes from `base` on.
  ghost predicate Inv(h: Pool, base: nat) {
    && SortedBySize(h.free) && Distinct(h.free) && Tiles(h.blocks, base, base + ADJUSTED)
    && (forall b :: b in h.blocks <==> b in h.free || InUse(h.alloc, b))
    && (forall b :: b in h.free ==> b.addr !in h.alloc)
    && (forall b :: b in h.blocks ==> b.addr % ALIGNMENT == 0 && b.size % ALIGNMENT == 0)
    && h.freeBytes == Total(h.free)
  }
}
