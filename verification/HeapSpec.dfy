/** What the coalescing allocators promise: the free list is determined by the allocated blocks. */
module HeapSpec {
  import opened Basics
  import opened HeapBlocks

  // xBlockAllocatedBit: the top bit of a size.
  const ALLOCATED_BIT := 0x8000_0000

  // `alloc` maps the header address of each allocated block to its size.
  datatype Heap = Heap(free: seq<Block>, alloc: map<nat, nat>, freeBytes: int, minimumEver: int)

  // The bytes the allocator manages, and the addresses of the inner end markers.
  datatype Arena = Arena(bytes: set<nat>, markers: set<nat>)

  function RoundUp(x: nat): (r: nat)
    ensures r % ALIGNMENT == 0 && x <= r < x + ALIGNMENT
  {
    if x % ALIGNMENT != 0 then x + (ALIGNMENT - x % ALIGNMENT) else x
  }

  // The block size a request needs.
  function Wanted(n: nat): nat {
    if n > 0 then RoundUp(n + HEADER) else 0
  }

  function Given(b: Block, wanted: nat): nat {
    if Splits(b, wanted) then wanted else b.size
  }

  // The free list after block `i` was taken for a request.
  function Rest(f: seq<Block>, i: nat, wanted: nat): seq<Block>
    requires i < |f| && f[i].size >= wanted
  {
    if Splits(f[i], wanted) then Insert(Without(f, i), Tail(f[i], wanted)) else Without(f, i)
  }

  function Take(h: Heap, i: nat, wanted: nat): Heap
    requires i < |h.free| && h.free[i].size >= wanted
  {
    var given := Given(h.free[i], wanted);
    Heap(Rest(h.free, i, wanted), h.alloc[h.free[i].addr := given], h.freeBytes - given,
         Min(h.minimumEver, h.freeBytes - given))
  }

  // The result is NULL (0) or the address after the header.
  function TakeFirst(h: Heap, wanted: nat): (Heap, nat) {
    var i := FirstFit(h.free, wanted);
    if i == |h.free| then (h, 0) else (Take(h, i, wanted), h.free[i].addr + HEADER)
  }

  // pvPortMalloc() of an initialised heap.
  function Malloc(h: Heap, n: nat): (Heap, nat) {
    var wanted := Wanted(n);
    if n >= ALLOCATED_BIT || wanted == 0 || wanted > h.freeBytes then (h, 0) else TakeFirst(h, wanted)
  }

  // vPortFree(): NULL and blocks that are not allocated are left alone.
  function Free(h: Heap, p: nat): Heap {
    if p >= HEADER && p - HEADER in h.alloc then
      var a := p - HEADER;
      h.(free := Insert(h.free, Block(a, h.alloc[a])), alloc := h.alloc - {a},
         freeBytes := h.freeBytes + h.alloc[a])
    else h
  }

  // ---- the invariant ----

  ghost predicate Taken(alloc: map<nat, nat>, x: nat) {
    exists a: nat :: a in alloc && a <= x < a + alloc[a]
  }

  ghost predicate Within(arena: Arena, addr: nat, size: nat) {
    forall x: nat :: addr <= x < addr + size ==> x in arena.bytes
  }

  // Sizes leave the top bit of a 32-bit word free, to mark who owns a block.
  ghost predicate GoodArena(arena: Arena) {
    && arena.bytes !! arena.markers
    && forall a: nat, size: nat :: Within(arena, a, size) ==> size < ALLOCATED_BIT
  }

  ghost predicate GoodBlock(b: Block, arena: Arena) {
    b.addr % ALIGNMENT == 0 && b.size % ALIGNMENT == 0 && (b.size == 0 ==> b.addr in arena.markers)
  }

  ghost predicate GoodList(f: seq<Block>, arena: Arena) {
    Ordered(f) && Apart(f) && forall i :: 0 <= i < |f| ==> GoodBlock(f[i], arena)
  }

  ghost predicate GoodAlloc(alloc: map<nat, nat>, arena: Arena) {
    && (forall a :: a in alloc ==> a % ALIGNMENT == 0 && 0 < alloc[a] && alloc[a] % ALIGNMENT == 0)
    && (forall a :: a in alloc ==> Within(arena, a, alloc[a]))
    && (forall a, b :: a in alloc && b in alloc && a < b ==> a + alloc[a] <= b)
  }

  /** Free and allocated blocks tile the managed bytes, and the free ones are listed in address
      order without two touching. */
  ghost predicate Inv(h: Heap, arena: Arena) {
    && GoodArena(arena)
    && GoodList(h.free, arena)
    && GoodAlloc(h.alloc, arena)
    && (forall x: nat :: Covers(h.free, x) <==> x in arena.bytes && !Taken(h.alloc, x))
    && h.freeBytes == Total(h.free)
    && h.minimumEver <= h.freeBytes
  }

  // A free block lies in the managed bytes.
  lemma {:induction false} FreeInside(h: Heap, arena: Arena, i: nat, x: nat)
    requires Inv(h, arena) && i < |h.free| && h.free[i].addr <= x < h.free[i].End()
    ensures x in arena.bytes && !Taken(h.alloc, x)
  {
    assert Covers(h.free, x);
  }

  // ---- removing a block from the list ----

  lemma {:induction false} WithoutOrdered(f: seq<Block>, i: nat)
    requires Ordered(f) && Apart(f) && i < |f| && f[i].size > 0
    ensures Ordered(Without(f, i)) && Apart(Without(f, i))
  {
    var g := Without(f, i);
    assert forall j :: 0 <= j < |g| ==> g[j] == f[if j < i then j else j + 1];
  }

  lemma {:induction false} WithoutCovers(f: seq<Block>, i: nat, x: int)
    requires Ordered(f) && i < |f|
    ensures Covers(Without(f, i), x) <==> Covers(f, x) && !Holds(f[i], x)
  {
    CoversSplit(f, i, i + 1, x);
    assert f[i..i + 1] == [f[i]];
    CoversOne(f[i], x);
    CoversAppend(f[..i], f[i + 1..], x);
  }

  // ---- every operation keeps the invariant ----

  // The bytes of `b` are managed and not free, so it can join the list.
  lemma {:induction false} FitsFree(f: seq<Block>, b: Block, arena: Arena)
    requires arena.bytes !! arena.markers && b.size > 0 && Within(arena, b.addr, b.size)
    requires forall i :: 0 <= i < |f| ==> GoodBlock(f[i], arena)
    requires forall x: nat :: Holds(b, x) ==> !Covers(f, x)
    ensures Fits(f, b)
  {
    forall i | 0 <= i < |f|
      ensures f[i].addr != b.addr && (f[i].End() <= b.addr || b.End() <= f[i].addr)
    {
      var x := if f[i].addr < b.addr then b.addr else f[i].addr;
      assert f[i].addr <= x < f[i].End() ==> Covers(f, x);
      var y := f[i].addr;
      assert Holds(b, y) ==> y in arena.bytes;
    }
  }

  lemma {:induction false} TakenFresh(h: Heap, arena: Arena, i: nat)
    requires Inv(h, arena) && i < |h.free| && h.free[i].size > 0
    ensures h.free[i].addr !in h.alloc
  {
    var a: nat := h.free[i].addr;
    FreeInside(h, arena, i, a);
  }

  lemma {:induction false} TakenAdd(alloc: map<nat, nat>, a: nat, size: nat, x: nat)
    requires a !in alloc
    ensures Taken(alloc[a := size], x) <==> Taken(alloc, x) || a <= x < a + size
  {
    var m := alloc[a := size];
    if Taken(alloc, x) {
      var c: nat :| c in alloc && c <= x < c + alloc[c];
      assert c in m && c <= x < c + m[c];
    }
    if a <= x < a + size {
      assert a in m && a <= x < a + m[a];
    }
  }

  // The allocated blocks after a block was carved out of free block `i`.
  lemma {:induction false} AllocAdd(h: Heap, arena: Arena, i: nat, given: nat)
    requires Inv(h, arena) && i < |h.free| && 0 < given <= h.free[i].size && given % ALIGNMENT == 0
    ensures GoodAlloc(h.alloc[h.free[i].addr := given], arena)
  {
    var a: nat := h.free[i].addr;
    TakenFresh(h, arena, i);
    forall x: nat | a <= x < a + given
      ensures x in arena.bytes && !Taken(h.alloc, x)
    {
      FreeInside(h, arena, i, x);
    }
    forall c | c in h.alloc
      ensures c < a ==> c + h.alloc[c] <= a
      ensures a < c ==> a + given <= c
    {
      assert c <= a < c + h.alloc[c] ==> Taken(h.alloc, a);
      assert c <= c < c + h.alloc[c] ==> Taken(h.alloc, c);
    }
  }

  lemma {:induction false} RestKept(f: seq<Block>, i: nat, arena: Arena)
    requires GoodList(f, arena) && i < |f| && f[i].size > 0
    ensures GoodList(Without(f, i), arena) && Total(Without(f, i)) == Total(f) - f[i].size
  {
    var rest := Without(f, i);
    WithoutOrdered(f, i);
    WithoutTotal(f, i);
    assert forall j :: 0 <= j < |rest| ==> rest[j] == f[if j < i then j else j + 1];
  }

  // Taking a block removes exactly the bytes that are handed out.
  lemma {:induction false} TakeCovers(f: seq<Block>, i: nat, wanted: nat, x: int)
    requires Ordered(f) && i < |f| && 0 < wanted <= f[i].size
    ensures Covers(Rest(f, i, wanted), x)
       <==> Covers(f, x) && !(f[i].addr <= x < f[i].addr + Given(f[i], wanted))
  {
    WithoutCovers(f, i, x);
    assert Holds(f[i], x) ==> Covers(f, x);
    if Splits(f[i], wanted) {
      InsertCovers(Without(f, i), Tail(f[i], wanted), x);
    }
  }

  lemma {:induction false} TailGood(b: Block, arena: Arena, wanted: nat)
    requires GoodBlock(b, arena) && wanted % ALIGNMENT == 0 && wanted < b.size
    ensures GoodBlock(Tail(b, wanted), arena)
  {
  }

  // The free list after block `i` was taken and its tail, if worth keeping, put back.
  lemma {:induction false} TakeFree(h: Heap, arena: Arena, i: nat, wanted: nat)
    requires Inv(h, arena) && i < |h.free| && 0 < wanted <= h.free[i].size && wanted % ALIGNMENT == 0
    ensures GoodList(Rest(h.free, i, wanted), arena)
    ensures Total(Rest(h.free, i, wanted)) == Total(h.free) - Given(h.free[i], wanted)
  {
    RestKept(h.free, i, arena);
    if Splits(h.free[i], wanted) {
      var r := Tail(h.free[i], wanted);
      TailGood(h.free[i], arena, wanted);
      InsertKept(Without(h.free, i), r, arena);
    }
  }

  // The list invariants survive an insertion.
  lemma {:induction false} InsertKept(f: seq<Block>, b: Block, arena: Arena)
    requires GoodArena(arena) && GoodList(f, arena)
    requires b.size > 0 && GoodBlock(b, arena) && Within(arena, b.addr, b.size)
    requires forall x: nat :: Holds(b, x) ==> !Covers(f, x)
    ensures GoodList(Insert(f, b), arena) && Total(Insert(f, b)) == Total(f) + b.size
  {
    FitsFree(f, b, arena);
    InsertOrdered(f, b);
    InsertTotal(f, b);
    InsertGood(f, b, arena);
  }

  lemma {:induction false} InsertGood(f: seq<Block>, b: Block, arena: Arena)
    requires b.size > 0 && GoodBlock(b, arena)
    requires forall i :: 0 <= i < |f| ==> GoodBlock(f[i], arena)
    ensures forall i :: 0 <= i < |Insert(f, b)| ==> GoodBlock(Insert(f, b)[i], arena)
  {
    var s := SpliceAt(f, b, Position(f, b.addr));
    MergedGood(f, b, Position(f, b.addr), arena);
    SplicedGood(f, s, arena);
  }

  lemma {:induction false} MergedGood(f: seq<Block>, b: Block, k: nat, arena: Arena)
    requires b.size > 0 && GoodBlock(b, arena) && k <= |f|
    requires forall i :: 0 <= i < |f| ==> GoodBlock(f[i], arena)
    ensures GoodBlock(SpliceAt(f, b, k).merged, arena)
  {
    assert k > 0 ==> GoodBlock(f[k - 1], arena);
    assert k < |f| ==> GoodBlock(f[k], arena);
    forall x: nat, y: nat | x % ALIGNMENT == 0 && y % ALIGNMENT == 0
      ensures (x + y) % ALIGNMENT == 0
    {
    }
    var left := if k > 0 && f[k - 1].End() == b.addr then Block(f[k - 1].addr, f[k - 1].size + b.size) else b;
    assert left.addr % ALIGNMENT == 0 && left.size % ALIGNMENT == 0;
  }

  lemma {:induction false} SplicedGood(f: seq<Block>, s: Splice, arena: Arena)
    requires s.before <= s.after <= |f| && GoodBlock(s.merged, arena)
    requires forall i :: 0 <= i < |f| ==> GoodBlock(f[i], arena)
    ensures forall i :: 0 <= i < |Spliced(f, s)| ==> GoodBlock(Spliced(f, s)[i], arena)
  {
    var g := Spliced(f, s);
    forall i | 0 <= i < |g|
      ensures g[i] == s.merged || exists j :: 0 <= j < |f| && g[i] == f[j]
    {
      assert g[i] == if i < s.before then f[i] else if i == s.before then s.merged
                     else f[i - s.before - 1 + s.after];
    }
  }

  lemma {:induction false} TakeKept(h: Heap, arena: Arena, i: nat, wanted: nat)
    requires Inv(h, arena) && i < |h.free| && 0 < wanted <= h.free[i].size && wanted % ALIGNMENT == 0
    ensures Inv(Take(h, i, wanted), arena)
  {
    var a: nat := h.free[i].addr;
    var h' := Take(h, i, wanted);
    var given := Given(h.free[i], wanted);
    TakeFree(h, arena, i, wanted);
    TakenFresh(h, arena, i);
    AllocAdd(h, arena, i, given);
    forall x: nat
      ensures Covers(h'.free, x) <==> x in arena.bytes && !Taken(h'.alloc, x)
    {
      TakeCovers(h.free, i, wanted, x);
      TakenAdd(h.alloc, a, given, x);
    }
  }

  lemma {:induction false} MallocKept(h: Heap, arena: Arena, n: nat)
    requires Inv(h, arena)
    ensures Inv(Malloc(h, n).0, arena)
  {
    var (h', p) := Malloc(h, n);
    if p != 0 {
      TakeKept(h, arena, FirstFit(h.free, Wanted(n)), Wanted(n));
    }
  }

  lemma {:induction false} TakenRemove(alloc: map<nat, nat>, arena: Arena, a: nat, x: nat)
    requires GoodAlloc(alloc, arena) && a in alloc
    ensures Taken(alloc - {a}, x) <==> Taken(alloc, x) && !(a <= x < a + alloc[a])
  {
    var m: map<nat, nat> := alloc - {a};
    if Taken(m, x) {
      var c: nat :| c in m && c <= x < c + m[c];
      assert c in alloc && c <= x < c + alloc[c];
    }
    if Taken(alloc, x) && !(a <= x < a + alloc[a]) {
      var c: nat :| c in alloc && c <= x < c + alloc[c];
      assert c in m && c <= x < c + m[c];
    }
  }

  lemma {:induction false} FreeKept(h: Heap, arena: Arena, p: nat)
    requires Inv(h, arena)
    ensures Inv(Free(h, p), arena)
  {
    if p >= HEADER && p - HEADER in h.alloc {
      var a := p - HEADER;
      var b := Block(a, h.alloc[a]);
      forall x: nat
        ensures Holds(b, x) ==> Taken(h.alloc, x)
        ensures Taken(h.alloc - {a}, x) <==> Taken(h.alloc, x) && !Holds(b, x)
        ensures Covers(Insert(h.free, b), x) <==> Covers(h.free, x) || Holds(b, x)
      {
        TakenRemove(h.alloc, arena, a, x);
        InsertCovers(h.free, b, x);
      }
      InsertKept(h.free, b, arena);
    }
  }
}
