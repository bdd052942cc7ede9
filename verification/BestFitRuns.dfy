/** What heap_2.c promises: best fit, a partition that only gets finer, and a bound on the splits. */
module BestFitRuns {
  import opened HeapBlocks
  import opened BestFitSpec

  // ---- the order of sizes ----

  lemma {:induction false} SpreadAt(f: seq<Block>, k: nat, b: Block)
    requires k <= |f|
    ensures var g := Spread(f, k, b);
      && |g| == |f| + 1 && (forall i :: 0 <= i < |g| ==> g[i] == if i < k then f[i] else if i == k then b else f[i - 1])
      && forall c :: c in g <==> c == b || c in f
  {
    var g := Spread(f, k, b);
    forall c | c in f
      ensures c in g
    {
      var i :| 0 <= i < |f| && f[i] == c;
      assert g[if i < k then i else i + 1] == c;
    }
    assert g[k] == b;
  }

  lemma {:induction false} WithoutAt(f: seq<Block>, k: nat)
    requires k < |f| && Distinct(f)
    ensures var g := Without(f, k);
      && |g| == |f| - 1 && (forall i :: 0 <= i < |g| ==> g[i] == f[if i < k then i else i + 1])
      && forall c :: c in g <==> c in f && c != f[k]
  {
    var g := Without(f, k);
    assert forall i :: 0 <= i < |g| ==> g[i] == f[if i < k then i else i + 1];
    forall c | c in f && c != f[k]
      ensures c in g
    {
      var i :| 0 <= i < |f| && f[i] == c;
      assert g[if i < k then i else i - 1] == c;
    }
    forall c | c in g
      ensures c in f && c != f[k]
    {
      var i :| 0 <= i < |g| && g[i] == c;
      assert f[if i < k then i else i + 1] == c;
    }
  }

  lemma {:induction false} SpreadTotal(f: seq<Block>, k: nat, b: Block)
    requires k <= |f|
    ensures Total(Spread(f, k, b)) == Total(f) + b.size
  {
    TotalThree(f[..k], [b], f[k..]);
    TotalAppend(f[..k], f[k..]);
    assert f == f[..k] + f[k..];
  }

  lemma {:induction false} InsertSorted(f: seq<Block>, b: Block)
    requires SortedBySize(f) && Distinct(f) && forall c :: c in f ==> c.addr != b.addr
    ensures SortedBySize(Enlist(f, b)) && Distinct(Enlist(f, b))
  {
    SpreadAt(f, FirstFit(f, b.size), b);
  }

  lemma {:induction false} WithoutSorted(f: seq<Block>, k: nat)
    requires SortedBySize(f) && Distinct(f) && k < |f|
    ensures SortedBySize(Without(f, k)) && Distinct(Without(f, k))
  {
    WithoutAt(f, k);
  }

  /** Best fit: a request that is not too large succeeds exactly when some free block is big enough, and
      gets one of the smallest of those. */
  lemma {:induction false} BestFit(h: Pool, base: nat, n: nat)
    requires Inv(h, base) && 0 < Wanted(n) < ADJUSTED
    ensures var p := Malloc(h, n).1;
      && (p != 0 <==> exists b :: b in h.free && b.size >= Wanted(n))
      && (p != 0 ==> exists b :: b in h.free && b.addr + HEADER == p && b.size >= Wanted(n)
                                 && forall c :: c in h.free && c.size >= Wanted(n) ==> b.size <= c.size)
  {
    var k := FirstFit(h.free, Wanted(n));
    if k < |h.free| {
      var b := h.free[k];
      assert b in h.free;
      forall c | c in h.free && c.size >= Wanted(n)
        ensures b.size <= c.size
      {
        var i :| 0 <= i < |h.free| && h.free[i] == c;
        assert i >= k;
      }
    }
  }

  // ---- the partition ----

  lemma {:induction false} TilesInside(blocks: seq<Block>, from: nat, to: nat, b: Block)
    requires Tiles(blocks, from, to) && b in blocks
    ensures from <= b.addr && b.End() <= to && b.size > 0
    decreases |blocks|
  {
    TilesAscend(blocks, from, to);
    if b != blocks[0] {
      TilesInside(blocks[1..], blocks[0].End(), to, b);
    }
  }

  lemma {:induction false} TilesAscend(blocks: seq<Block>, from: nat, to: nat)
    requires Tiles(blocks, from, to)
    ensures from <= to && (blocks != [] ==> blocks[0].End() <= to)
    decreases |blocks|
  {
    if blocks != [] {
      TilesAscend(blocks[1..], blocks[0].End(), to);
    }
  }

  // A byte belongs to one block.
  lemma {:induction false} TilesUnique(blocks: seq<Block>, from: nat, to: nat, b: Block, c: Block)
    requires Tiles(blocks, from, to) && b in blocks && c in blocks && b != c
    ensures b.End() <= c.addr || c.End() <= b.addr
    decreases |blocks|
  {
    if b == blocks[0] {
      TilesInside(blocks[1..], blocks[0].End(), to, c);
    } else if c == blocks[0] {
      TilesInside(blocks[1..], blocks[0].End(), to, b);
    } else {
      TilesUnique(blocks[1..], blocks[0].End(), to, b, c);
    }
  }

  // Cutting a block leaves the others where they are.
  lemma {:induction false} CutTiles(blocks: seq<Block>, from: nat, to: nat, b: Block, wanted: nat)
    requires Tiles(blocks, from, to) && 0 < wanted < b.size
    ensures Tiles(Cut(blocks, b, wanted), from, to)
    ensures |Cut(blocks, b, wanted)| == |blocks| + if b in blocks then 1 else 0
    decreases |blocks|
  {
    if blocks != [] {
      var cut := Cut(blocks, b, wanted);
      if blocks[0] == b {
        var tail := Tail(b, wanted);
        assert cut[1..] == [tail] + blocks[1..] && ([tail] + blocks[1..])[1..] == blocks[1..];
      } else {
        CutTiles(blocks[1..], blocks[0].End(), to, b, wanted);
        assert cut[1..] == Cut(blocks[1..], b, wanted);
      }
    }
  }

  lemma {:induction false} CutMembers(blocks: seq<Block>, from: nat, to: nat, b: Block, wanted: nat, c: Block)
    requires Tiles(blocks, from, to) && b in blocks && 0 < wanted < b.size
    ensures c in Cut(blocks, b, wanted) <==>
      (c in blocks && c != b) || c == Block(b.addr, wanted) || c == Tail(b, wanted)
    decreases |blocks|
  {
    var cut := Cut(blocks, b, wanted);
    if blocks[0] == b {
      assert b !in blocks[1..] by {
        if b in blocks[1..] {
          TilesInside(blocks[1..], b.End(), to, b);
        }
      }
      assert cut == [Block(b.addr, wanted), Tail(b, wanted)] + blocks[1..];
      assert blocks == [b] + blocks[1..];
    } else {
      CutMembers(blocks[1..], blocks[0].End(), to, b, wanted, c);
      assert cut == [blocks[0]] + Cut(blocks[1..], b, wanted);
      assert blocks == [blocks[0]] + blocks[1..];
    }
  }

  // ---- every operation keeps the invariant ----

  lemma {:induction false} WantedAligned(n: nat)
    ensures Wanted(n) % ALIGNMENT == 0
  {
  }

  lemma {:induction false} PartsAligned(b: Block, wanted: nat)
    requires b.addr % ALIGNMENT == 0 && b.size % ALIGNMENT == 0 && wanted % ALIGNMENT == 0 && wanted <= b.size
    ensures Tail(b, wanted).addr % ALIGNMENT == 0 && Tail(b, wanted).size % ALIGNMENT == 0
  {
  }

  // A block that starts inside another is that block.
  lemma {:induction false} SameAddress(h: Pool, base: nat, b: Block, c: Block)
    requires Inv(h, base) && b in h.blocks && c in h.blocks && b.addr <= c.addr < b.End()
    ensures b == c
  {
    TilesInside(h.blocks, base, base + ADJUSTED, c);
    if b != c {
      TilesUnique(h.blocks, base, base + ADJUSTED, b, c);
    }
  }

  // No other block starts where the tail does.
  lemma {:induction false} TailApart(h: Pool, base: nat, b: Block, c: Block, wanted: nat)
    requires Inv(h, base) && b in h.free && c in h.free && b != c && 0 < wanted < b.size
    ensures c.addr != b.addr + wanted
  {
    assert b in h.blocks && c in h.blocks;
    TilesUnique(h.blocks, base, base + ADJUSTED, b, c);
    TilesInside(h.blocks, base, base + ADJUSTED, c);
  }

  // What is in the list once block `k` was taken.
  lemma {:induction false} TakeList(h: Pool, base: nat, k: nat, wanted: nat)
    requires Inv(h, base) && k < |h.free| && 0 < wanted <= h.free[k].size && wanted % ALIGNMENT == 0
    ensures var (b, f) := (h.free[k], Take(h, k, wanted).free);
      && SortedBySize(f) && Distinct(f) && Total(f) == Total(h.free) - Given(b, wanted).size
      && (forall c :: c in f <==> (c in h.free && c != b) || (Splits(b, wanted) && c == Tail(b, wanted)))
  {
    var b := h.free[k];
    var rest := Without(h.free, k);
    WithoutSorted(h.free, k);
    WithoutAt(h.free, k);
    WithoutTotal(h.free, k);
    if Splits(b, wanted) {
      var tail := Tail(b, wanted);
      forall c | c in rest
        ensures c.addr != tail.addr
      {
        TailApart(h, base, b, c, wanted);
      }
      InsertSorted(rest, tail);
      SpreadAt(rest, FirstFit(rest, tail.size), tail);
      SpreadTotal(rest, FirstFit(rest, tail.size), tail);
    }
  }

  lemma {:induction false} InUseAdd(alloc: map<nat, nat>, a: nat, size: nat, c: Block)
    requires a !in alloc
    ensures InUse(alloc[a := size], c) <==> InUse(alloc, c) || c == Block(a, size)
  {
  }

  lemma {:induction false} TakeBlocks(h: Pool, base: nat, k: nat, wanted: nat)
    requires Inv(h, base) && k < |h.free| && 0 < wanted <= h.free[k].size && wanted % ALIGNMENT == 0
    ensures var (b, h') := (h.free[k], Take(h, k, wanted));
      && Tiles(h'.blocks, base, base + ADJUSTED)
      && (forall c :: c in h'.blocks <==>
            (c in h.blocks && c != b) || c == Given(b, wanted) || (Splits(b, wanted) && c == Tail(b, wanted)))
      && |h'.blocks| == |h.blocks| + if Splits(b, wanted) then 1 else 0
  {
    var b := h.free[k];
    assert b in h.free && b in h.blocks;
    if Splits(b, wanted) {
      CutTiles(h.blocks, base, base + ADJUSTED, b, wanted);
      forall c
        ensures c in Cut(h.blocks, b, wanted) <==>
          (c in h.blocks && c != b) || c == Block(b.addr, wanted) || c == Tail(b, wanted)
      {
        CutMembers(h.blocks, base, base + ADJUSTED, b, wanted, c);
      }
    } else {
      assert Given(b, wanted) == b;
    }
  }

  lemma {:induction false} TakeMember(h: Pool, base: nat, k: nat, wanted: nat, c: Block)
    requires Inv(h, base) && k < |h.free| && 0 < wanted <= h.free[k].size && wanted % ALIGNMENT == 0
    ensures var h' := Take(h, k, wanted); c in h'.blocks <==> c in h'.free || InUse(h'.alloc, c)
  {
    var b := h.free[k];
    assert b in h.free && b in h.blocks && b.addr !in h.alloc;
    TakeList(h, base, k, wanted);
    TakeBlocks(h, base, k, wanted);
    InUseAdd(h.alloc, b.addr, Given(b, wanted).size, c);
  }

  lemma {:induction false} TakeListed(h: Pool, base: nat, k: nat, wanted: nat, c: Block)
    requires Inv(h, base) && k < |h.free| && 0 < wanted <= h.free[k].size && wanted % ALIGNMENT == 0
    ensures var b := h.free[k];
      c in Take(h, k, wanted).free <==> (c in h.free && c != b) || (Splits(b, wanted) && c == Tail(b, wanted))
  {
    TakeList(h, base, k, wanted);
  }

  lemma {:induction false} TakeApart(h: Pool, base: nat, k: nat, wanted: nat, c: Block)
    requires Inv(h, base) && k < |h.free| && 0 < wanted <= h.free[k].size && wanted % ALIGNMENT == 0
    ensures var h' := Take(h, k, wanted); c in h'.free ==> c.addr !in h'.alloc
  {
    var b := h.free[k];
    assert b in h.free && b in h.blocks;
    TakeListed(h, base, k, wanted, c);
    TailUnused(h, base, k, wanted);
  }

  lemma {:induction false} TakeShape(h: Pool, base: nat, k: nat, wanted: nat)
    requires Inv(h, base) && k < |h.free| && 0 < wanted <= h.free[k].size && wanted % ALIGNMENT == 0
    ensures var h' := Take(h, k, wanted);
      && SortedBySize(h'.free) && Distinct(h'.free) && h'.freeBytes == Total(h'.free)
      && Tiles(h'.blocks, base, base + ADJUSTED)
  {
    TakeList(h, base, k, wanted);
    TakeBlocks(h, base, k, wanted);
  }

  lemma {:induction false} TakeAligned(h: Pool, base: nat, k: nat, wanted: nat, c: Block)
    requires Inv(h, base) && k < |h.free| && 0 < wanted <= h.free[k].size && wanted % ALIGNMENT == 0
    requires c in Take(h, k, wanted).blocks
    ensures c.addr % ALIGNMENT == 0 && c.size % ALIGNMENT == 0
  {
    var b := h.free[k];
    assert b in h.free && b in h.blocks;
    TakeBlocks(h, base, k, wanted);
    PartsAligned(b, wanted);
  }

  lemma {:induction false} TakeKept(h: Pool, base: nat, k: nat, wanted: nat)
    requires Inv(h, base) && k < |h.free| && 0 < wanted <= h.free[k].size && wanted % ALIGNMENT == 0
    ensures Inv(Take(h, k, wanted), base)
  {
    var h' := Take(h, k, wanted);
    TakeShape(h, base, k, wanted);
    forall c
      ensures c in h'.blocks <==> c in h'.free || InUse(h'.alloc, c)
    {
      TakeMember(h, base, k, wanted, c);
    }
    forall c | c in h'.free
      ensures c.addr !in h'.alloc
    {
      TakeApart(h, base, k, wanted, c);
    }
    forall c | c in h'.blocks
      ensures c.addr % ALIGNMENT == 0 && c.size % ALIGNMENT == 0
    {
      TakeAligned(h, base, k, wanted, c);
    }
  }

  // No allocated block starts where the tail does.
  lemma {:induction false} TailUnused(h: Pool, base: nat, k: nat, wanted: nat)
    requires Inv(h, base) && k < |h.free| && 0 < wanted <= h.free[k].size
    ensures Splits(h.free[k], wanted) ==> h.free[k].addr + wanted !in h.alloc
  {
    var b := h.free[k];
    var a := b.addr + wanted;
    assert b in h.free && b in h.blocks;
    if Splits(b, wanted) && a in h.alloc {
      var c := Block(a, h.alloc[a]);
      assert InUse(h.alloc, c);
      SameAddress(h, base, b, c);
    }
  }

  lemma {:induction false} MallocKept(h: Pool, base: nat, n: nat)
    requires Inv(h, base)
    ensures Inv(Malloc(h, n).0, base)
  {
    WantedAligned(n);
    if Malloc(h, n).1 != 0 {
      TakeKept(h, base, FirstFit(h.free, Wanted(n)), Wanted(n));
    }
  }

  // The list, and the blocks that are free or in use, once block `b` was freed.
  lemma {:induction false} FreeList(h: Pool, base: nat, a: nat)
    requires Inv(h, base) && a in h.alloc
    ensures var b := Block(a, h.alloc[a]);
      && b in h.blocks && SortedBySize(Enlist(h.free, b)) && Distinct(Enlist(h.free, b))
      && Total(Enlist(h.free, b)) == Total(h.free) + b.size
      && forall c :: c in Enlist(h.free, b) <==> c == b || c in h.free
  {
    var b := Block(a, h.alloc[a]);
    assert InUse(h.alloc, b) && b in h.blocks;
    assert forall c :: c in h.free ==> c.addr != b.addr;
    InsertSorted(h.free, b);
    SpreadAt(h.free, FirstFit(h.free, b.size), b);
    SpreadTotal(h.free, FirstFit(h.free, b.size), b);
  }

  lemma {:induction false} FreeKept(h: Pool, base: nat, p: nat)
    requires Inv(h, base) && (p != 0 ==> p >= HEADER && p - HEADER in h.alloc)
    ensures Inv(Free(h, p), base)
  {
    if p != 0 {
      var a := p - HEADER;
      var b, h' := Block(a, h.alloc[a]), Free(h, p);
      FreeList(h, base, a);
      TilesInside(h.blocks, base, base + ADJUSTED, b);
      forall c
        ensures c in h'.blocks <==> c in h'.free || InUse(h'.alloc, c)
      {
        assert InUse(h.alloc, c) <==> InUse(h'.alloc, c) || c == b;
      }
    }
  }

  // ---- whole runs ----

  // Every block of the first partition lies in one of the second.
  ghost predicate Finer(blocks: seq<Block>, coarse: seq<Block>) {
    forall c :: c in blocks ==> exists b :: b in coarse && b.addr <= c.addr && c.End() <= b.End()
  }

  datatype Request = DoMalloc(n: nat) | DoFree(p: nat)

  predicate Allowed(h: Pool, r: Request) {
    match r
    case DoMalloc(n) => n < SIZES
    case DoFree(p) => p != 0 ==> p >= HEADER && p - HEADER in h.alloc
  }

  function Step(h: Pool, r: Request): Pool
    requires Allowed(h, r)
  {
    match r case DoMalloc(n) => Malloc(h, n).0 case DoFree(p) => Free(h, p)
  }

  ghost predicate AllowedRun(h: Pool, rs: seq<Request>)
    decreases |rs|
  {
    rs == [] || (Allowed(h, rs[0]) && AllowedRun(Step(h, rs[0]), rs[1..]))
  }

  ghost function Run(h: Pool, rs: seq<Request>): Pool
    requires AllowedRun(h, rs)
    decreases |rs|
  {
    if rs == [] then h else Run(Step(h, rs[0]), rs[1..])
  }

  lemma {:induction false} StepKept(h: Pool, base: nat, r: Request)
    requires Inv(h, base) && Allowed(h, r)
    ensures Inv(Step(h, r), base)
    ensures Finer(Step(h, r).blocks, h.blocks) && |Step(h, r).blocks| >= |h.blocks|
  {
    match r
    case DoMalloc(n) =>
      MallocKept(h, base, n);
      MallocFiner(h, base, n);
    case DoFree(p) => FreeKept(h, base, p);
  }

  lemma {:induction false} MallocFiner(h: Pool, base: nat, n: nat)
    requires Inv(h, base)
    ensures Finer(Malloc(h, n).0.blocks, h.blocks) && |Malloc(h, n).0.blocks| >= |h.blocks|
  {
    if Malloc(h, n).1 != 0 {
      WantedAligned(n);
      TakeFiner(h, base, FirstFit(h.free, Wanted(n)), Wanted(n));
    }
  }

  lemma {:induction false} TakeFiner(h: Pool, base: nat, k: nat, wanted: nat)
    requires Inv(h, base) && k < |h.free| && 0 < wanted <= h.free[k].size && wanted % ALIGNMENT == 0
    ensures var blocks := Take(h, k, wanted).blocks; Finer(blocks, h.blocks) && |blocks| >= |h.blocks|
  {
    TakeBlocks(h, base, k, wanted);
    assert h.free[k] in h.free && h.free[k] in h.blocks;
  }

  /** Over any run the invariant is kept, and the partition only gets finer: what was once cut stays
      cut. */
  lemma {:induction false} RunKept(h: Pool, base: nat, rs: seq<Request>)
    requires Inv(h, base) && AllowedRun(h, rs)
    ensures Inv(Run(h, rs), base)
    ensures Finer(Run(h, rs).blocks, h.blocks) && |Run(h, rs).blocks| >= |h.blocks|
    decreases |rs|
  {
    if rs != [] {
      var h' := Step(h, rs[0]);
      StepKept(h, base, rs[0]);
      RunKept(h', base, rs[1..]);
    }
  }

  // ---- the bound on the splits ----

  ghost predicate Coarse(h: Pool) { forall b :: b in h.blocks ==> b.size >= MINIMUM_BLOCK }

  // Requests whose size, with the header, is no wrapped number.
  predicate Moderate(r: Request) { r.DoMalloc? ==> r.n + HEADER <= SIZES }

  lemma {:induction false} WantedModerate(n: nat)
    requires 0 < n && n + HEADER <= SIZES && 0 < Wanted(n)
    ensures Wanted(n) >= MINIMUM_BLOCK && Wanted(n) >= n + HEADER
  {
  }

  lemma {:induction false} StepCoarse(h: Pool, base: nat, r: Request)
    requires Inv(h, base) && Allowed(h, r) && Coarse(h) && Moderate(r)
    ensures Coarse(Step(h, r))
  {
    if r.DoMalloc? && Malloc(h, r.n).1 != 0 {
      WantedAligned(r.n);
      WantedModerate(r.n);
      TakeBlocks(h, base, FirstFit(h.free, Wanted(r.n)), Wanted(r.n));
    }
  }

  lemma {:induction false} TilesCount(blocks: seq<Block>, from: nat, to: nat, least: nat)
    requires Tiles(blocks, from, to) && forall b :: b in blocks ==> b.size >= least
    ensures least * |blocks| <= to - from
    decreases |blocks|
  {
    if blocks != [] {
      TilesCount(blocks[1..], blocks[0].End(), to, least);
      assert least * |blocks| == least + least * |blocks[1..]|;
    }
  }

  function Initial(base: nat): Pool {
    Pool([Block(base, ADJUSTED)], map[], ADJUSTED, [Block(base, ADJUSTED)])
  }

  lemma {:induction false} InitialKept(base: nat)
    requires base % ALIGNMENT == 0
    ensures Inv(Initial(base), base) && Coarse(Initial(base))
  {
    assert [Block(base, ADJUSTED)][1..] == [];
  }

  ghost predicate AllModerate(rs: seq<Request>) { forall i :: 0 <= i < |rs| ==> Moderate(rs[i]) }

  lemma {:induction false} RunCoarse(h: Pool, base: nat, rs: seq<Request>)
    requires Inv(h, base) && AllowedRun(h, rs) && Coarse(h) && AllModerate(rs)
    ensures Coarse(Run(h, rs))
    decreases |rs|
  {
    if rs != [] {
      var h' := Step(h, rs[0]);
      assert Moderate(rs[0]) && AllModerate(rs[1..]);
      StepKept(h, base, rs[0]);
      StepCoarse(h, base, rs[0]);
      RunCoarse(h', base, rs[1..]);
      assert Run(h, rs) == Run(h', rs[1..]);
    }
  }

  // The request cuts the block it gets.
  predicate SplitsBlock(h: Pool, r: Request) {
    r.DoMalloc? && Malloc(h, r.n).1 != 0 && Splits(h.free[FirstFit(h.free, Wanted(r.n))], Wanted(r.n))
  }

  // The number of splits in a run.
  ghost function SplitsIn(h: Pool, rs: seq<Request>): nat
    requires AllowedRun(h, rs)
    decreases |rs|
  {
    if rs == [] then 0 else (if SplitsBlock(h, rs[0]) then 1 else 0) + SplitsIn(Step(h, rs[0]), rs[1..])
  }

  lemma {:induction false} StepCounts(h: Pool, base: nat, r: Request)
    requires Inv(h, base) && Allowed(h, r)
    ensures |Step(h, r).blocks| == |h.blocks| + if SplitsBlock(h, r) then 1 else 0
  {
    if r.DoMalloc? && Malloc(h, r.n).1 != 0 {
      WantedAligned(r.n);
      TakeBlocks(h, base, FirstFit(h.free, Wanted(r.n)), Wanted(r.n));
    }
  }

  lemma {:induction false} SplitsCounted(h: Pool, base: nat, rs: seq<Request>)
    requires Inv(h, base) && AllowedRun(h, rs)
    ensures |Run(h, rs).blocks| == |h.blocks| + SplitsIn(h, rs)
    decreases |rs|
  {
    if rs != [] {
      StepKept(h, base, rs[0]);
      StepCounts(h, base, rs[0]);
      SplitsCounted(Step(h, rs[0]), base, rs[1..]);
    }
  }

  // No block is smaller than a header, as all sizes are aligned.
  lemma {:induction false} BlocksBounded(h: Pool, base: nat)
    requires Inv(h, base)
    ensures HEADER * |h.blocks| <= ADJUSTED && (Coarse(h) ==> MINIMUM_BLOCK * |h.blocks| <= ADJUSTED)
  {
    forall b | b in h.blocks
      ensures b.size >= HEADER
    {
      TilesInside(h.blocks, base, base + ADJUSTED, b);
    }
    TilesCount(h.blocks, base, base + ADJUSTED, HEADER);
    if Coarse(h) {
      TilesCount(h.blocks, base, base + ADJUSTED, MINIMUM_BLOCK);
    }
  }

  lemma {:induction false} SplitsFrom(h: Pool, base: nat, rs: seq<Request>)
    requires Inv(h, base) && AllowedRun(h, rs)
    ensures var count := |h.blocks| + SplitsIn(h, rs);
      && |Run(h, rs).blocks| == count && HEADER * count <= ADJUSTED
      && (Coarse(h) && AllModerate(rs) ==> MINIMUM_BLOCK * count <= ADJUSTED)
  {
    RunKept(h, base, rs);
    SplitsCounted(h, base, rs);
    if Coarse(h) && AllModerate(rs) {
      RunCoarse(h, base, rs);
    }
    BlocksBounded(Run(h, rs), base);
  }

  /** A run has as many blocks as splits, and one more. So a heap is split less often than there are
      headers that fit in it; and half as often, unless a request wraps. */
  lemma {:induction false} SplitsBounded(base: nat, rs: seq<Request>)
    requires base % ALIGNMENT == 0 && AllowedRun(Initial(base), rs)
    ensures var splits := SplitsIn(Initial(base), rs);
      && |Run(Initial(base), rs).blocks| == 1 + splits
      && HEADER * (1 + splits) <= ADJUSTED
      && (AllModerate(rs) ==> MINIMUM_BLOCK * (1 + splits) <= ADJUSTED)
  {
    InitialKept(base);
    var h := Initial(base);
    assert |h.blocks| == 1;
    SplitsFrom(h, base, rs);
  }

  // The block a successful request gets.
  lemma {:induction false} MallocTakes(h: Pool, n: nat) returns (k: nat)
    requires Malloc(h, n).1 != 0
    ensures k < |h.free| && 0 < Wanted(n) <= h.free[k].size
    ensures Malloc(h, n) == (Take(h, k, Wanted(n)), h.free[k].addr + HEADER)
  {
    k := FirstFit(h.free, Wanted(n));
  }

  lemma {:induction false} FreeInside(h: Pool, base: nat, k: nat)
    requires Inv(h, base) && k < |h.free|
    ensures h.free[k].size <= ADJUSTED && h.free[k].addr !in h.alloc
  {
    assert h.free[k] in h.free && h.free[k] in h.blocks;
    TilesInside(h.blocks, base, base + ADJUSTED, h.free[k]);
  }

  // Its size is that of the rounded request, and not of a wrapped one exactly if there was no wrap.
  lemma {:induction false} WantedRoom(b: Block, n: nat)
    requires 0 < n < SIZES && 0 < Wanted(n) <= b.size <= ADJUSTED
    ensures Given(b, Wanted(n)).size >= n + HEADER <==> n + HEADER <= SIZES
  {
    if n + HEADER <= SIZES {
      WantedModerate(n);
    }
  }

  /** A block that was handed out has room for its header and for what was asked for exactly if adding
      the header did not wrap. A larger request gets a block that may hold no more than the header. */
  lemma {:induction false} RoomUnlessWrapped(h: Pool, base: nat, n: nat)
    requires Inv(h, base) && 0 < n < SIZES && Malloc(h, n).1 != 0
    ensures var (h', p) := Malloc(h, n);
      && p >= HEADER && p - HEADER !in h.alloc && p - HEADER in h'.alloc
      && h'.alloc == h.alloc[p - HEADER := h'.alloc[p - HEADER]]
      && (h'.alloc[p - HEADER] >= n + HEADER <==> n + HEADER <= SIZES)
  {
    var k := MallocTakes(h, n);
    FreeInside(h, base, k);
    WantedRoom(h.free[k], n);
  }

  /** There are such requests: the largest of all gets a block of a new heap that holds its header only. */
  lemma {:induction false} LargestRequest(base: nat)
    ensures var (h, p) := Malloc(Initial(base), SIZES - 1); p == base + HEADER && h.alloc == map[base := HEADER]
  {
    assert Wanted(SIZES - 1) == HEADER;
    assert FirstFit(Initial(base).free, HEADER) == 0;
  }
}
