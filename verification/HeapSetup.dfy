/** How heap_4.c and heap_5.c start: the regions they are given, and the list made of them. */
module HeapSetup {
  import opened HeapBlocks
  import opened HeapSpec
  import opened HeapRuns

  // HeapRegion_t.
  datatype Region = Region(start: nat, size: nat)

  // The first aligned address of a region, and the address of the end marker in it.
  function First(r: Region): nat { RoundUp(r.start) }

  function Last(r: Region): int { RoundDown(r.start + r.size - HEADER) }

  function RoundDown(x: int): (r: int)
    ensures r % ALIGNMENT == 0 && x - ALIGNMENT < r <= x
  {
    x - x % ALIGNMENT
  }

  // A region that has room for its end marker and at least one block.
  predicate Large(r: Region) {
    0 < r.start && r.start + r.size <= 0x1_0000_0000 && First(r) < Last(r) && Last(r) - First(r) < ALLOCATED_BIT
  }

  function FirstBlock(r: Region): Block
    requires Large(r)
  {
    Block(First(r), Last(r) - First(r))
  }

  // Regions as the allocator demands them: large enough, disjoint and ascending.
  ghost predicate Proper(rs: seq<Region>) {
    && rs != []
    && (forall i :: 0 <= i < |rs| ==> Large(rs[i]))
    && (forall i, j :: 0 <= i < j < |rs| ==> Last(rs[i]) < First(rs[j]))
  }

  // One block a region, with a zero-size marker wherever one region ends and another follows.
  function Setup(rs: seq<Region>): (f: seq<Block>)
    requires forall i :: 0 <= i < |rs| ==> Large(rs[i])
    ensures rs != [] ==> f != [] && f[|f| - 1] == FirstBlock(rs[|rs| - 1])
  {
    if rs == [] then []
    else
      var n := |rs| - 1;
      (if n == 0 then [] else Setup(rs[..n]) + [Block(Last(rs[n - 1]), 0)]) + [FirstBlock(rs[n])]
  }

  function Initial(f: seq<Block>): Heap { Heap(f, map[], Total(f), Total(f)) }

  ghost function ArenaOf(f: seq<Block>, top: nat): Arena {
    Arena(set x: nat | x < top && Covers(f, x), set b | b in f && b.size == 0 :: b.addr)
  }

  predicate Aligned(b: Block) {
    0 < b.addr && b.addr % ALIGNMENT == 0 && b.size % ALIGNMENT == 0 && b.size < ALLOCATED_BIT
  }

  // What the list looks like, and where its last block ends.
  ghost predicate Fresh(f: seq<Block>, top: nat) {
    && Ordered(f) && Apart(f) && f != [] && f[|f| - 1].End() == top && f[|f| - 1].size > 0
    && (forall i :: 0 <= i < |f| ==> Aligned(f[i]))
  }

  lemma {:induction false} FreshAppend(f: seq<Block>, b: Block, top: nat)
    requires Fresh(f, top) && top < b.addr && top % ALIGNMENT == 0 && Aligned(b) && b.size > 0
    ensures Fresh(f + [Block(top, 0)] + [b], b.End())
  {
    var g := f + [Block(top, 0)];
    assert forall i :: 0 <= i < |g| ==> g[i] == if i < |f| then f[i] else Block(top, 0);
  }

  lemma {:induction false} RegionAligned(r: Region)
    requires Large(r)
    ensures Aligned(FirstBlock(r)) && FirstBlock(r).size > 0 && Last(r) % ALIGNMENT == 0
  {
  }

  lemma {:induction false} FreshOne(r: Region)
    requires Large(r)
    ensures Fresh([FirstBlock(r)], Last(r))
  {
  }

  lemma {:induction false} FrontProper(rs: seq<Region>, n: nat)
    requires Proper(rs) && 0 < n <= |rs|
    ensures Proper(rs[..n])
  {
  }

  lemma {:induction false} SetupSnoc(front: seq<Region>, r: Region)
    requires front != [] && Large(r) && forall i :: 0 <= i < |front| ==> Large(front[i])
    ensures Setup(front + [r]) == Setup(front) + [Block(Last(front[|front| - 1]), 0)] + [FirstBlock(r)]
  {
    assert (front + [r])[..|front|] == front;
  }

  lemma {:induction false} SetupStep(front: seq<Region>, s: Region, r: Region)
    requires front != [] && (forall i :: 0 <= i < |front| ==> Large(front[i])) && s == front[|front| - 1]
    requires Large(r) && Last(s) < First(r) && Fresh(Setup(front), Last(s))
    ensures Fresh(Setup(front + [r]), Last(r))
  {
    SetupSnoc(front, r);
    RegionAligned(s);
    RegionAligned(r);
    FreshAppend(Setup(front), FirstBlock(r), Last(s));
  }

  lemma {:induction false} SetupFresh(rs: seq<Region>)
    requires Proper(rs)
    ensures Fresh(Setup(rs), Last(rs[|rs| - 1]))
  {
    var n := |rs| - 1;
    if n == 0 {
      FreshOne(rs[0]);
      assert Setup(rs) == [FirstBlock(rs[0])];
    } else {
      FrontProper(rs, n);
      SetupFresh(rs[..n]);
      assert rs == rs[..n] + [rs[n]];
      SetupStep(rs[..n], rs[n - 1], rs[n]);
    }
  }

  // An interval of canonical bytes lies in one of their runs.
  lemma {:induction false} OneRun(g: seq<Block>, a: nat, size: nat)
    requires Canonical(g) && size > 0 && forall x: nat :: a <= x < a + size ==> Covers(g, x)
    ensures exists i :: 0 <= i < |g| && g[i].addr <= a && a + size <= g[i].End()
  {
    assert Covers(g, a);
    var i :| 0 <= i < |g| && g[i].addr <= a < g[i].End();
    var x: nat := g[i].End();
    assert a <= x < a + size ==> Covers(g, x);
  }

  // Any interval of managed bytes lies in one block of the initial list.
  lemma {:induction false} OneRegion(f: seq<Block>, top: nat, a: nat, size: nat)
    requires Fresh(f, top) && size > 0 && Within(ArenaOf(f, top), a, size)
    ensures exists b :: b in f && b.addr <= a && a + size <= b.End()
  {
    SolidIsCanonical(f);
    SolidCovers(f);
    forall x: nat | a <= x < a + size
      ensures Covers(Solid(f), x)
    {
      assert x in ArenaOf(f, top).bytes;
    }
    OneRun(Solid(f), a, size);
    var i :| 0 <= i < |Solid(f)| && Solid(f)[i].addr <= a && a + size <= Solid(f)[i].End();
    assert Solid(f)[i] in f;
  }

  lemma {:induction false} FreshArena(f: seq<Block>, top: nat)
    requires Fresh(f, top)
    ensures GoodArena(ArenaOf(f, top))
  {
    var arena := ArenaOf(f, top);
    forall a: nat, size: nat | Within(arena, a, size) && size > 0
      ensures size < ALLOCATED_BIT
    {
      OneRegion(f, top, a, size);
    }
    forall x | x in arena.bytes
      ensures x !in arena.markers
    {
      var i :| 0 <= i < |f| && f[i].addr <= x < f[i].End();
      forall b | b in f && b.size == 0
        ensures b.addr != x
      {
        var j :| 0 <= j < |f| && f[j] == b;
        assert j < i ==> f[j].addr < f[i].addr;
        assert i < j ==> f[i].End() <= f[j].addr;
      }
    }
  }

  /** The initial heap has everything free. */
  lemma {:induction false} InitialKept(f: seq<Block>, top: nat)
    requires Fresh(f, top)
    ensures Inv(Initial(f), ArenaOf(f, top))
  {
    var arena := ArenaOf(f, top);
    FreshArena(f, top);
    forall i | 0 <= i < |f|
      ensures GoodBlock(f[i], arena)
    {
      assert f[i] in f;
    }
    forall x: nat
      ensures Covers(f, x) ==> x < top
      ensures !Taken(map[], x)
    {
      if Covers(f, x) {
        var i :| 0 <= i < |f| && f[i].addr <= x < f[i].End();
        assert i < |f| - 1 ==> f[i].End() <= f[|f| - 1].addr;
      }
    }
  }

  /** No block ever spans two regions, although the allocator merges blocks with the end markers it
      keeps between them: every block, free or allocated, lies in one region. */
  lemma {:induction false} NeverSpans(rs: seq<Region>, h: Heap, b: Block)
    requires Proper(rs) && Inv(h, ArenaOf(Setup(rs), Last(rs[|rs| - 1])))
    requires b.size > 0 && (b in h.free || (b.addr in h.alloc && h.alloc[b.addr] == b.size))
    ensures exists r :: r in rs && First(r) <= b.addr && b.End() <= Last(r)
  {
    RegionOf(rs, b.addr, b.size);
  }

  lemma {:induction false} RegionOf(rs: seq<Region>, a: nat, size: nat)
    requires Proper(rs) && size > 0 && Within(ArenaOf(Setup(rs), Last(rs[|rs| - 1])), a, size)
    ensures exists r :: r in rs && First(r) <= a && a + size <= Last(r)
  {
    var f, top := Setup(rs), Last(rs[|rs| - 1]);
    SetupFresh(rs);
    OneRegion(f, top, a, size);
    var c :| c in f && c.addr <= a && a + size <= c.End();
    SetupBlocks(rs, c);
    var r :| r in rs && c == FirstBlock(r);
    assert First(r) == c.addr && Last(r) == c.End();
  }

  lemma {:induction false} SetupBlocks(rs: seq<Region>, c: Block)
    requires (forall i :: 0 <= i < |rs| ==> Large(rs[i])) && c in Setup(rs) && c.size > 0
    ensures exists r :: r in rs && c == FirstBlock(r)
  {
    var n := |rs| - 1;
    if c != FirstBlock(rs[n]) {
      SetupBlocks(rs[..n], c);
    }
  }

  /** A run that frees all it allocated ends with the initial list, the markers aside. */
  lemma {:induction false} AllFreed(f: seq<Block>, top: nat, rs: seq<Request>)
    requires Fresh(f, top) && Run(Initial(f), rs).alloc == map[]
    ensures Inv(Run(Initial(f), rs), ArenaOf(f, top))
    ensures Solid(Run(Initial(f), rs).free) == Solid(f) && Run(Initial(f), rs).freeBytes == Total(f)
  {
    InitialKept(f, top);
    RunKept(Initial(f), ArenaOf(f, top), rs);
    FreeListDetermined(Run(Initial(f), rs), Initial(f), ArenaOf(f, top));
  }

  // Without markers such a run ends with the list it started from.
  lemma {:induction false} AllFreedPlain(f: seq<Block>, top: nat, rs: seq<Request>)
    requires Fresh(f, top) && ArenaOf(f, top).markers == {} && Run(Initial(f), rs).alloc == map[]
    ensures Run(Initial(f), rs).free == f
  {
    InitialKept(f, top);
    RunKept(Initial(f), ArenaOf(f, top), rs);
    FreeListDetermined(Run(Initial(f), rs), Initial(f), ArenaOf(f, top));
  }

  /** Without inner regions there are no markers, and such a run ends with the one block it started
      from. */
  lemma {:induction false} AllFreedOne(r: Region, rs: seq<Request>)
    requires Large(r) && Run(Initial([FirstBlock(r)]), rs).alloc == map[]
    ensures Run(Initial([FirstBlock(r)]), rs).free == [FirstBlock(r)]
  {
    FreshOne(r);
    var f := [FirstBlock(r)];
    assert forall b :: b in f ==> b == FirstBlock(r);
    AllFreedPlain(f, Last(r), rs);
  }

  // Every header the allocator writes to lies in one of the regions.
  lemma {:induction false} ManagedInside(rs: seq<Region>, x: nat)
    requires Proper(rs)
    requires var arena := ArenaOf(Setup(rs), Last(rs[|rs| - 1])); x in arena.bytes || x in arena.markers
    ensures exists r :: r in rs && r.start <= x < r.start + r.size
    ensures 0 < x < Last(rs[|rs| - 1])
  {
    var f, top := Setup(rs), Last(rs[|rs| - 1]);
    SetupFresh(rs);
    if x in ArenaOf(f, top).bytes {
      RegionOf(rs, x, 1);
    } else {
      var b :| b in f && b.size == 0 && b.addr == x;
      SetupMarkers(rs, b);
      var i :| 0 <= i < |f| && f[i] == b;
      assert f[i].End() <= f[|f| - 1].addr;
    }
  }

  lemma {:induction false} SetupMarkers(rs: seq<Region>, c: Block)
    requires Proper(rs) && c in Setup(rs) && c.size == 0
    ensures exists r :: r in rs && c.addr == Last(r)
  {
    var n := |rs| - 1;
    if n > 0 && c != Block(Last(rs[n - 1]), 0) {
      SetupMarkers(rs[..n], c);
    }
  }
}
