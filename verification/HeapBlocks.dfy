/** Free lists as sequences of blocks: what all allocators share, and the address-ordered lists of the
    coalescing ones, heap_4.c and heap_5.c.

    heap_5.c keeps zero-size end markers of its inner regions in the free list until a neighbour
    absorbs them; heap_4.c has none. Nothing below depends on which of the two is meant. */
module HeapBlocks {

  datatype Block = Block(addr: nat, size: nat)
  {
    function End(): nat { addr + size }
  }

  // The size of a header, heapMINIMUM_BLOCK_SIZE and portBYTE_ALIGNMENT.
  const HEADER := 8
  const MINIMUM_BLOCK := 16
  const ALIGNMENT := 8

  // configTOTAL_HEAP_SIZE.
  const TOTAL_HEAP_SIZE := 17 * 1024

  // The number of leading blocks that are smaller: what the searches of the allocators skip.
  function FirstFit(f: seq<Block>, wanted: nat): (i: nat)
    ensures i <= |f|
    ensures forall j :: 0 <= j < i ==> f[j].size < wanted
    ensures i < |f| ==> f[i].size >= wanted
  {
    if f == [] || f[0].size >= wanted then 0 else 1 + FirstFit(f[1..], wanted)
  }

  function Without(f: seq<Block>, i: nat): seq<Block>
    requires i < |f|
  {
    f[..i] + f[i + 1..]
  }

  // A block is split only if more than heapMINIMUM_BLOCK_SIZE is left of it.
  predicate Splits(b: Block, wanted: nat) {
    b.size - wanted > MINIMUM_BLOCK
  }

  function Tail(b: Block, wanted: nat): Block
    requires b.size >= wanted
  {
    Block(b.addr + wanted, b.size - wanted)
  }

  // Blocks in address order that do not overlap.
  ghost predicate Ordered(f: seq<Block>) {
    forall i, j :: 0 <= i < j < |f| ==> f[i].addr < f[j].addr && f[i].End() <= f[j].addr
  }

  // Neighbours do not touch, unless the right one is a zero-size marker.
  ghost predicate Apart(f: seq<Block>) {
    forall i, j :: 0 <= i < j < |f| && f[i].End() == f[j].addr ==> f[j].size == 0
  }

  ghost predicate Covers(f: seq<Block>, x: int) {
    exists i :: 0 <= i < |f| && f[i].addr <= x < f[i].End()
  }

  function Total(f: seq<Block>): nat {
    if f == [] then 0 else f[0].size + Total(f[1..])
  }

  // The blocks that hold bytes.
  function Solid(f: seq<Block>): (g: seq<Block>)
    ensures forall b :: b in g <==> b in f && b.size > 0
  {
    if f == [] then [] else if f[0].size > 0 then [f[0]] + Solid(f[1..]) else Solid(f[1..])
  }

  // Maximal runs of bytes, in address order.
  ghost predicate Canonical(g: seq<Block>) {
    && (forall i :: 0 <= i < |g| ==> g[i].size > 0)
    && (forall i, j :: 0 <= i < j < |g| ==> g[i].End() < g[j].addr)
  }

  lemma {:induction false} CanonicalCons(b: Block, g: seq<Block>)
    requires b.size > 0 && Canonical(g) && forall j :: 0 <= j < |g| ==> b.End() < g[j].addr
    ensures Canonical([b] + g)
  {
  }

  // ---- a set of bytes has one canonical list ----

  // The first byte of the list, and the first one missing from it.
  lemma {:induction false} CanonicalEnds(f: seq<Block>)
    requires Canonical(f) && f != []
    ensures Covers(f, f[0].addr) && !Covers(f, f[0].End())
    ensures forall x :: Covers(f, x) ==> f[0].addr <= x
    ensures forall x :: f[0].addr <= x < f[0].End() ==> Covers(f, x)
  {
    assert f[0].addr <= f[0].addr < f[0].End();
    forall x | Covers(f, x)
      ensures f[0].addr <= x && x != f[0].End()
    {
      var i :| 0 <= i < |f| && f[i].addr <= x < f[i].End();
      assert i > 0 ==> f[0].End() < f[i].addr;
    }
  }

  lemma {:induction false} CanonicalTail(f: seq<Block>, x: int)
    requires Canonical(f) && f != []
    ensures Canonical(f[1..])
    ensures Covers(f[1..], x) <==> Covers(f, x) && !(f[0].addr <= x < f[0].End())
  {
    if Covers(f, x) && !(f[0].addr <= x < f[0].End()) {
      var i :| 0 <= i < |f| && f[i].addr <= x < f[i].End();
      assert f[1..][i - 1] == f[i];
    }
    if Covers(f[1..], x) {
      var i :| 0 <= i < |f[1..]| && f[1..][i].addr <= x < f[1..][i].End();
      assert f[i + 1] == f[1..][i];
      assert f[0].End() < f[i + 1].addr;
    }
  }

  /** The bytes determine the list: there is only one way to write a set of bytes as maximal runs
      in address order. */
  lemma {:induction false} CanonicalUnique(f: seq<Block>, g: seq<Block>)
    requires Canonical(f) && Canonical(g)
    requires forall x :: Covers(f, x) <==> Covers(g, x)
    ensures f == g
  {
    if f != [] { CanonicalEnds(f); }
    if g != [] { CanonicalEnds(g); }
    if f != [] && g != [] {
      assert f[0].addr == g[0].addr;
      assert f[0].End() == g[0].End() by {
        assert !(g[0].addr <= f[0].End() < g[0].End());
        assert !(f[0].addr <= g[0].End() < f[0].End());
      }
      forall x
        ensures Covers(f[1..], x) <==> Covers(g[1..], x)
      {
        CanonicalTail(f, x);
        CanonicalTail(g, x);
      }
      CanonicalTail(f, 0);
      CanonicalTail(g, 0);
      CanonicalUnique(f[1..], g[1..]);
    }
  }

  // An ordered list without touching blocks is canonical once its markers are dropped.
  lemma {:induction false} SolidIsCanonical(f: seq<Block>)
    requires Ordered(f) && Apart(f)
    ensures Canonical(Solid(f))
  {
    if f != [] {
      var g := Solid(f[1..]);
      SolidIsCanonical(f[1..]);
      forall j | 0 <= j < |g|
        ensures f[0].End() < g[j].addr
      {
      }
      if f[0].size > 0 { CanonicalCons(f[0], g); }
    }
  }

  lemma {:induction false} SolidCovers(f: seq<Block>)
    ensures forall x :: Covers(Solid(f), x) <==> Covers(f, x)
  {
    var g := Solid(f);
    forall x
      ensures Covers(g, x) <==> Covers(f, x)
    {
      if Covers(f, x) {
        var i :| 0 <= i < |f| && f[i].addr <= x < f[i].End();
        assert f[i] in g;
        var j :| 0 <= j < |g| && g[j] == f[i];
        assert g[j].addr <= x < g[j].End();
      }
      if Covers(g, x) {
        var i :| 0 <= i < |g| && g[i].addr <= x < g[i].End();
        assert g[i] in f;
        var j :| 0 <= j < |f| && f[j] == g[i];
        assert f[j].addr <= x < f[j].End();
      }
    }
  }

  // ---- inserting a block ----

  // The number of blocks that lie below an address.
  function Position(f: seq<Block>, addr: nat): (k: nat)
    ensures k <= |f|
    ensures forall i :: 0 <= i < k ==> f[i].addr < addr
    ensures k < |f| ==> f[k].addr >= addr
  {
    if f == [] || f[0].addr >= addr then 0 else 1 + Position(f[1..], addr)
  }

  // The outcome of one insertion: blocks f[..before], the merged block, and f[after..].
  datatype Splice = Splice(before: nat, merged: Block, after: nat)

  function SpliceAt(f: seq<Block>, b: Block, k: nat): (s: Splice)
    requires k <= |f|
    ensures s.before <= s.after <= |f|
  {
    var joinLeft := k > 0 && f[k - 1].End() == b.addr;
    var left := if joinLeft then Block(f[k - 1].addr, f[k - 1].size + b.size) else b;
    var joinRight := k < |f| && left.End() == f[k].addr;
    Splice(if joinLeft then k - 1 else k,
           if joinRight then Block(left.addr, left.size + f[k].size) else left,
           if joinRight then k + 1 else k)
  }

  function Spliced(f: seq<Block>, s: Splice): seq<Block>
    requires s.before <= s.after <= |f|
  {
    f[..s.before] + [s.merged] + f[s.after..]
  }

  // prvInsertBlockIntoFreeList().
  function Insert(f: seq<Block>, b: Block): seq<Block> {
    Spliced(f, SpliceAt(f, b, Position(f, b.addr)))
  }

  // `b` overlaps no block of the list and starts at none.
  ghost predicate Fits(f: seq<Block>, b: Block) {
    forall i :: 0 <= i < |f| ==> f[i].addr != b.addr && (f[i].End() <= b.addr || b.End() <= f[i].addr)
  }

  lemma {:induction false} TotalAppend(f: seq<Block>, g: seq<Block>)
    ensures Total(f + g) == Total(f) + Total(g)
  {
    if f == [] {
      assert f + g == g;
    } else {
      assert (f + g)[1..] == f[1..] + g;
      TotalAppend(f[1..], g);
    }
  }

  lemma {:induction false} TotalThree(p: seq<Block>, m: seq<Block>, q: seq<Block>)
    ensures Total(p + m + q) == Total(p) + Total(m) + Total(q)
  {
    TotalAppend(p + m, q);
    TotalAppend(p, m);
  }

  lemma {:induction false} Parts(f: seq<Block>, p: nat, q: nat)
    requires p <= q <= |f|
    ensures f == f[..p] + f[p..q] + f[q..]
  {
  }

  lemma {:induction false} TotalSplice(f: seq<Block>, before: nat, merged: Block, after: nat)
    requires before <= after <= |f|
    ensures Total(f[..before] + [merged] + f[after..]) == Total(f) - Total(f[before..after]) + merged.size
  {
    var p, m, q := f[..before], f[before..after], f[after..];
    Parts(f, before, after);
    TotalThree(p, m, q);
    TotalThree(p, [merged], q);
  }

  lemma {:induction false} InsertTotal(f: seq<Block>, b: Block)
    ensures Total(Insert(f, b)) == Total(f) + b.size
  {
    var k := Position(f, b.addr);
    var s := SpliceAt(f, b, k);
    TotalSplice(f, s.before, s.merged, s.after);
    var gone := f[s.before..s.after];
    if s.before < k && k < s.after {
      assert gone == [f[k - 1]] + [f[k]];
      TotalAppend([f[k - 1]], [f[k]]);
    } else if s.before < k {
      assert gone == [f[k - 1]];
    } else if k < s.after {
      assert gone == [f[k]];
    } else {
      assert gone == [];
    }
  }

  // Everything before the merged block ends strictly below it.
  lemma {:induction false} SpliceLeft(f: seq<Block>, b: Block, i: nat)
    requires Ordered(f) && Apart(f) && b.size > 0 && Fits(f, b)
    requires i < SpliceAt(f, b, Position(f, b.addr)).before
    ensures f[i].End() < SpliceAt(f, b, Position(f, b.addr)).merged.addr
  {
    var k := Position(f, b.addr);
    assert f[k - 1].End() <= b.addr;
    if f[k - 1].End() == b.addr {
      assert f[k - 1].size > 0;
      assert f[i].End() <= f[i + 1].addr <= f[k - 1].addr;
    } else if i < k - 1 {
      assert f[i].End() <= f[i + 1].addr;
    }
  }

  lemma {:induction false} SplicedOrdered(f: seq<Block>, s: Splice)
    requires Ordered(f) && Apart(f) && s.before <= s.after <= |f| && s.merged.size > 0
    requires forall i :: 0 <= i < s.before ==> f[i].End() < s.merged.addr
    requires forall i :: s.after <= i < |f| ==> s.merged.End() <= f[i].addr
    requires s.after < |f| && s.merged.End() == f[s.after].addr ==> f[s.after].size == 0
    ensures Ordered(Spliced(f, s)) && Apart(Spliced(f, s))
  {
    var g := Spliced(f, s);
    var gap := s.after - s.before - 1;
    forall i, j | 0 <= i < j < |g|
      ensures g[i].addr < g[j].addr && g[i].End() <= g[j].addr
      ensures g[i].End() == g[j].addr ==> g[j].size == 0
    {
      if j < s.before {
        assert g[i] == f[i] && g[j] == f[j];
      } else if j == s.before {
        assert g[i] == f[i] && g[j] == s.merged;
      } else if i < s.before {
        assert g[i] == f[i] && g[j] == f[j + gap];
        assert f[i].End() < s.merged.addr;
      } else if i == s.before {
        assert g[i] == s.merged && g[j] == f[j + gap];
      } else {
        assert g[i] == f[i + gap] && g[j] == f[j + gap];
      }
    }
  }

  lemma {:induction false} InsertOrdered(f: seq<Block>, b: Block)
    requires Ordered(f) && Apart(f) && b.size > 0 && Fits(f, b)
    ensures Ordered(Insert(f, b)) && Apart(Insert(f, b))
  {
    var s := SpliceAt(f, b, Position(f, b.addr));
    forall i: nat | i < s.before
      ensures f[i].End() < s.merged.addr
    {
      SpliceLeft(f, b, i);
    }
    forall i: nat | s.after <= i < |f|
      ensures s.merged.End() <= f[i].addr && (i == s.after && s.merged.End() == f[i].addr ==> f[i].size == 0)
    {
    }
    SplicedOrdered(f, s);
  }

  ghost predicate Holds(b: Block, x: int) { b.addr <= x < b.End() }

  lemma {:induction false} CoversAppend(f: seq<Block>, g: seq<Block>, x: int)
    ensures Covers(f + g, x) <==> Covers(f, x) || Covers(g, x)
  {
    if Covers(f, x) {
      var i :| 0 <= i < |f| && f[i].addr <= x < f[i].End();
      assert (f + g)[i] == f[i];
    }
    if Covers(g, x) {
      var i :| 0 <= i < |g| && g[i].addr <= x < g[i].End();
      assert (f + g)[|f| + i] == g[i];
    }
  }

  lemma {:induction false} CoversOne(b: Block, x: int)
    ensures Covers([b], x) <==> Holds(b, x)
  {
    if Holds(b, x) {
      assert [b][0] == b;
    }
  }

  lemma {:induction false} CoversSplit(f: seq<Block>, p: nat, q: nat, x: int)
    requires p <= q <= |f|
    ensures Covers(f, x) <==> Covers(f[..p], x) || Covers(f[p..q], x) || Covers(f[q..], x)
  {
    assert f == (f[..p] + f[p..q]) + f[q..];
    CoversAppend(f[..p] + f[p..q], f[q..], x);
    CoversAppend(f[..p], f[p..q], x);
  }

  // Inserting adds exactly the bytes of the block.
  lemma {:induction false} InsertCovers(f: seq<Block>, b: Block, x: int)
    ensures Covers(Insert(f, b), x) <==> Covers(f, x) || Holds(b, x)
  {
    var k := Position(f, b.addr);
    var s := SpliceAt(f, b, k);
    CoversSplit(f, s.before, s.after, x);
    CoversAppend(f[..s.before] + [s.merged], f[s.after..], x);
    CoversAppend(f[..s.before], [s.merged], x);
    CoversOne(s.merged, x);
    var gone := f[s.before..s.after];
    if s.before < k && k < s.after {
      assert gone == [f[k - 1]] + [f[k]];
      CoversAppend([f[k - 1]], [f[k]], x);
      CoversOne(f[k - 1], x);
      CoversOne(f[k], x);
    } else if s.before < k {
      assert gone == [f[k - 1]];
      CoversOne(f[k - 1], x);
    } else if k < s.after {
      assert gone == [f[k]];
      CoversOne(f[k], x);
    } else {
      assert gone == [];
    }
  }

  lemma {:induction false} WithoutTotal(f: seq<Block>, i: nat)
    requires i < |f|
    ensures Total(Without(f, i)) == Total(f) - f[i].size
  {
    Parts(f, i, i + 1);
    assert f[i..i + 1] == [f[i]];
    TotalThree(f[..i], [f[i]], f[i + 1..]);
    TotalAppend(f[..i], f[i + 1..]);
  }
}
