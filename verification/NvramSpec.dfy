/** The I2C register file of i2c.c: a write-back cache in front of the objects behind its regions. */
module NvramSpec {
  import opened Basics

  // struct nvram_region without its flags; `put` tells whether there is a put callback. Every region
  // has a get callback.
  datatype Region = Region(addr: nat, size: nat, put: bool)
  {
    predicate Contains(a: nat) { addr <= a < addr + size }
  }

  const NVRAM_SIZE := 64

  // nvtab[]: the clock, the reserved register, the matrix columns, the matrix character, the slot,
  // the version, and the debugging copy of the clock.
  const TABLE: seq<Region> :=
    [Region(0, 7, true), Region(7, 1, false), Region(8, 5, true), Region(13, 1, true),
     Region(14, 1, false), Region(15, 22, false), Region(48, 8, false)]

  // find_region_containing().
  function FindFrom(i: nat, a: nat): (r: Option<nat>)
    requires i <= |TABLE|
    ensures r.Some? ==> i <= r.value < |TABLE| && TABLE[r.value].Contains(a)
    ensures r.None? ==> forall j :: i <= j < |TABLE| ==> !TABLE[j].Contains(a)
    decreases |TABLE| - i
  {
    if i == |TABLE| then None else if TABLE[i].Contains(a) then Some(i) else FindFrom(i + 1, a)
  }

  function Find(a: nat): Option<nat> { FindFrom(0, a) }

  /** The regions are inside the memory and disjoint, so that an address has one region at most. */
  lemma {:induction false} TableDisjoint(a: nat, i: nat)
    requires i < |TABLE|
    ensures TABLE[i].addr + TABLE[i].size <= NVRAM_SIZE
    ensures TABLE[i].Contains(a) <==> Find(a) == Some(i)
  {
    if TABLE[i].Contains(a) {
      var j := Find(a).value;
      assert TABLE[j].Contains(a);
    }
    Inside(i);
  }

  lemma {:induction false} Inside(i: nat)
    requires i < |TABLE|
    ensures TABLE[i].addr + TABLE[i].size <= NVRAM_SIZE
  {
  }

  // ---- the cache ----

  // A callback that was made: region `i` was fetched, or written back with these bytes.
  datatype Call = Fetched(i: nat) | WrittenBack(i: nat, bytes: Bytes)

  // nvram[], the flags of nvtab[], and the callbacks made so far.
  datatype Cache = Cache(nvram: Bytes, valid: seq<bool>, dirty: seq<bool>, calls: seq<Call>)

  // What the objects behind the regions hold at one moment.
  type Backing = seq<Bytes>

  predicate Sized(b: Backing) {
    |b| == |TABLE| && forall i :: 0 <= i < |TABLE| ==> |b[i]| == TABLE[i].size
  }

  predicate Formed(c: Cache) {
    |c.nvram| == NVRAM_SIZE && |c.valid| == |c.dirty| == |TABLE|
  }

  function Content(nvram: Bytes, i: nat): Bytes
    requires |nvram| == NVRAM_SIZE && i < |TABLE|
  {
    Inside(i);
    nvram[TABLE[i].addr..TABLE[i].addr + TABLE[i].size]
  }

  // cache_invalidate().
  function Invalidate(c: Cache): (r: Cache)
    requires Formed(c)
    ensures Formed(r)
  {
    c.(valid := seq(|TABLE|, _ => false))
  }

  function Overwritten(nvram: Bytes, i: nat, bytes: Bytes): (r: Bytes)
    requires |nvram| == NVRAM_SIZE && i < |TABLE| && |bytes| == TABLE[i].size
    ensures |r| == NVRAM_SIZE
  {
    Inside(i);
    nvram[..TABLE[i].addr] + bytes + nvram[TABLE[i].addr + TABLE[i].size..]
  }

  // The region of an address is fetched if it is not valid.
  function Fault(c: Cache, a: nat, b: Backing): (r: Cache)
    requires Formed(c) && Sized(b)
    ensures Formed(r)
  {
    match Find(a)
    case None => c
    case Some(i) =>
      if c.valid[i] then c
      else c.(nvram := Overwritten(c.nvram, i, b[i]), valid := c.valid[i := true], calls := c.calls + [Fetched(i)])
  }

  datatype Access = Read(addr: nat, backing: Backing) | Write(addr: nat, value: Byte, backing: Backing)

  predicate Proper(acc: Access) { acc.addr < NVRAM_SIZE && Sized(acc.backing) }

  // nvram_get() and nvram_put().
  function Perform(c: Cache, acc: Access): (r: Cache)
    requires Formed(c) && Proper(acc)
    ensures Formed(r)
  {
    var f := Fault(c, acc.addr, acc.backing);
    match acc
    case Read(_, _) => f
    case Write(a, v, _) =>
      var found := Find(a);
      f.(nvram := f.nvram[a := v],
         dirty := if found.Some? && TABLE[found.value].put then f.dirty[found.value := true] else f.dirty)
  }

  // One round of cache_flush().
  function FlushOne(c: Cache, i: nat): (r: Cache)
    requires Formed(c) && i < |TABLE|
    ensures Formed(r)
  {
    if !c.dirty[i] then c
    else c.(calls := if TABLE[i].put then c.calls + [WrittenBack(i, Content(c.nvram, i))] else c.calls,
            dirty := c.dirty[i := false])
  }

  // cache_flush(), from region `i` on.
  function FlushFrom(c: Cache, i: nat): (r: Cache)
    requires Formed(c) && i <= |TABLE|
    ensures Formed(r)
    decreases |TABLE| - i
  {
    if i == |TABLE| then c else FlushFrom(FlushOne(c, i), i + 1)
  }

  function Flush(c: Cache): Cache
    requires Formed(c)
  {
    FlushFrom(c, 0)
  }

  // A sequence of accesses after the follower was addressed.
  function PerformAll(c: Cache, accs: seq<Access>): (r: Cache)
    requires Formed(c) && forall k :: 0 <= k < |accs| ==> Proper(accs[k])
    ensures Formed(r)
  {
    if accs == [] then c else Perform(PerformAll(c, accs[..|accs| - 1]), accs[|accs| - 1])
  }

  // ---- what direct access would do ----

  predicate Touches(acc: Access, i: nat)
    requires i < |TABLE|
  {
    TABLE[i].Contains(acc.addr)
  }

  predicate Writes(acc: Access, a: nat) { acc.Write? && acc.addr == a }

  // Access `k` is the last one that writes to `a`.
  ghost predicate LastWrite(accs: seq<Access>, k: nat, a: nat) {
    k < |accs| && Writes(accs[k], a) && forall j: nat :: k < j < |accs| ==> !Writes(accs[j], a)
  }

  // Access `k` is the first one to region `i`.
  ghost predicate FirstTouch(accs: seq<Access>, k: nat, i: nat)
    requires i < |TABLE|
  {
    k < |accs| && Touches(accs[k], i) && forall j: nat :: j < k ==> !Touches(accs[j], i)
  }

  ghost predicate Unwritten(accs: seq<Access>, a: nat) {
    forall k :: 0 <= k < |accs| ==> !Writes(accs[k], a)
  }

  // What region `i` held at access `k`.
  function Snapshot(accs: seq<Access>, k: nat, i: nat): (b: Bytes)
    requires k < |accs| && i < |TABLE| && Proper(accs[k])
    ensures |b| == TABLE[i].size
  {
    accs[k].backing[i]
  }

  ghost predicate Untouched(accs: seq<Access>, i: nat)
    requires i < |TABLE|
  {
    forall k :: 0 <= k < |accs| ==> !Touches(accs[k], i)
  }

  /** The byte that direct access would find at `a` after `accs`, if `before` was in the cells that no
      region covers: what was last written, or else what the object held when its region was first
      used. */
  ghost predicate Direct(before: Bytes, accs: seq<Access>, a: nat, v: Byte)
    requires |before| == NVRAM_SIZE && a < NVRAM_SIZE && forall k :: 0 <= k < |accs| ==> Proper(accs[k])
  {
    && (forall k: nat :: LastWrite(accs, k, a) ==> v == accs[k].value)
    && (Unwritten(accs, a) ==>
          match Find(a)
          case None => v == before[a]
          case Some(i) =>
            && (Untouched(accs, i) ==> v == before[a])
            && (forall k: nat :: FirstTouch(accs, k, i) ==> v == Snapshot(accs, k, i)[a - TABLE[i].addr]))
  }
}
