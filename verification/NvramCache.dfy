/** The write-back cache of i2c.c refines direct access to the objects behind it. */
module NvramCache {
  import opened Basics
  import opened NvramSpec

  // What one access does to the byte at `a`.
  lemma {:induction false} PerformAt(c: Cache, acc: Access, a: nat)
    requires Formed(c) && Proper(acc) && a < NVRAM_SIZE
    ensures Perform(c, acc).nvram[a] ==
      if Writes(acc, a) then acc.value
      else if Find(acc.addr).Some? && Find(acc.addr) == Find(a) && !c.valid[Find(a).value]
      then acc.backing[Find(a).value][a - TABLE[Find(a).value].addr]
      else c.nvram[a]
  {
    var found := Find(acc.addr);
    if found.Some? {
      var i := found.value;
      TableDisjoint(a, i);
    }
  }

  // The last access decides, or leaves the decision to those before it.
  lemma {:induction false} DirectSnoc(before: Bytes, accs: seq<Access>, acc: Access, a: nat, v: Byte, v': Byte)
    requires |before| == NVRAM_SIZE && a < NVRAM_SIZE && Proper(acc)
    requires (forall k :: 0 <= k < |accs| ==> Proper(accs[k])) && Direct(before, accs, a, v)
    requires Writes(acc, a) ==> v' == acc.value
    requires !Writes(acc, a) && Find(a).Some? && Touches(acc, Find(a).value) && Untouched(accs, Find(a).value) ==>
               v' == acc.backing[Find(a).value][a - TABLE[Find(a).value].addr]
    requires !Writes(acc, a) && (Find(a).None? || !Touches(acc, Find(a).value) || !Untouched(accs, Find(a).value)) ==>
               v' == v
    ensures Direct(before, accs + [acc], a, v')
  {
    var all, n := accs + [acc], |accs|;
    assert forall k :: 0 <= k < n ==> all[k] == accs[k];
    forall k: nat | LastWrite(all, k, a)
      ensures v' == all[k].value
    {
      assert k < n ==> !Writes(all[n], a) && LastWrite(accs, k, a) && Writes(accs[k], a);
    }
    if Unwritten(all, a) {
      assert !Writes(all[n], a) && forall k :: 0 <= k < n ==> !Writes(all[k], a);
      assert Unwritten(accs, a);
      if Find(a).Some? {
        FirstTouchSnoc(accs, acc, Find(a).value);
      }
    }
  }

  lemma {:induction false} FirstTouchSnoc(accs: seq<Access>, acc: Access, i: nat)
    requires i < |TABLE|
    ensures Untouched(accs + [acc], i) <==> Untouched(accs, i) && !Touches(acc, i)
    ensures forall k: nat :: FirstTouch(accs + [acc], k, i) ==>
              if k < |accs| then FirstTouch(accs, k, i) && !Untouched(accs, i) else k == |accs| && Untouched(accs, i)
  {
    var all, n := accs + [acc], |accs|;
    assert forall k :: 0 <= k < n ==> all[k] == accs[k];
    assert all[n] == acc;
    forall k: nat | FirstTouch(all, k, i)
      ensures if k < n then FirstTouch(accs, k, i) && !Untouched(accs, i) else k == n && Untouched(accs, i)
    {
      assert k < n ==> Touches(accs[k], i);
      assert k == n ==> forall j :: 0 <= j < n ==> !Touches(all[j], i);
    }
  }

  // ---- one addressing ----

  // Nothing is valid after the follower was addressed.
  predicate Fresh(c: Cache) { Formed(c) && forall i :: 0 <= i < |TABLE| ==> !c.valid[i] }

  predicate AllProper(accs: seq<Access>) { forall k :: 0 <= k < |accs| ==> Proper(accs[k]) }

  predicate WritesRegion(acc: Access, i: nat)
    requires i < |TABLE|
  {
    acc.Write? && Touches(acc, i)
  }

  ghost predicate WrittenTo(accs: seq<Access>, i: nat)
    requires i < |TABLE|
  {
    exists k :: 0 <= k < |accs| && WritesRegion(accs[k], i)
  }

  // The fetches of one addressing: one for each region that is used, none twice.
  ghost predicate FetchedOnce(fetches: seq<Call>, accs: seq<Access>) {
    && (forall k :: 0 <= k < |fetches| ==> fetches[k].Fetched? && fetches[k].i < |TABLE|)
    && (forall j, k :: 0 <= j < k < |fetches| ==> fetches[j] != fetches[k])
    && (forall i: nat :: i < |TABLE| ==> (Fetched(i) in fetches <==> !Untouched(accs, i)))
  }

  lemma {:induction false} Snoc(accs: seq<Access>)
    requires accs != []
    ensures accs == accs[..|accs| - 1] + [accs[|accs| - 1]]
  {
  }

  lemma {:induction false} WrittenSnoc(accs: seq<Access>, acc: Access, i: nat)
    requires i < |TABLE|
    ensures WrittenTo(accs + [acc], i) <==> WrittenTo(accs, i) || WritesRegion(acc, i)
  {
    var all := accs + [acc];
    if WrittenTo(accs, i) {
      var k :| 0 <= k < |accs| && WritesRegion(accs[k], i);
      assert WritesRegion(all[k], i);
    }
    if WritesRegion(acc, i) {
      assert WritesRegion(all[|accs|], i);
    }
  }

  lemma {:induction false} PerformFlags(c: Cache, acc: Access, i: nat)
    requires Formed(c) && Proper(acc) && i < |TABLE|
    ensures Perform(c, acc).valid[i] <==> c.valid[i] || Touches(acc, i)
    ensures Perform(c, acc).dirty[i] <==> c.dirty[i] || (TABLE[i].put && WritesRegion(acc, i))
  {
    TableDisjoint(acc.addr, i);
  }

  lemma {:induction false} FlagsAfter(c: Cache, accs: seq<Access>, i: nat)
    requires Fresh(c) && AllProper(accs) && i < |TABLE|
    ensures PerformAll(c, accs).valid[i] <==> !Untouched(accs, i)
    ensures PerformAll(c, accs).dirty[i] <==> c.dirty[i] || (TABLE[i].put && WrittenTo(accs, i))
    decreases |accs|
  {
    if accs != [] {
      var front, acc := accs[..|accs| - 1], accs[|accs| - 1];
      Snoc(accs);
      FlagsAfter(c, front, i);
      PerformFlags(PerformAll(c, front), acc, i);
      FirstTouchSnoc(front, acc, i);
      WrittenSnoc(front, acc, i);
    }
  }

  /** In one addressing every byte is what direct access would find: what was last written to it, or
      what the object behind its region held when the region was first used - one snapshot for the
      whole region. */
  lemma {:induction false} RefinesDirect(c: Cache, accs: seq<Access>, a: nat)
    requires Fresh(c) && AllProper(accs) && a < NVRAM_SIZE
    ensures Direct(c.nvram, accs, a, PerformAll(c, accs).nvram[a])
    decreases |accs|
  {
    if accs != [] {
      var front, acc := accs[..|accs| - 1], accs[|accs| - 1];
      var before := PerformAll(c, front);
      Snoc(accs);
      RefinesDirect(c, front, a);
      PerformAt(before, acc, a);
      if Find(a).Some? {
        TableDisjoint(acc.addr, Find(a).value);
        FlagsAfter(c, front, Find(a).value);
      }
      DirectSnoc(c.nvram, front, acc, a, before.nvram[a], PerformAll(c, accs).nvram[a]);
    }
  }

  lemma {:induction false} CallsAfter(c: Cache, accs: seq<Access>) returns (fetches: seq<Call>)
    requires Fresh(c) && AllProper(accs)
    ensures PerformAll(c, accs).calls == c.calls + fetches && FetchedOnce(fetches, accs)
    decreases |accs|
  {
    fetches := [];
    if accs != [] {
      var front, acc := accs[..|accs| - 1], accs[|accs| - 1];
      Snoc(accs);
      fetches := CallsAfter(c, front);
      var before, found := PerformAll(c, front), Find(acc.addr);
      forall i: nat | i < |TABLE|
        ensures before.valid[i] <==> !Untouched(front, i)
        ensures Untouched(accs, i) <==> Untouched(front, i) && found != Some(i)
      {
        UsedBy(c, front, acc, i);
      }
      if found.Some? && !before.valid[found.value] {
        fetches := fetches + [Fetched(found.value)];
      }
    }
  }

  lemma {:induction false} UsedBy(c: Cache, front: seq<Access>, acc: Access, i: nat)
    requires Fresh(c) && AllProper(front) && Proper(acc) && i < |TABLE|
    ensures PerformAll(c, front).valid[i] <==> !Untouched(front, i)
    ensures Untouched(front + [acc], i) <==> Untouched(front, i) && Find(acc.addr) != Some(i)
  {
    FlagsAfter(c, front, i);
    FirstTouchSnoc(front, acc, i);
    TableDisjoint(acc.addr, i);
  }

  /** In one addressing the get callback of a region is called exactly once if the region is used, and
      not at all if it is not. */
  lemma {:induction false} FetchedAtMostOnce(c: Cache, accs: seq<Access>)
    requires Fresh(c) && AllProper(accs)
    ensures exists fetches :: PerformAll(c, accs).calls == c.calls + fetches && FetchedOnce(fetches, accs)
  {
    var fetches := CallsAfter(c, accs);
  }

  // ---- the end of a transaction ----

  // The call back that region `i` is due, if any.
  ghost function OneBack(c: Cache, i: nat): seq<Call>
    requires Formed(c) && i < |TABLE|
  {
    if c.dirty[i] && TABLE[i].put then [WrittenBack(i, Content(c.nvram, i))] else []
  }

  // The bytes that are written back, from region `i` on.
  ghost function WriteBacks(c: Cache, i: nat): seq<Call>
    requires Formed(c) && i <= |TABLE|
    decreases |TABLE| - i
  {
    if i == |TABLE| then [] else OneBack(c, i) + WriteBacks(c, i + 1)
  }

  lemma {:induction false} WriteBacksSame(c: Cache, d: Cache, i: nat)
    requires Formed(c) && Formed(d) && i <= |TABLE| && c.nvram == d.nvram
    requires forall j :: i <= j < |TABLE| ==> c.dirty[j] == d.dirty[j]
    ensures WriteBacks(c, i) == WriteBacks(d, i)
    decreases |TABLE| - i
  {
    if i < |TABLE| {
      WriteBacksSame(c, d, i + 1);
    }
  }

  lemma {:induction false} FlushOneFacts(c: Cache, i: nat)
    requires Formed(c) && i < |TABLE|
    ensures var d := FlushOne(c, i);
      && d.nvram == c.nvram && d.valid == c.valid && d.calls == c.calls + OneBack(c, i)
      && d.dirty == c.dirty[i := false]
  {
  }

  lemma {:induction false} FlushCalls(c: Cache, i: nat)
    requires Formed(c) && i <= |TABLE|
    ensures var f := FlushFrom(c, i);
      f.calls == c.calls + WriteBacks(c, i) && f.nvram == c.nvram && f.valid == c.valid
    decreases |TABLE| - i
  {
    if i < |TABLE| {
      var d := FlushOne(c, i);
      FlushOneFacts(c, i);
      FlushCalls(d, i + 1);
      WriteBacksSame(c, d, i + 1);
      Chain(c.calls, OneBack(c, i), WriteBacks(c, i + 1));
    }
  }

  lemma {:induction false} Chain(a: seq<Call>, b: seq<Call>, c: seq<Call>)
    ensures (a + b) + c == a + (b + c)
  {
  }

  lemma {:induction false} FlushCleans(c: Cache, i: nat)
    requires Formed(c) && i <= |TABLE|
    ensures var f := FlushFrom(c, i);
      && (forall j :: 0 <= j < i ==> f.dirty[j] == c.dirty[j])
      && (forall j :: i <= j < |TABLE| ==> !f.dirty[j])
    decreases |TABLE| - i
  {
    if i < |TABLE| {
      FlushOneFacts(c, i);
      FlushCleans(FlushOne(c, i), i + 1);
    }
  }

  lemma {:induction false} FlushWritesBack(c: Cache, i: nat)
    requires Formed(c) && i <= |TABLE|
    ensures var f := FlushFrom(c, i);
      && f.calls == c.calls + WriteBacks(c, i) && f.nvram == c.nvram && f.valid == c.valid
      && (forall j :: 0 <= j < i ==> f.dirty[j] == c.dirty[j])
      && (forall j :: i <= j < |TABLE| ==> !f.dirty[j])
  {
    FlushCalls(c, i);
    FlushCleans(c, i);
  }

  // A single region that is due.
  lemma {:induction false} WriteBacksOnly(c: Cache, i: nat, from: nat)
    requires Formed(c) && from <= |TABLE| && i < |TABLE| && TABLE[i].put && c.dirty[i]
    requires forall j :: 0 <= j < |TABLE| && j != i ==> !c.dirty[j]
    ensures WriteBacks(c, from) == if from <= i then [WrittenBack(i, Content(c.nvram, i))] else []
    decreases |TABLE| - from
  {
    if from < |TABLE| {
      WriteBacksOnly(c, i, from + 1);
      assert OneBack(c, from) == if from == i then [WrittenBack(i, Content(c.nvram, i))] else [];
    }
  }

  lemma {:induction false} WriteBacksMembers(c: Cache, i: nat, j: nat)
    requires Formed(c) && i <= |TABLE| && j < |TABLE|
    ensures forall b :: WrittenBack(j, b) in WriteBacks(c, i) <==>
      i <= j && c.dirty[j] && TABLE[j].put && b == Content(c.nvram, j)
    ensures forall k :: 0 <= k < |WriteBacks(c, i)| ==>
      WriteBacks(c, i)[k].WrittenBack? && i <= WriteBacks(c, i)[k].i < |TABLE|
    decreases |TABLE| - i
  {
    if i < |TABLE| {
      WriteBacksMembers(c, i + 1, j);
    }
  }

  // No region is written back twice.
  lemma {:induction false} WriteBacksDistinct(c: Cache, i: nat)
    requires Formed(c) && i <= |TABLE|
    ensures forall j, k :: 0 <= j < k < |WriteBacks(c, i)| ==> WriteBacks(c, i)[j] != WriteBacks(c, i)[k]
    decreases |TABLE| - i
  {
    if i < |TABLE| {
      WriteBacksDistinct(c, i + 1);
      WriteBacksMembers(c, i + 1, 0);
    }
  }

  /** At the end of a transaction a region is written back exactly if it has a put callback and was
      written to - in this addressing, or in an earlier one that a repeated start cut short; once, with
      its bytes as they are now. */
  lemma {:induction false} WrittenBackOnce(c: Cache, accs: seq<Access>) returns (puts: seq<Call>)
    requires Fresh(c) && AllProper(accs)
    ensures Flush(PerformAll(c, accs)).calls == PerformAll(c, accs).calls + puts
    ensures forall i: nat, b :: i < |TABLE| ==>
              (WrittenBack(i, b) in puts <==>
               && TABLE[i].put && (c.dirty[i] || WrittenTo(accs, i))
               && b == Content(PerformAll(c, accs).nvram, i))
    ensures forall j, k :: 0 <= j < k < |puts| ==> puts[j] != puts[k]
    ensures forall k :: 0 <= k < |puts| ==> puts[k].WrittenBack?
    ensures forall i :: 0 <= i < |TABLE| ==> !Flush(PerformAll(c, accs)).dirty[i]
  {
    var d := PerformAll(c, accs);
    puts := WriteBacks(d, 0);
    FlushWritesBack(d, 0);
    WriteBacksDistinct(d, 0);
    WriteBacksMembers(d, 0, 0);
    forall i: nat, b | i < |TABLE|
      ensures WrittenBack(i, b) in puts <==>
        && TABLE[i].put && (c.dirty[i] || WrittenTo(accs, i)) && b == Content(d.nvram, i)
    {
      FlagsAfter(c, accs, i);
      WriteBacksMembers(d, 0, i);
    }
  }

  lemma {:induction false} UnwrittenIn(accs: seq<Access>, i: nat, a: nat)
    requires i < |TABLE| && TABLE[i].Contains(a) && !WrittenTo(accs, i)
    ensures Unwritten(accs, a)
  {
    forall k | 0 <= k < |accs|
      ensures !Writes(accs[k], a)
    {
      assert !WritesRegion(accs[k], i);
    }
  }

  lemma {:induction false} ByteOnlyRead(c: Cache, accs: seq<Access>, i: nat, d: nat)
    requires Fresh(c) && AllProper(accs) && i < |TABLE| && !WrittenTo(accs, i) && d < TABLE[i].size
    requires TABLE[i].addr + d < NVRAM_SIZE
    ensures var (a, held) := (TABLE[i].addr + d, PerformAll(c, accs).nvram[TABLE[i].addr + d]);
      && (Untouched(accs, i) ==> held == c.nvram[a])
      && (forall k: nat :: FirstTouch(accs, k, i) ==> held == Snapshot(accs, k, i)[d])
  {
    var a := TABLE[i].addr + d;
    RefinesDirect(c, accs, a);
    TableDisjoint(a, i);
    UnwrittenIn(accs, i, a);
  }

  // A region that is only read holds its snapshot, or what it held before if it is not even read.
  lemma {:induction false} OnlyRead(c: Cache, accs: seq<Access>, i: nat)
    requires Fresh(c) && AllProper(accs) && i < |TABLE| && !WrittenTo(accs, i)
    ensures var held := Content(PerformAll(c, accs).nvram, i);
      && (Untouched(accs, i) ==> held == Content(c.nvram, i))
      && (forall k: nat :: FirstTouch(accs, k, i) ==> held == Snapshot(accs, k, i))
  {
    if Untouched(accs, i) {
      HoldsBefore(c, accs, i);
    }
    forall k: nat | FirstTouch(accs, k, i)
      ensures Content(PerformAll(c, accs).nvram, i) == Snapshot(accs, k, i)
    {
      HoldsSnapshot(c, accs, i, k);
    }
  }

  lemma {:induction false} HoldsBefore(c: Cache, accs: seq<Access>, i: nat)
    requires Fresh(c) && AllProper(accs) && i < |TABLE| && !WrittenTo(accs, i) && Untouched(accs, i)
    ensures Content(PerformAll(c, accs).nvram, i) == Content(c.nvram, i)
  {
    Inside(i);
    var held, before := Content(PerformAll(c, accs).nvram, i), Content(c.nvram, i);
    forall d: nat | d < TABLE[i].size
      ensures held[d] == before[d]
    {
      ByteOnlyRead(c, accs, i, d);
    }
  }

  lemma {:induction false} HoldsSnapshot(c: Cache, accs: seq<Access>, i: nat, k: nat)
    requires Fresh(c) && AllProper(accs) && i < |TABLE| && !WrittenTo(accs, i) && FirstTouch(accs, k, i)
    ensures Content(PerformAll(c, accs).nvram, i) == Snapshot(accs, k, i)
  {
    Inside(i);
    var held := Content(PerformAll(c, accs).nvram, i);
    forall d: nat | d < TABLE[i].size
      ensures held[d] == Snapshot(accs, k, i)[d]
    {
      ByteOnlyRead(c, accs, i, d);
    }
  }

  /** After a repeated start: byte `d` of region `i` still is what it was before, because nothing took
      its place, or because what did is the same. */
  ghost predicate Survives(before: Bytes, accs: seq<Access>, i: nat, d: nat)
    requires |before| == NVRAM_SIZE && AllProper(accs) && i < |TABLE| && d < TABLE[i].size
    requires TABLE[i].addr + d < NVRAM_SIZE
  {
    var a := TABLE[i].addr + d;
    if Unwritten(accs, a)
    then Untouched(accs, i) || exists k: nat :: FirstTouch(accs, k, i) && Snapshot(accs, k, i)[d] == before[a]
    else exists k: nat :: LastWrite(accs, k, a) && accs[k].value == before[a]
  }

  lemma {:induction false} SurvivesExactly(c: Cache, accs: seq<Access>, i: nat, d: nat)
    requires Fresh(c) && AllProper(accs) && i < |TABLE| && d < TABLE[i].size && TABLE[i].addr + d < NVRAM_SIZE
    ensures var a := TABLE[i].addr + d;
      PerformAll(c, accs).nvram[a] == c.nvram[a] <==> Survives(c.nvram, accs, i, d)
  {
    var a := TABLE[i].addr + d;
    RefinesDirect(c, accs, a);
    TableDisjoint(a, i);
    DirectSurvives(c.nvram, accs, i, d, PerformAll(c, accs).nvram[a]);
  }

  lemma {:induction false} DirectSurvives(before: Bytes, accs: seq<Access>, i: nat, d: nat, v: Byte)
    requires |before| == NVRAM_SIZE && AllProper(accs) && i < |TABLE| && d < TABLE[i].size
    requires var a := TABLE[i].addr + d; a < NVRAM_SIZE && Find(a) == Some(i) && Direct(before, accs, a, v)
    ensures v == before[TABLE[i].addr + d] <==> Survives(before, accs, i, d)
  {
    var a := TABLE[i].addr + d;
    if !Unwritten(accs, a) {
      var k := LastOf(accs, a);
      assert forall j: nat :: LastWrite(accs, j, a) ==> j == k;
    } else if !Untouched(accs, i) {
      var k := FirstOf(accs, i, 0);
      assert forall j: nat :: FirstTouch(accs, j, i) ==> j == k;
    }
  }

  /** A repeated start after data bytes: the region stays due to be written back, but it is no longer
      valid. It is written back once at the end, and a byte written before the repeated start is among
      those written back exactly if no fetch and no later write has replaced it by another. */
  lemma {:induction false} RepeatedStart(c: Cache, accs: seq<Access>, i: nat) returns (puts: seq<Call>, held: Bytes)
    requires Fresh(c) && AllProper(accs) && i < |TABLE| && TABLE[i].put && c.dirty[i]
    ensures Flush(PerformAll(c, accs)).calls == PerformAll(c, accs).calls + puts
    ensures forall bytes :: WrittenBack(i, bytes) in puts <==> bytes == held
    ensures forall j, k :: 0 <= j < k < |puts| ==> puts[j] != puts[k]
    ensures |held| == TABLE[i].size && TABLE[i].addr + |held| <= NVRAM_SIZE
    ensures forall d: nat :: d < |held| ==>
              (held[d] == c.nvram[TABLE[i].addr + d] <==> Survives(c.nvram, accs, i, d))
  {
    Inside(i);
    puts := WrittenBackOnce(c, accs);
    var nvram := PerformAll(c, accs).nvram;
    held := Content(nvram, i);
    forall d: nat | d < |held|
      ensures held[d] == c.nvram[TABLE[i].addr + d] <==> Survives(c.nvram, accs, i, d)
    {
      SurvivesExactly(c, accs, i, d);
      assert held[d] == nvram[TABLE[i].addr + d];
    }
  }

  lemma {:induction false} LastOf(accs: seq<Access>, a: nat) returns (k: nat)
    requires !Unwritten(accs, a)
    ensures LastWrite(accs, k, a)
    decreases |accs|
  {
    Snoc(accs);
    var n := |accs| - 1;
    if Writes(accs[n], a) {
      k := n;
    } else {
      k := LastOf(accs[..n], a);
    }
  }

  lemma {:induction false} FirstOf(accs: seq<Access>, i: nat, from: nat) returns (k: nat)
    requires i < |TABLE| && !Untouched(accs, i) && from <= |accs|
    requires forall j: nat :: j < from ==> !Touches(accs[j], i)
    ensures FirstTouch(accs, k, i)
    decreases |accs| - from
  {
    if Touches(accs[from], i) {
      k := from;
    } else {
      k := FirstOf(accs, i, from + 1);
    }
  }
}
