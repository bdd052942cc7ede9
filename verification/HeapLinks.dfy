/** Free lists as they lie in memory: headers that point to each other. */
module HeapLinks {
  import opened HeapBlocks

  // The memory behind the headers: the two fields of BlockLink_t, by address.
  type Field = map<nat, nat>

  // The i-th header of the list: xStart before the first block, pxEnd after the last.
  ghost function Node(start: nat, f: seq<Block>, end: nat, i: int): nat
    requires -1 <= i <= |f|
  {
    if i < 0 then start else if i < |f| then f[i].addr else end
  }

  ghost predicate Linked(next: Field, size: Field, start: nat, f: seq<Block>, end: nat) {
    && (forall i :: -1 <= i < |f| ==>
          Node(start, f, end, i) in next && next[Node(start, f, end, i)] == Node(start, f, end, i + 1))
    && (forall i :: 0 <= i < |f| ==> f[i].addr in size && size[f[i].addr] == f[i].size)
  }

  ghost predicate SameAt(m: Field, m': Field, a: nat) {
    (a in m <==> a in m') && (a in m ==> m[a] == m'[a])
  }

  // xStart, a header of the list, or the block at `b`.
  ghost predicate Site(start: nat, f: seq<Block>, b: nat, a: nat) {
    a == start || a == b || exists i :: 0 <= i < |f| && f[i].addr == a
  }

  // Memory is the same everywhere else.
  ghost predicate Elsewhere(m: Field, m': Field, start: nat, f: seq<Block>, b: nat) {
    forall a: nat :: !Site(start, f, b, a) ==> SameAt(m, m', a)
  }

  /** Rewiring around one place: the list before it keeps its links, its last header points to the
      new block, and the new block points to what follows. */
  lemma {:induction false} SpliceLinked(next: Field, size: Field, next': Field, size': Field,
                     start: nat, f: seq<Block>, s: Splice, end: nat)
    requires s.before <= s.after <= |f| && Linked(next, size, start, f, end)
    requires forall i :: -1 <= i < s.before - 1 ==>
               SameAt(next, next', Node(start, f, end, i))
    requires Node(start, f, end, s.before - 1) in next'
    requires next'[Node(start, f, end, s.before - 1)] == s.merged.addr
    requires s.merged.addr in next' && next'[s.merged.addr] == Node(start, f, end, s.after)
    requires s.merged.addr in size' && size'[s.merged.addr] == s.merged.size
    requires forall i :: s.after <= i < |f| ==> SameAt(next, next', f[i].addr)
    requires forall i :: 0 <= i < |f| && (i < s.before || s.after <= i) ==> SameAt(size, size', f[i].addr)
    ensures Linked(next', size', start, Spliced(f, s), end)
  {
    var g := Spliced(f, s);
    var gap := s.after - s.before - 1;
    forall i | -1 <= i < |g|
      ensures Node(start, g, end, i) in next'
      ensures next'[Node(start, g, end, i)] == Node(start, g, end, i + 1)
    {
      if i < s.before - 1 {
        assert Node(start, g, end, i) == Node(start, f, end, i);
        assert Node(start, g, end, i + 1) == Node(start, f, end, i + 1);
      } else if i == s.before - 1 {
        assert Node(start, g, end, i) == Node(start, f, end, i);
      } else if i == s.before {
        assert Node(start, g, end, i + 1) == Node(start, f, end, s.after);
      } else {
        assert Node(start, g, end, i) == Node(start, f, end, i + gap) == f[i + gap].addr;
        assert Node(start, g, end, i + 1) == Node(start, f, end, i + gap + 1);
      }
    }
    forall i | 0 <= i < |g|
      ensures g[i].addr in size' && size'[g[i].addr] == g[i].size
    {
      if i < s.before {
        assert g[i] == f[i];
      } else if i > s.before {
        assert g[i] == f[i + gap];
      }
    }
  }

  // No two headers of the list share an address.
  ghost predicate Distinct(start: nat, f: seq<Block>, end: nat) {
    forall i, j :: -1 <= i < j <= |f| ==> Node(start, f, end, i) != Node(start, f, end, j)
  }

  // The block to insert becomes a list entry of its own, perhaps swallowing its successor.
  lemma {:induction false} InsertLinked(next: Field, size: Field, next': Field, size': Field,
                     start: nat, f: seq<Block>, s: Splice, end: nat)
    requires s.before <= s.after <= |f| && Linked(next, size, start, f, end) && Distinct(start, f, end)
    requires forall i :: -1 <= i <= |f| ==> s.merged.addr != Node(start, f, end, i)
    requires next' == next[s.merged.addr := Node(start, f, end, s.after)]
                          [Node(start, f, end, s.before as int - 1) := s.merged.addr]
    requires s.merged.addr in size' && size'[s.merged.addr] == s.merged.size
    requires forall i :: 0 <= i < |f| ==> SameAt(size, size', f[i].addr)
    ensures Linked(next', size', start, Spliced(f, s), end)
  {
    var before: int := s.before - 1;
    forall i | -1 <= i < |f| && i != before
      ensures SameAt(next, next', Node(start, f, end, i))
    {
      assert Node(start, f, end, i) != Node(start, f, end, before);
    }
    assert forall i :: 0 <= i < |f| ==> Node(start, f, end, i) == f[i].addr;
    SpliceLinked(next, size, next', size', start, f, s, end);
  }

  // The block to insert is swallowed by its predecessor, which perhaps swallows its successor too.
  lemma {:induction false} GrowLinked(next: Field, size: Field, next': Field, size': Field,
                   start: nat, f: seq<Block>, s: Splice, end: nat)
    requires s.before < s.after <= |f| && Linked(next, size, start, f, end) && Distinct(start, f, end)
    requires s.merged.addr == f[s.before].addr
    requires next' == next[s.merged.addr := Node(start, f, end, s.after)]
    requires s.merged.addr in size' && size'[s.merged.addr] == s.merged.size
    requires forall i :: 0 <= i < |f| && i != s.before ==> SameAt(size, size', f[i].addr)
    ensures Linked(next', size', start, Spliced(f, s), end)
  {
    var before: int := s.before;
    forall i | -1 <= i < |f| && i != before
      ensures SameAt(next, next', Node(start, f, end, i))
    {
      assert Node(start, f, end, i) != Node(start, f, end, before);
    }
    assert next[Node(start, f, end, before - 1)] == Node(start, f, end, before);
    assert forall i :: 0 <= i < |f| ==> Node(start, f, end, i) == f[i].addr;
    SpliceLinked(next, size, next', size', start, f, s, end);
  }

  // Bypassing block `k`.
  lemma {:induction false} BypassLinked(next: Field, size: Field, next': Field,
                                        start: nat, f: seq<Block>, k: nat, end: nat)
    requires k < |f| && Linked(next, size, start, f, end)
    requires next' == next[Node(start, f, end, k - 1) := Node(start, f, end, k + 1)]
    requires forall i :: -1 <= i < |f| && i != k - 1 ==> Node(start, f, end, i) != Node(start, f, end, k - 1)
    ensures Linked(next', size, start, f[..k] + f[k + 1..], end)
  {
    var g := f[..k] + f[k + 1..];
    forall i | -1 <= i < |g|
      ensures Node(start, g, end, i) in next'
      ensures next'[Node(start, g, end, i)] == Node(start, g, end, i + 1)
    {
      if i < k - 1 {
        assert Node(start, g, end, i) == Node(start, f, end, i);
        assert Node(start, g, end, i + 1) == Node(start, f, end, i + 1);
      } else if i == k - 1 {
        assert Node(start, g, end, i) == Node(start, f, end, i);
        assert Node(start, g, end, i + 1) == Node(start, f, end, i + 2);
      } else {
        assert Node(start, g, end, i) == Node(start, f, end, i + 1);
        assert Node(start, g, end, i + 1) == Node(start, f, end, i + 2);
      }
    }
    assert forall i :: 0 <= i < |g| ==> g[i] == f[if i < k then i else i + 1];
  }

  // The end of the list becomes a marker, and a new block and a new end follow it.
  lemma {:induction false} LinkAppended(next: Field, size: Field, next': Field, size': Field,
                                        start: nat, f: seq<Block>, end: nat, b: Block, end': nat)
    requires Linked(next, size, start, f, end) && end in size && size[end] == 0
    requires next' == next[end' := 0][b.addr := end'][end := b.addr]
    requires size' == size[end' := 0][b.addr := b.size]
    requires start !in {end, b.addr, end'} && end < b.addr < end'
    requires forall i :: 0 <= i < |f| ==> f[i].addr < end
    ensures Linked(next', size', start, f + [Block(end, 0)] + [b], end')
  {
    var g := f + [Block(end, 0)] + [b];
    forall i | 0 <= i < |g|
      ensures g[i].addr in size' && size'[g[i].addr] == g[i].size
    {
      assert i < |f| ==> g[i] == f[i];
    }
    forall i | -1 <= i < |g|
      ensures Node(start, g, end', i) in next'
      ensures next'[Node(start, g, end', i)] == Node(start, g, end', i + 1)
    {
      if i < |f| {
        assert Node(start, g, end', i) == Node(start, f, end, i);
        assert Node(start, g, end', i + 1) == Node(start, f, end, i + 1);
      }
    }
  }
}
