/** list.c: circular doubly linked lists around an end marker. */
module Lists {
  import opened ListSpec

  class ListItem {
    var xItemValue: nat
    var pxNext: ListItem?
    var pxPrevious: ListItem?
    var pxContainer: List?

    // vListInitialiseItem().
    constructor (value: nat)
      ensures xItemValue == value && pxContainer == null
    {
      xItemValue := value;
      pxNext, pxPrevious, pxContainer := null, null, null;
    }
  }

  ghost function After(nodes: seq<ListItem>, i: nat): ListItem
    requires i < |nodes|
  {
    if i == |nodes| - 1 then nodes[0] else nodes[i + 1]
  }

  ghost function Before(nodes: seq<ListItem>, i: nat): ListItem
    requires i < |nodes|
  {
    if i == 0 then nodes[|nodes| - 1] else nodes[i - 1]
  }

  ghost predicate Distinct(nodes: seq<ListItem>) {
    forall i, j :: 0 <= i < j < |nodes| ==> nodes[i] != nodes[j]
  }

  // The links lead round the nodes, forwards and backwards.
  ghost predicate Forwards(nodes: seq<ListItem>)
    reads nodes`pxNext
  {
    forall i {:trigger After(nodes, i)} :: 0 <= i < |nodes| ==> nodes[i].pxNext == After(nodes, i)
  }

  ghost predicate Backwards(nodes: seq<ListItem>)
    reads nodes`pxPrevious
  {
    forall i {:trigger Before(nodes, i)} :: 0 <= i < |nodes| ==> nodes[i].pxPrevious == Before(nodes, i)
  }

  ghost predicate Linked(nodes: seq<ListItem>)
    reads nodes`pxNext, nodes`pxPrevious
  {
    Forwards(nodes) && Backwards(nodes)
  }

  class List {
    var uxNumberOfItems: nat
    var pxIndex: ListItem
    const xListEnd: ListItem
    // The end marker, and the items from the head of the list on.
    ghost var nodes: seq<ListItem>
    // Where pxIndex rests.
    ghost var rest: nat

    ghost predicate Valid()
      reads this, nodes
    {
      && nodes != [] && nodes[0] == xListEnd && Distinct(nodes) && Linked(nodes)
      && uxNumberOfItems == |nodes| - 1 && rest < |nodes| && pxIndex == nodes[rest]
      && xListEnd.xItemValue == MAX_DELAY && xListEnd.pxContainer == null
      && forall y :: y in nodes && y != xListEnd ==> y.pxContainer == this && y.xItemValue <= MAX_DELAY
    }

    ghost function Items(): seq<ListItem>
      requires Valid()
      reads this, nodes
    {
      nodes[1..]
    }

    ghost function Values(): (v: seq<nat>)
      requires Valid()
      reads this, nodes
      ensures |v| == |nodes| - 1
    {
      seq(|nodes| - 1, i requires 0 <= i < |nodes| - 1 reads this, nodes => nodes[i + 1].xItemValue)
    }

    // vListInitialise().
    constructor ()
      ensures Valid() && Items() == [] && fresh(xListEnd)
    {
      var end := new ListItem(MAX_DELAY);
      xListEnd := end;
      pxIndex := end;
      uxNumberOfItems := 0;
      nodes, rest := [end], 0;
      new;
      xListEnd.pxNext := xListEnd;
      xListEnd.pxPrevious := xListEnd;
    }

    // `m` are the nodes of a list whose index rests on node `r`.
    ghost predicate Sound(m: seq<ListItem>, r: nat)
      reads this`pxIndex, m`pxNext, m`pxPrevious
    {
      m != [] && m[0] == xListEnd && Distinct(m) && Linked(m) && r < |m| && pxIndex == m[r]
    }

    // The four assignments that link `x` in behind node `k`.
    method LinkBehind(pxIterator: ListItem, x: ListItem, ghost k: nat) returns (ghost m: seq<ListItem>, ghost r: nat)
      requires Sound(nodes, rest) && x !in nodes && k < |nodes| && pxIterator == nodes[k]
      modifies nodes`pxNext, nodes`pxPrevious, x`pxNext, x`pxPrevious
      ensures Sound(m, r) && m[1..] == InsertedAt(nodes[1..], k, x) && r == (if k < rest then rest + 1 else rest)
      ensures forall y :: y in m <==> y == x || y in nodes
    {
      ghost var n := nodes;
      assert pxIterator.pxNext == After(n, k);
      x.pxNext := pxIterator.pxNext;
      x.pxNext.pxPrevious := x;
      x.pxPrevious := pxIterator;
      pxIterator.pxNext := x;
      assert pxIterator.pxNext == x && x.pxNext == After(n, k);
      RelinkedForwards(n, k, x);
      RelinkedBackwards(n, k, x);
      m, r := InsertedAt(n, k + 1, x), if k < rest then rest + 1 else rest;
    }

    // The two assignments that unlink node `q`, and the step back of an index that rests on it.
    method Unlink(x: ListItem, ghost q: nat) returns (ghost m: seq<ListItem>, ghost r: nat)
      requires Sound(nodes, rest) && 0 < q < |nodes| && x == nodes[q]
      modifies this`pxIndex, nodes`pxNext, nodes`pxPrevious
      ensures Sound(m, r) && m[1..] == RemovedAt(nodes[1..], q - 1) && r == (if rest >= q then rest - 1 else rest)
      ensures forall y :: y in m <==> y != x && y in nodes
    {
      ghost var n := nodes;
      assert x.pxNext == After(n, q) && x.pxPrevious == Before(n, q) == n[q - 1];
      x.pxNext.pxPrevious := x.pxPrevious;
      x.pxPrevious.pxNext := x.pxNext;
      if pxIndex == x {
        pxIndex := x.pxPrevious;
      }
      UnlinkedForwards(n, q);
      UnlinkedBackwards(n, q);
      NodesRemoved(n, q);
      m, r := RemovedAt(n, q), if rest >= q then rest - 1 else rest;
    }

    // The search of vListInsert(). The value of the end marker would keep the loop from ending, so that
    // value goes to the end at once.
    method FindPlace(xValueOfInsertion: nat) returns (pxIterator: ListItem, ghost k: nat)
      requires Valid() && xValueOfInsertion <= MAX_DELAY
      ensures k == Place(Values(), xValueOfInsertion) && pxIterator == nodes[k]
    {
      k := 0;
      if xValueOfInsertion == MAX_DELAY {
        assert xListEnd.pxPrevious == Before(nodes, 0);
        pxIterator := xListEnd.pxPrevious;
        k := |nodes| - 1;
      } else {
        pxIterator := xListEnd;
        assert xListEnd.pxNext == After(nodes, 0);
        while pxIterator.pxNext.xItemValue <= xValueOfInsertion
          invariant k < |nodes| && pxIterator == nodes[k] && pxIterator.pxNext == After(nodes, k)
          invariant forall i :: 0 < i <= k ==> nodes[i].xItemValue <= xValueOfInsertion
          decreases |nodes| - k
        {
          pxIterator := pxIterator.pxNext;
          k := k + 1;
          assert pxIterator.pxNext == After(nodes, k);
        }
      }
      PlaceIs(Values(), xValueOfInsertion, k);
    }

    // What both insertions end with.
    method Enlist(pxIterator: ListItem, x: ListItem, ghost k: nat)
      requires Valid() && x !in nodes && x.xItemValue <= MAX_DELAY && k < |nodes| && pxIterator == nodes[k]
      modifies this`uxNumberOfItems, this`nodes, this`rest
      modifies nodes`pxNext, nodes`pxPrevious, x`pxNext, x`pxPrevious, x`pxContainer
      ensures Valid() && Items() == InsertedAt(old(Items()), k, x)
      ensures rest == (if k < old(rest) then old(rest) + 1 else old(rest)) && x.pxContainer == this
    {
      nodes, rest := LinkBehind(pxIterator, x, k);
      x.pxContainer := this;
      uxNumberOfItems := uxNumberOfItems + 1;
    }

    /** vListInsert(): behind the leading items whose values are not greater. */
    method Insert(x: ListItem)
      requires Valid() && x !in nodes && x.xItemValue <= MAX_DELAY
      modifies this`uxNumberOfItems, this`nodes, this`rest
      modifies nodes`pxNext, nodes`pxPrevious, x`pxNext, x`pxPrevious, x`pxContainer
      ensures Valid()
      ensures Items() == InsertedAt(old(Items()), Place(old(Values()), x.xItemValue), x)
      ensures pxIndex == old(pxIndex) && x.pxContainer == this
    {
      var pxIterator;
      ghost var k;
      pxIterator, k := FindPlace(x.xItemValue);
      Enlist(pxIterator, x, k);
    }

    /** vListInsertEnd(): in front of the item the index rests on, so that it is returned last. */
    method InsertEnd(x: ListItem)
      requires Valid() && x !in nodes && x.xItemValue <= MAX_DELAY
      modifies this`uxNumberOfItems, this`nodes, this`rest
      modifies nodes`pxNext, nodes`pxPrevious, x`pxNext, x`pxPrevious, x`pxContainer
      ensures Valid() && pxIndex == old(pxIndex) && x.pxContainer == this
      ensures (Items(), rest) == AddedAtEnd(old(Items()), old(rest), x)
    {
      ghost var k := if rest == 0 then |nodes| - 1 else rest - 1;
      assert pxIndex.pxPrevious == Before(nodes, rest) == nodes[k];
      Enlist(pxIndex.pxPrevious, x, k);
    }

    /** uxListRemove(): an index that rests on the item moves back by one. */
    method Remove(x: ListItem, ghost q: nat) returns (left: nat)
      requires Valid() && 0 < q < |nodes| && x == nodes[q]
      modifies this`uxNumberOfItems, this`pxIndex, this`nodes, this`rest
      modifies nodes`pxNext, nodes`pxPrevious, x`pxContainer
      ensures Valid() && left == |Items()| && x.pxContainer == null
      ensures (Items(), rest) == Dropped(old(Items()), old(rest), q - 1)
    {
      nodes, rest := Unlink(x, q);
      x.pxContainer := null;
      uxNumberOfItems := uxNumberOfItems - 1;
      left := uxNumberOfItems;
    }

    /** listGET_OWNER_OF_NEXT_ENTRY(): the index moves on, past the end marker. */
    method NextEntry() returns (x: ListItem)
      requires Valid() && Items() != []
      modifies this`pxIndex, this`rest
      ensures Valid() && Items() == old(Items()) && rest == Stepped(|Items()|, old(rest))
      ensures x == Items()[rest - 1]
    {
      assert pxIndex.pxNext == After(nodes, rest);
      assert xListEnd.pxNext == After(nodes, 0);
      pxIndex := pxIndex.pxNext;
      rest := if rest == |nodes| - 1 then 0 else rest + 1;
      if pxIndex == xListEnd {
        pxIndex := pxIndex.pxNext;
        rest := 1;
      }
      x := pxIndex;
    }
  }

  lemma {:induction false} RelinkedForwards(n: seq<ListItem>, k: nat, x: ListItem)
    requires Distinct(n) && x !in n && k < |n|
    requires n[k].pxNext == x && x.pxNext == After(n, k)
    requires forall i {:trigger After(n, i)} :: 0 <= i < |n| && i != k ==> n[i].pxNext == After(n, i)
    ensures Forwards(InsertedAt(n, k + 1, x))
  {
    var m := InsertedAt(n, k + 1, x);
    forall i | 0 <= i < |m|
      ensures m[i].pxNext == After(m, i)
    {
      assert m[i] == if i <= k then n[i] else if i == k + 1 then x else n[i - 1];
      assert i < k ==> n[i].pxNext == After(n, i);
      assert i > k + 1 ==> n[i - 1].pxNext == After(n, i - 1);
    }
  }

  lemma {:induction false} RelinkedBackwards(n: seq<ListItem>, k: nat, x: ListItem)
    requires Distinct(n) && x !in n && k < |n|
    requires x.pxPrevious == n[k] && After(n, k).pxPrevious == x
    requires forall i {:trigger Before(n, i)} :: 0 <= i < |n| && n[i] != After(n, k) ==> n[i].pxPrevious == Before(n, i)
    ensures Backwards(InsertedAt(n, k + 1, x))
  {
    var m := InsertedAt(n, k + 1, x);
    forall i | 0 <= i < |m|
      ensures m[i].pxPrevious == Before(m, i)
    {
      assert m[i] == if i <= k then n[i] else if i == k + 1 then x else n[i - 1];
      assert 0 < i <= k ==> n[i].pxPrevious == Before(n, i);
      assert i > k + 2 ==> n[i - 1].pxPrevious == Before(n, i - 1);
      assert i == 0 && k < |n| - 1 ==> n[0].pxPrevious == Before(n, 0);
    }
  }

  lemma {:induction false} UnlinkedForwards(n: seq<ListItem>, q: nat)
    requires Distinct(n) && 0 < q < |n|
    requires n[q - 1].pxNext == After(n, q)
    requires forall i {:trigger After(n, i)} :: 0 <= i < |n| && i != q - 1 && i != q ==> n[i].pxNext == After(n, i)
    ensures Forwards(RemovedAt(n, q))
  {
    var m := RemovedAt(n, q);
    forall i | 0 <= i < |m|
      ensures m[i].pxNext == After(m, i)
    {
      assert m[i] == if i < q then n[i] else n[i + 1];
      assert i < q - 1 ==> n[i].pxNext == After(n, i);
      assert i >= q ==> n[i + 1].pxNext == After(n, i + 1);
    }
  }

  lemma {:induction false} UnlinkedBackwards(n: seq<ListItem>, q: nat)
    requires Distinct(n) && 0 < q < |n|
    requires After(n, q).pxPrevious == n[q - 1]
    requires forall i {:trigger Before(n, i)} :: 0 <= i < |n| && i != q && n[i] != After(n, q) ==>
               n[i].pxPrevious == Before(n, i)
    ensures Backwards(RemovedAt(n, q))
  {
    var m := RemovedAt(n, q);
    forall i | 0 <= i < |m|
      ensures m[i].pxPrevious == Before(m, i)
    {
      assert m[i] == if i < q then n[i] else n[i + 1];
      assert 0 < i < q ==> n[i].pxPrevious == Before(n, i);
      assert i > q ==> n[i + 1].pxPrevious == Before(n, i + 1);
      assert i == 0 && q < |n| - 1 ==> n[0].pxPrevious == Before(n, 0);
    }
  }

  // The nodes without node `q`.
  lemma {:induction false} NodesRemoved(n: seq<ListItem>, q: nat)
    requires Distinct(n) && 0 < q < |n|
    ensures var m := RemovedAt(n, q);
      && m[0] == n[0] && Distinct(m) && m[1..] == RemovedAt(n[1..], q - 1)
      && (forall y :: y in m <==> y != n[q] && y in n)
      && (forall i :: 0 <= i < |n| && i != q ==> n[i] == m[if q < i then i - 1 else i])
  {
    var m := RemovedAt(n, q);
    assert forall i :: 0 <= i < |m| ==> m[i] == if i < q then n[i] else n[i + 1];
  }
}
