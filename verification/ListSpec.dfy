/** Lists of list.c as sequences: sorted insertion, and the walk of the index. */
module ListSpec {

  // portMAX_DELAY for 32-bit ticks.
  const MAX_DELAY := 0xffff_ffff

  function InsertedAt<T>(s: seq<T>, k: nat, x: T): (r: seq<T>)
    requires k <= |s|
    ensures |r| == |s| + 1
  {
    s[..k] + [x] + s[k..]
  }

  function RemovedAt<T>(s: seq<T>, k: nat): (r: seq<T>)
    requires k < |s|
    ensures |r| == |s| - 1
  {
    s[..k] + s[k + 1..]
  }

  // Where vListInsert() puts a value: behind all leading values that are not greater.
  function Place(values: seq<nat>, v: nat): (k: nat)
    ensures k <= |values|
    ensures forall i :: 0 <= i < k ==> values[i] <= v
    ensures k < |values| ==> values[k] > v
  {
    if values == [] || values[0] > v then 0 else 1 + Place(values[1..], v)
  }

  lemma {:induction false} PlaceIs(values: seq<nat>, v: nat, k: nat)
    requires k <= |values|
    requires forall i :: 0 <= i < k ==> values[i] <= v
    requires k < |values| ==> values[k] > v
    ensures Place(values, v) == k
  {
    if k > 0 {
      assert forall i :: 0 <= i < |values| - 1 ==> values[1..][i] == values[i + 1];
      PlaceIs(values[1..], v, k - 1);
    }
  }

  // ---- the walk of the index ----

  // The items in the order in which listGET_OWNER_OF_NEXT_ENTRY() will return them, when the index
  // rests on the end marker (0) or on the item `rest - 1`.
  function Visits<T>(items: seq<T>, rest: nat): (r: seq<T>)
    requires rest <= |items|
    ensures |r| == |items|
  {
    items[rest..] + items[..rest]
  }

  function Stepped(n: nat, rest: nat): nat { if rest < n then rest + 1 else 1 }

  /** One step returns the first of them and moves it to the end. */
  lemma {:induction false} StepRotates<T>(items: seq<T>, rest: nat)
    requires items != [] && rest <= |items|
    ensures var v := Visits(items, rest);
      && items[Stepped(|items|, rest) - 1] == v[0]
      && Visits(items, Stepped(|items|, rest)) == v[1..] + [v[0]]
  {
    var next := Stepped(|items|, rest);
    assert items[next - 1..] == [items[next - 1]] + items[next..];
    assert items[..next] == items[..next - 1] + [items[next - 1]];
  }

  // What `k` steps return.
  function Returned<T>(items: seq<T>, rest: nat, k: nat): (r: seq<T>)
    requires items != [] && rest <= |items|
    ensures |r| == k
    decreases k
  {
    if k == 0 then []
    else [items[Stepped(|items|, rest) - 1]] + Returned(items, Stepped(|items|, rest), k - 1)
  }

  lemma {:induction false} ReturnedPrefix<T>(items: seq<T>, rest: nat, k: nat)
    requires items != [] && rest <= |items| && k <= |items|
    ensures Returned(items, rest, k) == Visits(items, rest)[..k]
    decreases k
  {
    if k > 0 {
      StepRotates(items, rest);
      ReturnedPrefix(items, Stepped(|items|, rest), k - 1);
    }
  }

  /** Round robin: as many steps as there are items return every item exactly once. */
  lemma {:induction false} RoundRobin<T>(items: seq<T>, rest: nat)
    requires items != [] && rest <= |items|
    ensures Returned(items, rest, |items|) == Visits(items, rest)
    ensures multiset(Returned(items, rest, |items|)) == multiset(items)
  {
    ReturnedPrefix(items, rest, |items|);
    assert items == items[..rest] + items[rest..];
  }

  // vListInsertEnd(): the items, and where the index rests then.
  function AddedAtEnd<T>(items: seq<T>, rest: nat, x: T): (seq<T>, nat)
    requires rest <= |items|
  {
    if rest == 0 then (InsertedAt(items, |items|, x), 0) else (InsertedAt(items, rest - 1, x), rest + 1)
  }

  /** vListInsertEnd() puts the new item in front of the one the index rests on: it is returned after
      all other items, except for that one. */
  lemma {:induction false} InsertEndVisits<T>(items: seq<T>, rest: nat, x: T)
    requires rest <= |items|
    ensures var (v, (t, r)) := (Visits(items, rest), AddedAtEnd(items, rest, x));
      && r <= |t| && (r == 0 <==> rest == 0) && (rest > 0 ==> t[r - 1] == items[rest - 1])
      && Visits(t, r) == if rest == 0 then v + [x] else v[..|v| - 1] + [x, v[|v| - 1]]
  {
    var (t, r) := AddedAtEnd(items, rest, x);
    if rest == 0 {
      assert t == items + [x];
    } else {
      assert t[r..] == items[rest..];
      assert t[..r] == items[..rest - 1] + [x, items[rest - 1]];
    }
  }

  lemma {:induction false} VisitAt<T>(items: seq<T>, rest: nat, i: nat)
    requires rest <= |items| && i < |items|
    ensures Visits(items, rest)[i] == items[if i < |items| - rest then rest + i else rest + i - |items|]
  {
  }

  // uxListRemove() of item `k`: the items that are left, and where the index rests then.
  function Dropped<T>(items: seq<T>, rest: nat, k: nat): (seq<T>, nat)
    requires rest <= |items| && k < |items|
  {
    (RemovedAt(items, k), if rest > k then rest - 1 else rest)
  }

  /** uxListRemove() leaves the order of the remaining visits as it is, even if it removes the item
      the index rests on. */
  lemma {:induction false} RemoveVisits<T>(items: seq<T>, rest: nat, k: nat)
    requires rest <= |items| && k < |items|
    ensures var (t, r) := Dropped(items, rest, k);
      var gone := if k >= rest then k - rest else k + |items| - rest;
      && r <= |t| && Visits(items, rest)[gone] == items[k]
      && Visits(t, r) == RemovedAt(Visits(items, rest), gone)
  {
    var (t, r) := Dropped(items, rest, k);
    var gone := if k >= rest then k - rest else k + |items| - rest;
    var u, w := Visits(t, r), RemovedAt(Visits(items, rest), gone);
    forall i | 0 <= i < |u|
      ensures u[i] == w[i]
    {
      VisitAt(t, r, i);
      VisitAt(items, rest, if i < gone then i else i + 1);
    }
    VisitAt(items, rest, gone);
  }

  // ---- sorted lists ----

  // An entry of a sorted list: what was inserted, under which value, and when.
  datatype Entry<T> = Entry(item: T, value: nat, arrival: nat)

  predicate Precedes<T>(a: Entry<T>, b: Entry<T>) {
    a.value < b.value || (a.value == b.value && a.arrival < b.arrival)
  }

  // Ascending by value, and by arrival among equal values.
  ghost predicate Ranked<T>(s: seq<Entry<T>>, now: nat) {
    && (forall i, j :: 0 <= i < j < |s| ==> Precedes(s[i], s[j]))
    && (forall i :: 0 <= i < |s| ==> s[i].arrival < now)
  }

  function ValuesOf<T>(s: seq<Entry<T>>): (v: seq<nat>)
    ensures |v| == |s| && forall i :: 0 <= i < |s| ==> v[i] == s[i].value
  {
    if s == [] then [] else [s[0].value] + ValuesOf(s[1..])
  }

  datatype Change<T> = Insert(item: T, value: nat) | Remove(position: nat)

  // vListInsert() and uxListRemove(), by position; arrivals are numbered.
  function Changed<T>(s: seq<Entry<T>>, c: Change<T>, now: nat): seq<Entry<T>> {
    match c
    case Insert(item, value) => InsertedAt(s, Place(ValuesOf(s), value), Entry(item, value, now))
    case Remove(k) => if k < |s| then RemovedAt(s, k) else s
  }

  function Run<T>(s: seq<Entry<T>>, cs: seq<Change<T>>, now: nat): seq<Entry<T>>
    decreases |cs|
  {
    if cs == [] then s else Run(Changed(s, cs[0], now), cs[1..], now + 1)
  }

  // Behind all that are not greater, a new entry is in its place.
  lemma {:induction false} InsertedRanked<T>(s: seq<Entry<T>>, k: nat, e: Entry<T>)
    requires Ranked(s, e.arrival) && k <= |s|
    requires forall i :: 0 <= i < k ==> s[i].value <= e.value
    requires k < |s| ==> s[k].value > e.value
    ensures Ranked(InsertedAt(s, k, e), e.arrival + 1)
  {
    var t := InsertedAt(s, k, e);
    assert forall i :: 0 <= i < |t| ==> t[i] == if i < k then s[i] else if i == k then e else s[i - 1];
    forall i | k <= i < |s|
      ensures s[i].value > e.value
    {
      assert i > k ==> Precedes(s[k], s[i]);
    }
  }

  lemma {:induction false} ChangedRanked<T>(s: seq<Entry<T>>, c: Change<T>, now: nat)
    requires Ranked(s, now)
    ensures Ranked(Changed(s, c, now), now + 1)
  {
    match c
    case Insert(item, value) => InsertedRanked(s, Place(ValuesOf(s), value), Entry(item, value, now));
    case Remove(k) =>
      if k < |s| {
        var t := RemovedAt(s, k);
        assert forall i :: 0 <= i < |t| ==> t[i] == s[if i < k then i else i + 1];
      }
  }

  /** A list built by vListInsert() and uxListRemove() alone is at all times ascending, and first in,
      first out among equal values. */
  lemma {:induction false} AlwaysRanked<T>(s: seq<Entry<T>>, cs: seq<Change<T>>, now: nat)
    requires Ranked(s, now)
    ensures Ranked(Run(s, cs, now), now + |cs|)
    decreases |cs|
  {
    if cs != [] {
      ChangedRanked(s, cs[0], now);
      AlwaysRanked(Changed(s, cs[0], now), cs[1..], now + 1);
    }
  }

  // ---- event lists ----

  const MAX_PRIORITIES := 5

  function Priority<T>(e: Entry<T>): int { MAX_PRIORITIES - e.value }

  // prvGetDisinheritPriorityAfterTimeout(): the priority of the head, or the idle priority.
  function DisinheritPriority<T>(waiting: seq<Entry<T>>): int {
    if |waiting| > 0 then MAX_PRIORITIES - waiting[0].value else 0
  }

  /** The head of an event list is the task of the highest priority that has waited longest, and a mutex
      holder falls back to the highest priority among the waiting tasks. */
  lemma {:induction false} HeadIsHighest<T>(cs: seq<Change<T>>)
    ensures var waiting := Run<T>([], cs, 0);
      && (waiting == [] ==> DisinheritPriority(waiting) == 0)
      && (forall e :: e in waiting ==> Priority(e) <= DisinheritPriority(waiting))
      && (waiting != [] ==> exists e :: e in waiting && Priority(e) == DisinheritPriority(waiting))
      && (forall e :: e in waiting && Priority(e) == DisinheritPriority(waiting) ==>
            waiting[0].arrival <= e.arrival)
  {
    var waiting := Run<T>([], cs, 0);
    AlwaysRanked<T>([], cs, 0);
    forall e | e in waiting
      ensures Priority(e) <= DisinheritPriority(waiting)
      ensures Priority(e) == DisinheritPriority(waiting) ==> waiting[0].arrival <= e.arrival
    {
      var i :| 0 <= i < |waiting| && waiting[i] == e;
      assert i > 0 ==> Precedes(waiting[0], waiting[i]);
    }
    assert waiting != [] ==> waiting[0] in waiting;
  }
}
