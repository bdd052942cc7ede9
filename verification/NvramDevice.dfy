/** The I2C event handler of i2c.c, and the arrays it works on. */
module NvramDevice {
  import opened Basics
  import opened NvramSpec
  import opened NvramCache

  /** What i2c2_ev_isr() finds in the status register, in the order in which it looks. */
  datatype Event = Addressed | Received(value: Byte) | Transmit | Stop | NotAcknowledged | Other

  // The cache, and the static variables of the handler, each of 8 bits.
  datatype Device = Device(cache: Cache, base: Byte, offset: Byte, writeCount: Byte)

  predicate DeviceFormed(d: Device) { Formed(d.cache) }

  function Bump(x: Byte): Byte { (x + 1) % 256 }

  function Address(d: Device): (a: nat)
    ensures a < NVRAM_SIZE
  {
    (d.base + d.offset) % NVRAM_SIZE
  }

  // The access that an event makes, if any.
  function AccessOf(d: Device, e: Event, b: Backing): Option<Access> {
    if e.Received? && d.writeCount != 0 then Some(Write(Address(d), e.value, b))
    else if e.Transmit? then Some(Read(Address(d), b))
    else None
  }

  function Next(d: Device, e: Event, b: Backing): (r: Device)
    requires DeviceFormed(d) && Sized(b)
    ensures DeviceFormed(r)
  {
    match e
    case Addressed => d.(cache := Invalidate(d.cache), writeCount := 0)
    case Received(v) =>
      if d.writeCount == 0 then d.(base := v, offset := 0, writeCount := Bump(d.writeCount))
      else d.(cache := Perform(d.cache, Write(Address(d), v, b)), offset := Bump(d.offset),
              writeCount := Bump(d.writeCount))
    case Transmit => d.(cache := Perform(d.cache, Read(Address(d), b)), offset := Bump(d.offset))
    case Stop => d.(cache := Flush(d.cache))
    case NotAcknowledged => d.(cache := Flush(d.cache))
    case Other => d
  }

  // An event, and what the objects behind the regions hold when it happens.
  datatype Moment = Moment(event: Event, backing: Backing)

  // Bytes, in either direction, and interrupts for nothing.
  predicate Within(e: Event) { e.Received? || e.Transmit? || e.Other? }

  predicate Transfers(ms: seq<Moment>) {
    forall k :: 0 <= k < |ms| ==> Within(ms[k].event) && Sized(ms[k].backing)
  }

  function Run(d: Device, ms: seq<Moment>): (r: Device)
    requires DeviceFormed(d) && Transfers(ms)
    ensures DeviceFormed(r)
    decreases |ms|
  {
    if ms == [] then d else Run(Next(d, ms[0].event, ms[0].backing), ms[1..])
  }

  // The accesses of a run, in order.
  function Accesses(d: Device, ms: seq<Moment>): (accs: seq<Access>)
    requires DeviceFormed(d) && Transfers(ms)
    ensures AllProper(accs)
    decreases |ms|
  {
    if ms == [] then []
    else
      var rest := Accesses(Next(d, ms[0].event, ms[0].backing), ms[1..]);
      match AccessOf(d, ms[0].event, ms[0].backing)
      case None => rest
      case Some(acc) => [acc] + rest
  }

  lemma {:induction false} PerformAllCons(c: Cache, acc: Access, accs: seq<Access>)
    requires Formed(c) && Proper(acc) && AllProper(accs)
    ensures AllProper([acc] + accs) && PerformAll(c, [acc] + accs) == PerformAll(Perform(c, acc), accs)
    decreases |accs|
  {
    var all := [acc] + accs;
    assert forall k :: 0 <= k < |all| ==> all[k] == if k == 0 then acc else accs[k - 1];
    if accs == [] {
      assert all[..0] == [] && all == [acc];
    } else {
      var n := |accs| - 1;
      assert all[..n + 1] == [acc] + accs[..n] && all[n + 1] == accs[n];
      PerformAllCons(c, acc, accs[..n]);
    }
  }

  lemma {:induction false} RunPerforms(d: Device, ms: seq<Moment>)
    requires DeviceFormed(d) && Transfers(ms)
    ensures Run(d, ms).cache == PerformAll(d.cache, Accesses(d, ms))
    decreases |ms|
  {
    if ms != [] {
      var d' := Next(d, ms[0].event, ms[0].backing);
      RunPerforms(d', ms[1..]);
      if AccessOf(d, ms[0].event, ms[0].backing).Some? {
        PerformAllCons(d.cache, AccessOf(d, ms[0].event, ms[0].backing).value, Accesses(d', ms[1..]));
      }
    }
  }

  /** The bytes that follow the address, and how it ends: the leader releases the bus, or does not
      acknowledge a byte that it has read. */
  datatype Transfer = Transfer(moments: seq<Moment>, backing: Backing, last: Event)
  {
    predicate Formed() { Transfers(moments) && Sized(backing) && (last.Stop? || last.NotAcknowledged?) }
  }

  function Begun(d: Device, t: Transfer): (r: Device)
    requires DeviceFormed(d) && t.Formed()
    ensures DeviceFormed(r)
  {
    Next(d, Addressed, t.backing)
  }

  function After(d: Device, t: Transfer): (r: Device)
    requires DeviceFormed(d) && t.Formed()
    ensures DeviceFormed(r)
  {
    Next(Run(Begun(d, t), t.moments), t.last, t.backing)
  }

  predicate Clean(d: Device) { forall i :: 0 <= i < |d.cache.dirty| ==> !d.cache.dirty[i] }

  // The byte that the handler sends, if any: the one at the address, once its region is there.
  function Reply(d: Device, e: Event, b: Backing): Option<Byte>
    requires DeviceFormed(d) && Sized(b)
  {
    if e.Transmit? then Some(Next(d, e, b).cache.nvram[Address(d)]) else None
  }

  // ---- the accesses, told from the bytes on the bus ----

  // `cursor` is where the next byte goes, and `received` counts the bytes received: the first of each 256 moves
  // the cursor, and every other byte, in either direction, is for the cell under it and moves it on by one.
  predicate MovesCursor(e: Event, received: nat) { e.Received? && received % 256 == 0 }

  function CursorNext(e: Event, cursor: nat, received: nat): nat {
    if MovesCursor(e, received) then e.value else if e.Other? then cursor else cursor + 1
  }

  function ReceivedNext(e: Event, received: nat): nat { if e.Received? then received + 1 else received }

  function AccessAt(m: Moment, cursor: nat): Access {
    var addr := cursor % NVRAM_SIZE;
    if m.event.Received? then Write(addr, m.event.value, m.backing) else Read(addr, m.backing)
  }

  /** The accesses that the bytes of a transfer ask for. */
  function Asked(cursor: nat, received: nat, ms: seq<Moment>): (accs: seq<Access>)
    requires Transfers(ms)
    ensures AllProper(accs) && (ms != [] && ms[|ms| - 1].event.Transmit? ==> accs != [])
    decreases |ms|
  {
    if ms == [] then []
    else
      var e := ms[0].event;
      var rest := Asked(CursorNext(e, cursor, received), ReceivedNext(e, received), ms[1..]);
      if e.Other? || MovesCursor(e, received) then rest else [AccessAt(ms[0], cursor)] + rest
  }

  // Where the cursor is in the end.
  function CursorAfter(cursor: nat, received: nat, ms: seq<Moment>): nat
    requires Transfers(ms)
    decreases |ms|
  {
    if ms == [] then cursor
    else
      var e := ms[0].event;
      CursorAfter(CursorNext(e, cursor, received), ReceivedNext(e, received), ms[1..])
  }

  // The handler stands at the cursor.
  predicate StandsAt(d: Device, cursor: nat, received: nat) {
    Address(d) == cursor % NVRAM_SIZE && d.writeCount == received % 256
  }

  // Both the sum of two bytes and the cursor wrap round the memory.
  lemma {:induction false} CursorMoves(base: Byte, offset: Byte, cursor: nat)
    requires (base + offset) % NVRAM_SIZE == cursor % NVRAM_SIZE
    ensures (base + Bump(offset)) % NVRAM_SIZE == (cursor + 1) % NVRAM_SIZE
  {
    var x, q := base + offset, (base + offset) / NVRAM_SIZE - cursor / NVRAM_SIZE;
    assert x == cursor + NVRAM_SIZE * q;
    if offset == 255 {
      assert base + Bump(offset) == cursor + 1 + NVRAM_SIZE * (q - 4);
      Wraps(cursor + 1, q - 4);
    } else {
      Wraps(cursor + 1, q);
    }
  }

  lemma {:induction false} Wraps(x: int, q: int)
    ensures (x + NVRAM_SIZE * q) % NVRAM_SIZE == x % NVRAM_SIZE
  {
    var y := x + NVRAM_SIZE * q;
    assert y == NVRAM_SIZE * (x / NVRAM_SIZE + q) + x % NVRAM_SIZE;
  }

  lemma {:induction false} StepStands(d: Device, m: Moment, cursor: nat, received: nat)
    requires DeviceFormed(d) && Sized(m.backing) && StandsAt(d, cursor, received) && Within(m.event)
    ensures var e := m.event;
      && StandsAt(Next(d, e, m.backing), CursorNext(e, cursor, received), ReceivedNext(e, received))
      && AccessOf(d, e, m.backing) ==
           if e.Other? || MovesCursor(e, received) then None else Some(AccessAt(m, cursor))
  {
    CursorMoves(d.base, d.offset, cursor);
    CountWraps(received);
  }

  /** The handler makes just the accesses that are asked for: every byte of a transfer is for the cell behind
      that of the byte before it. */
  lemma {:induction false} AccessesAsked(d: Device, ms: seq<Moment>, cursor: nat, received: nat)
    requires DeviceFormed(d) && Transfers(ms) && StandsAt(d, cursor, received)
    ensures Accesses(d, ms) == Asked(cursor, received, ms)
    ensures Address(Run(d, ms)) == CursorAfter(cursor, received, ms) % NVRAM_SIZE
    decreases |ms|
  {
    if ms != [] {
      var (e, b) := (ms[0].event, ms[0].backing);
      StepStands(d, ms[0], cursor, received);
      AccessesAsked(Next(d, e, b), ms[1..], CursorNext(e, cursor, received), ReceivedNext(e, received));
    }
  }

  // The number of bytes received.
  function ReceivedIn(ms: seq<Moment>): nat {
    if ms == [] then 0 else (if ms[0].event.Received? then 1 else 0) + ReceivedIn(ms[1..])
  }

  /** Up to the 256th byte received, the k-th byte after the base address, written or read, is for the k-th
      cell from there on, round the end of the memory. */
  lemma {:induction false} AskedInOrder(cursor: nat, received: nat, ms: seq<Moment>, k: nat)
    requires Transfers(ms) && (forall j :: 0 <= j < |ms| ==> !ms[j].event.Other?)
    requires 0 < received && received + ReceivedIn(ms) <= 256 && k < |ms|
    ensures var accs := Asked(cursor, received, ms); |accs| == |ms| && accs[k] == AccessAt(ms[k], cursor + k)
    decreases |ms|
  {
    var e, rest := ms[0].event, ms[1..];
    NotMoved(ms, received);
    var accs := Asked(cursor + 1, ReceivedNext(e, received), rest);
    assert Asked(cursor, received, ms) == [AccessAt(ms[0], cursor)] + accs;
    if rest == [] {
      assert accs == [];
    } else {
      AskedInOrder(cursor + 1, ReceivedNext(e, received), rest, if k == 0 then 0 else k - 1);
    }
  }

  lemma {:induction false} NotMoved(ms: seq<Moment>, received: nat)
    requires ms != [] && 0 < received && received + ReceivedIn(ms) <= 256
    ensures !MovesCursor(ms[0].event, received)
    ensures 0 < ReceivedNext(ms[0].event, received)
    ensures ReceivedNext(ms[0].event, received) + ReceivedIn(ms[1..]) == received + ReceivedIn(ms)
  {
  }

  // The address of the last access is where the cursor was before it.
  lemma {:induction false} LastAsked(cursor: nat, received: nat, front: seq<Moment>, m: Moment)
    requires Transfers(front + [m]) && Transfers(front) && m.event.Transmit?
    ensures var accs := Asked(cursor, received, front + [m]);
      accs != [] && accs[|accs| - 1].addr == CursorAfter(cursor, received, front) % NVRAM_SIZE
    decreases |front|
  {
    var all := front + [m];
    if front == [] {
      assert all == [m] && all[1..] == [];
    } else {
      var e := front[0].event;
      assert all[0] == front[0] && all[1..] == front[1..] + [m];
      LastAsked(CursorNext(e, cursor, received), ReceivedNext(e, received), front[1..], m);
    }
  }

  // The byte sent for moment `k` is the one that direct access would have found, under the cursor, after the
  // accesses up to its own.
  ghost predicate SentDirect(before: Bytes, d: Device, ms: seq<Moment>, cursor: nat, k: nat)
    requires |before| == NVRAM_SIZE && DeviceFormed(d) && Transfers(ms) && k < |ms| && ms[k].event.Transmit?
  {
    var accs := Asked(cursor, 0, ms[..k + 1]);
    var sent := Reply(Run(d, ms[..k]), ms[k].event, ms[k].backing);
    sent.Some? && Direct(before, accs, accs[|accs| - 1].addr, sent.value)
  }

  ghost predicate SendsDirect(before: Bytes, d: Device, ms: seq<Moment>, cursor: nat)
    requires |before| == NVRAM_SIZE && DeviceFormed(d) && Transfers(ms)
  {
    forall k: nat :: k < |ms| && ms[k].event.Transmit? ==> SentDirect(before, d, ms, cursor, k)
  }

  /** Every byte sent is what direct access would have sent, and every byte kept what it would have left,
      where the bytes of the transfer said; and the next transfer goes on where this one ends. */
  ghost predicate BytesHonest(d: Device, t: Transfer)
    requires DeviceFormed(d) && t.Formed()
  {
    var (start, nvram) := (d.base + d.offset, After(d, t).cache.nvram);
    && (forall a :: 0 <= a < NVRAM_SIZE ==> Direct(d.cache.nvram, Asked(start, 0, t.moments), a, nvram[a]))
    && SendsDirect(d.cache.nvram, Begun(d, t), t.moments, start)
    && Address(After(d, t)) == CursorAfter(start, 0, t.moments) % NVRAM_SIZE
  }

  /** Each region used was fetched once; and each region written to was written back once, as it is in
      the end. */
  ghost predicate CallsHonest(d: Device, t: Transfer, fetches: seq<Call>, puts: seq<Call>)
    requires DeviceFormed(d) && t.Formed()
  {
    var accs := Asked(d.base + d.offset, 0, t.moments);
    && FetchedOnce(fetches, accs) && After(d, t).cache.calls == d.cache.calls + fetches + puts
    && (forall j, k :: 0 <= j < k < |puts| ==> puts[j] != puts[k])
    && (forall k :: 0 <= k < |puts| ==> puts[k].WrittenBack?)
    && (forall i: nat, bytes :: i < |TABLE| ==>
          (WrittenBack(i, bytes) in puts <==>
             TABLE[i].put && WrittenTo(accs, i) && bytes == Content(After(d, t).cache.nvram, i)))
  }

  ghost predicate Honest(d: Device, t: Transfer, fetches: seq<Call>, puts: seq<Call>)
    requires DeviceFormed(d) && t.Formed()
  {
    BytesHonest(d, t) && CallsHonest(d, t, fetches, puts)
  }

  // A transaction performs its accesses on a fresh cache, which is flushed then.
  lemma {:induction false} AfterIs(d: Device, t: Transfer) returns (c: Cache, accs: seq<Access>)
    requires DeviceFormed(d) && t.Formed()
    ensures accs == Accesses(Begun(d, t), t.moments) && Fresh(c)
    ensures c.nvram == d.cache.nvram && c.dirty == d.cache.dirty && c.calls == d.cache.calls
    ensures After(d, t).cache == Flush(PerformAll(c, accs))
    ensures After(d, t).cache.nvram == PerformAll(c, accs).nvram && Clean(After(d, t))
  {
    var start := Begun(d, t);
    c, accs := start.cache, Accesses(start, t.moments);
    RunPerforms(start, t.moments);
    FlushWritesBack(PerformAll(c, accs), 0);
  }

  // The accesses it performs are those that were asked for.
  lemma {:induction false} TransferAsked(d: Device, t: Transfer)
    requires DeviceFormed(d) && t.Formed()
    ensures Accesses(Begun(d, t), t.moments) == Asked(d.base + d.offset, 0, t.moments)
    ensures Address(After(d, t)) == CursorAfter(d.base + d.offset, 0, t.moments) % NVRAM_SIZE
  {
    EndsMoveNothing(d, t.backing, Addressed);
    AccessesAsked(Begun(d, t), t.moments, d.base + d.offset, 0);
    EndsMoveNothing(Run(Begun(d, t), t.moments), t.backing, t.last);
  }

  // Being addressed, and being let go, moves no cursor.
  lemma {:induction false} EndsMoveNothing(d: Device, b: Backing, e: Event)
    requires DeviceFormed(d) && Sized(b) && (e.Addressed? || e.Stop? || e.NotAcknowledged?)
    ensures Address(Next(d, e, b)) == Address(d)
    ensures Next(d, e, b).writeCount == if e.Addressed? then 0 else d.writeCount
  {
  }

  lemma {:induction false} TransferDirect(d: Device, t: Transfer, a: nat)
    requires DeviceFormed(d) && t.Formed() && a < NVRAM_SIZE
    ensures Direct(d.cache.nvram, Asked(d.base + d.offset, 0, t.moments), a, After(d, t).cache.nvram[a])
  {
    var c, accs := AfterIs(d, t);
    TransferAsked(d, t);
    RefinesDirect(c, accs, a);
  }

  lemma {:induction false} TransferBytes(d: Device, t: Transfer)
    requires DeviceFormed(d) && t.Formed()
    ensures BytesHonest(d, t)
  {
    forall a | 0 <= a < NVRAM_SIZE
      ensures Direct(d.cache.nvram, Asked(d.base + d.offset, 0, t.moments), a, After(d, t).cache.nvram[a])
    {
      TransferDirect(d, t, a);
    }
    TransferAsked(d, t);
    AllSentDirect(Begun(d, t), t.moments, d.base + d.offset);
  }

  // The byte sent for moment `k` is the one there will be in its cell, then.
  lemma {:induction false} ByteSent(d: Device, ms: seq<Moment>, k: nat)
    requires DeviceFormed(d) && Transfers(ms) && k < |ms| && ms[k].event.Transmit?
    ensures Reply(Run(d, ms[..k]), ms[k].event, ms[k].backing)
         == Some(Run(d, ms[..k + 1]).cache.nvram[Address(Run(d, ms[..k]))])
  {
    assert ms[..k + 1] == ms[..k] + [ms[k]];
    RunSnoc(d, ms[..k], ms[k]);
  }

  // It is for the cell under the cursor.
  lemma {:induction false} UnderCursor(d: Device, ms: seq<Moment>, k: nat, cursor: nat)
    requires DeviceFormed(d) && Transfers(ms) && StandsAt(d, cursor, 0) && k < |ms| && ms[k].event.Transmit?
    ensures var accs := Asked(cursor, 0, ms[..k + 1]);
      accs == Accesses(d, ms[..k + 1]) && accs[|accs| - 1].addr == Address(Run(d, ms[..k]))
  {
    AccessesAsked(d, ms[..k], cursor, 0);
    AccessesAsked(d, ms[..k + 1], cursor, 0);
    assert ms[..k + 1] == ms[..k] + [ms[k]];
    LastAsked(cursor, 0, ms[..k], ms[k]);
  }

  lemma {:induction false} ByteSentDirect(d: Device, ms: seq<Moment>, k: nat, cursor: nat)
    requires DeviceFormed(d) && Fresh(d.cache) && Transfers(ms) && StandsAt(d, cursor, 0)
    requires k < |ms| && ms[k].event.Transmit?
    ensures SentDirect(d.cache.nvram, d, ms, cursor, k)
  {
    ByteSent(d, ms, k);
    UnderCursor(d, ms, k, cursor);
    var accs := Accesses(d, ms[..k + 1]);
    RunPerforms(d, ms[..k + 1]);
    RefinesDirect(d.cache, accs, Address(Run(d, ms[..k])));
  }

  /** A whole transaction: whatever the memory held before, after the follower is addressed every byte
      sent is what direct access to the objects would have sent, and every byte kept what it would have
      left; each region used is fetched once; and at the end each region written to is written back once,
      if nothing was due to be written back before. */
  lemma {:induction false} Transaction(d: Device, t: Transfer) returns (fetches: seq<Call>, puts: seq<Call>)
    requires DeviceFormed(d) && t.Formed() && Clean(d)
    ensures Honest(d, t, fetches, puts) && Clean(After(d, t))
  {
    fetches, puts := TransferCalls(d, t);
    TransferBytes(d, t);
  }

  lemma {:induction false} TransferCalls(d: Device, t: Transfer) returns (fetches: seq<Call>, puts: seq<Call>)
    requires DeviceFormed(d) && t.Formed() && Clean(d)
    ensures CallsHonest(d, t, fetches, puts) && Clean(After(d, t))
  {
    var c, accs := AfterIs(d, t);
    TransferAsked(d, t);
    fetches := CallsAfter(c, accs);
    puts := WrittenBackOnce(c, accs);
    var nvram := After(d, t).cache.nvram;
    forall i: nat, bytes | i < |TABLE|
      ensures WrittenBack(i, bytes) in puts <==> TABLE[i].put && WrittenTo(accs, i) && bytes == Content(nvram, i)
    {
      assert !c.dirty[i];
    }
  }

  lemma {:induction false} AllSentDirect(d: Device, ms: seq<Moment>, cursor: nat)
    requires DeviceFormed(d) && Fresh(d.cache) && Transfers(ms) && StandsAt(d, cursor, 0)
    ensures SendsDirect(d.cache.nvram, d, ms, cursor)
  {
    forall k: nat | k < |ms| && ms[k].event.Transmit?
      ensures SentDirect(d.cache.nvram, d, ms, cursor, k)
    {
      ByteSentDirect(d, ms, k, cursor);
    }
  }

  function AfterAll(d: Device, ts: seq<Transfer>): (r: Device)
    requires DeviceFormed(d) && forall k :: 0 <= k < |ts| ==> ts[k].Formed()
    ensures DeviceFormed(r)
  {
    if ts == [] then d else After(AfterAll(d, ts[..|ts| - 1]), ts[|ts| - 1])
  }

  // What one transaction has called.
  datatype Entry = Entry(fetches: seq<Call>, puts: seq<Call>)

  function Calls(log: seq<Entry>): seq<Call> {
    if log == [] then [] else Calls(log[..|log| - 1]) + log[|log| - 1].fetches + log[|log| - 1].puts
  }

  // Each transaction is honest about the memory that the ones before it have left.
  ghost predicate AllHonest(d: Device, ts: seq<Transfer>, log: seq<Entry>)
    requires DeviceFormed(d) && forall k :: 0 <= k < |ts| ==> ts[k].Formed()
    decreases |ts|
  {
    var n := |ts| - 1;
    |log| == |ts| &&
    (ts == [] ||
     (AllHonest(d, ts[..n], log[..n]) && Honest(AfterAll(d, ts[..n]), ts[n], log[n].fetches, log[n].puts)))
  }

  lemma {:induction false} OneMore(d: Device, front: seq<Transfer>, t: Transfer, log: seq<Entry>) returns (e: Entry)
    requires DeviceFormed(d) && (forall k :: 0 <= k < |front| ==> front[k].Formed()) && t.Formed()
    requires Clean(AfterAll(d, front)) && AfterAll(d, front).cache.calls == d.cache.calls + Calls(log)
    ensures Honest(AfterAll(d, front), t, e.fetches, e.puts) && Clean(After(AfterAll(d, front), t))
    ensures After(AfterAll(d, front), t).cache.calls == d.cache.calls + Calls(log + [e])
  {
    var before := AfterAll(d, front);
    var fetches, puts := Transaction(before, t);
    e := Entry(fetches, puts);
    CallsSnoc(before.cache.calls, d.cache.calls, log, e);
    assert After(before, t).cache.calls == before.cache.calls + fetches + puts;
  }

  lemma {:induction false} CallsSnoc(calls: seq<Call>, start: seq<Call>, log: seq<Entry>, e: Entry)
    requires calls == start + Calls(log)
    ensures calls + e.fetches + e.puts == start + Calls(log + [e])
  {
    assert (log + [e])[..|log|] == log;
  }

  /** Any number of transactions: each is honest about the memory that the ones before it have left, and
      the callbacks are called for nothing else. */
  lemma {:induction false} Transactions(d: Device, ts: seq<Transfer>) returns (log: seq<Entry>)
    requires DeviceFormed(d) && Clean(d) && forall k :: 0 <= k < |ts| ==> ts[k].Formed()
    ensures AllHonest(d, ts, log) && Clean(AfterAll(d, ts))
    ensures AfterAll(d, ts).cache.calls == d.cache.calls + Calls(log)
    decreases |ts|
  {
    log := [];
    if ts != [] {
      var n := |ts| - 1;
      var front := Transactions(d, ts[..n]);
      var e := OneMore(d, ts[..n], ts[n], front);
      log := front + [e];
      assert log[..n] == front;
    }
  }

  // ---- a repeated start ----

  // The follower is addressed, and `a` becomes the base address.
  function Based(d: Device, b: Backing, a: Byte): (r: Device)
    requires DeviceFormed(d) && Sized(b)
    ensures r == Device(Invalidate(d.cache), a, 0, 1)
  {
    Next(Next(d, Addressed, b), Received(a), b)
  }

  // What the next byte, or the next byte asked for, does to the cache.
  lemma {:induction false} DataNext(d: Device, b: Backing, a: Byte, v: Byte)
    requires DeviceFormed(d) && Sized(b) && a < NVRAM_SIZE && d.base == a && d.offset == 0 && d.writeCount != 0
    ensures Next(d, Received(v), b).cache == Perform(d.cache, Write(a, v, b))
    ensures Next(d, Transmit, b).cache == Perform(d.cache, Read(a, b))
  {
    assert Address(d) == a;
  }

  // The first use of a region fetches it.
  lemma {:induction false} FirstUse(c: Cache, acc: Access, i: nat)
    requires Fresh(c) && Proper(acc) && i < |TABLE| && acc.addr == TABLE[i].addr && TABLE[i].size > 0
    ensures Perform(c, acc).calls == c.calls + [Fetched(i)]
    ensures Perform(c, acc).dirty == if acc.Write? && TABLE[i].put then c.dirty[i := true] else c.dirty
    ensures acc.Read? ==> Content(Perform(c, acc).nvram, i) == acc.backing[i]
  {
    TableDisjoint(acc.addr, i);
  }

  // Two uses of region `i`, with the valid flags cleared in between.
  lemma {:induction false} UsedTwice(c: Cache, b: Backing, i: nat, v: Byte) returns (c': Cache)
    requires Fresh(c) && Sized(b) && i < |TABLE| && TABLE[i].put && TABLE[i].size > 0
    requires forall j :: 0 <= j < |TABLE| ==> !c.dirty[j]
    ensures TABLE[i].addr < NVRAM_SIZE
    ensures c' == Perform(Invalidate(Perform(c, Write(TABLE[i].addr, v, b))), Read(TABLE[i].addr, b))
    ensures Flush(c').calls == c.calls + [Fetched(i), Fetched(i), WrittenBack(i, b[i])]
  {
    Inside(i);
    var a := TABLE[i].addr;
    FirstUse(c, Write(a, v, b), i);
    var c2 := Invalidate(Perform(c, Write(a, v, b)));
    FirstUse(c2, Read(a, b), i);
    c' := Perform(c2, Read(a, b));
    FlushOnly(c', i);
  }

  lemma {:induction false} FlushOnly(c: Cache, i: nat)
    requires Formed(c) && i < |TABLE| && TABLE[i].put && c.dirty[i]
    requires forall j :: 0 <= j < |TABLE| && j != i ==> !c.dirty[j]
    ensures Flush(c).calls == c.calls + [WrittenBack(i, Content(c.nvram, i))]
  {
    WriteBacksOnly(c, i, 0);
    FlushWritesBack(c, 0);
  }

  /** A byte that is written, then read after a repeated start, is lost: what is put in the end is what
      the object held all along. */
  lemma {:induction false} RepeatedStartLoses(d: Device, b: Backing, i: nat, v: Byte)
    requires DeviceFormed(d) && Sized(b) && Clean(d) && i < |TABLE| && TABLE[i].put && TABLE[i].size > 0
    ensures TABLE[i].addr < NVRAM_SIZE
    ensures var a := TABLE[i].addr;
      var written := Next(Based(d, b, a), Received(v), b);
      var end := Next(Next(Based(written, b, a), Transmit, b), Stop, b);
      end.cache.calls == d.cache.calls + [Fetched(i), Fetched(i), WrittenBack(i, b[i])]
  {
    var c' := UsedTwice(Invalidate(d.cache), b, i, v);
    var a := TABLE[i].addr;
    DataNext(Based(d, b, a), b, a, v);
    var written := Next(Based(d, b, a), Received(v), b);
    DataNext(Based(written, b, a), b, a, v);
  }

  // ---- which bytes are data ----

  function Receipts(values: Bytes, b: Backing): (ms: seq<Moment>)
    requires Sized(b)
    ensures Transfers(ms) && |ms| == |values|
  {
    if values == [] then [] else Receipts(values[..|values| - 1], b) + [Moment(Received(values[|values| - 1]), b)]
  }

  lemma {:induction false} RunSnoc(d: Device, ms: seq<Moment>, m: Moment)
    requires DeviceFormed(d) && Transfers(ms) && Sized(m.backing) && (m.event.Received? || m.event.Transmit?)
    ensures Transfers(ms + [m]) && Run(d, ms + [m]) == Next(Run(d, ms), m.event, m.backing)
    decreases |ms|
  {
    var all := ms + [m];
    if ms == [] {
      assert all == [m] && all[1..] == [];
    } else {
      assert all[0] == ms[0] && all[1..] == ms[1..] + [m];
      RunSnoc(Next(d, ms[0].event, ms[0].backing), ms[1..], m);
    }
  }

  // The count of received bytes wraps at 8 bits.
  lemma {:induction false} CountWraps(n: nat)
    ensures Bump(n % 256) == (n + 1) % 256
  {
    var q, r := n / 256, n % 256;
    assert n == 256 * q + r;
    if r < 255 {
      assert (256 * q + (r + 1)) % 256 == r + 1;
    } else {
      assert (256 * (q + 1)) % 256 == 0;
    }
  }

  lemma {:induction false} ReceiptStep(d: Device, b: Backing, v: Byte, n: nat)
    requires DeviceFormed(d) && Sized(b) && d.writeCount == n % 256
    ensures var s := Next(d, Received(v), b);
      && s.writeCount == (n + 1) % 256
      && (n % 256 == 0 ==> s.base == v && s.offset == 0)
      && (n % 256 != 0 ==> s.base == d.base)
      && (0 < n < 256 && d.offset == n - 1 ==> s.offset == n)
  {
    CountWraps(n);
  }

  /** After the follower is addressed and has received `values`, the next byte is taken as an address,
      not as data, exactly if a multiple of 256 bytes came before it: up to 255 data bytes of a transfer
      are stored one after the other, the 256th sets the base address. */
  lemma {:induction false} DataOrAddress(d: Device, b: Backing, values: Bytes)
    requires DeviceFormed(d) && Sized(b)
    ensures var s := Run(Next(d, Addressed, b), Receipts(values, b));
      && s.writeCount == |values| % 256
      && (AccessOf(s, Received(0), b).None? <==> |values| % 256 == 0)
      && (0 < |values| <= 256 ==> s.base == values[0] && s.offset == |values| - 1)
    decreases |values|
  {
    if values != [] {
      var front, v, start := values[..|values| - 1], values[|values| - 1], Next(d, Addressed, b);
      DataOrAddress(d, b, front);
      RunSnoc(start, Receipts(front, b), Moment(Received(v), b));
      ReceiptStep(Run(start, Receipts(front, b)), b, v, |front|);
      assert Run(start, Receipts(values, b)) == Next(Run(start, Receipts(front, b)), Received(v), b);
      assert front != [] ==> front[0] == values[0];
    }
  }

  // ---- the handler as it works, on its arrays ----

  class Follower {
    const nvram: array<Byte>
    const valid: array<bool>
    const dirty: array<bool>
    var base: Byte
    var offset: Byte
    var writeCount: Byte
    ghost var calls: seq<Call>

    ghost predicate Valid() {
      nvram.Length == NVRAM_SIZE && valid.Length == |TABLE| && dirty.Length == |TABLE| && valid != dirty
    }

    ghost function Cached(): Cache
      reads this`calls, nvram, valid, dirty
    {
      Cache(nvram[..], valid[..], dirty[..], calls)
    }

    ghost function View(): Device
      reads this, nvram, valid, dirty
    {
      Device(Cached(), base, offset, writeCount)
    }

    // Static storage starts out as zeros.
    constructor ()
      ensures Valid() && fresh(nvram) && fresh(valid) && fresh(dirty)
      ensures var none := seq(|TABLE|, _ => false);
        View() == Device(Cache(seq(NVRAM_SIZE, _ => 0), none, none, []), 0, 0, 0)
    {
      nvram := new Byte[NVRAM_SIZE](_ => 0);
      valid := new bool[|TABLE|](_ => false);
      dirty := new bool[|TABLE|](_ => false);
      base, offset, writeCount, calls := 0, 0, 0, [];
      new;
      assert nvram[..] == seq(NVRAM_SIZE, _ => 0);
      assert valid[..] == seq(|TABLE|, _ => false) == dirty[..];
    }

    /** cache_invalidate(). */
    method CacheInvalidate()
      requires Valid()
      modifies valid
      ensures Cached() == Invalidate(old(Cached()))
    {
      var i := 0;
      while i < |TABLE|
        invariant i <= |TABLE| && forall j :: 0 <= j < i ==> !valid[j]
      {
        valid[i] := false;
        i := i + 1;
      }
      assert valid[..] == seq(|TABLE|, _ => false);
    }

    /** cache_flush(): the put callback gets the bytes of its region. */
    method CacheFlush()
      requires Valid()
      modifies dirty, this`calls
      ensures Cached() == Flush(old(Cached()))
    {
      var i := 0;
      while i < |TABLE|
        invariant i <= |TABLE| && FlushFrom(Cached(), i) == Flush(old(Cached()))
      {
        ghost var c := Cached();
        if dirty[i] {
          if TABLE[i].put {
            Inside(i);
            calls := calls + [WrittenBack(i, nvram[TABLE[i].addr..TABLE[i].addr + TABLE[i].size])];
          }
          dirty[i] := false;
        }
        assert Cached() == FlushOne(c, i);
        i := i + 1;
      }
    }

    /** find_region_containing(). */
    static method FindRegionContaining(addr: nat) returns (region: Option<nat>)
      ensures region == Find(addr)
    {
      var i := 0;
      while i < |TABLE|
        invariant i <= |TABLE| && FindFrom(i, addr) == Find(addr)
      {
        if TABLE[i].addr <= addr < TABLE[i].addr + TABLE[i].size {
          return Some(i);
        }
        i := i + 1;
      }
      region := None;
    }

    // The get callback of region `i` fills its bytes with what the object behind it holds.
    method Get(i: nat, b: Backing)
      requires Valid() && Sized(b) && i < |TABLE|
      modifies nvram, this`calls
      ensures nvram[..] == Overwritten(old(nvram[..]), i, b[i]) && calls == old(calls) + [Fetched(i)]
    {
      Inside(i);
      var r := TABLE[i];
      forall k | 0 <= k < r.size {
        nvram[r.addr + k] := b[i][k];
      }
      calls := calls + [Fetched(i)];
      ghost var was := old(nvram[..]);
      forall a | 0 <= a < NVRAM_SIZE
        ensures nvram[a] == Overwritten(was, i, b[i])[a]
      {
        assert r.Contains(a) ==> nvram[r.addr + (a - r.addr)] == b[i][a - r.addr];
      }
    }

    // What nvram_get() and nvram_put() begin with.
    method FaultIn(addr: nat, b: Backing) returns (region: Option<nat>)
      requires Valid() && Sized(b)
      modifies nvram, valid, this`calls
      ensures Cached() == Fault(old(Cached()), addr, b) && region == Find(addr)
    {
      region := FindRegionContaining(addr);
      if region.Some? && !valid[region.value] {
        Get(region.value, b);
        valid[region.value] := true;
      }
    }

    /** nvram_get(). */
    method NvramGet(b: Backing) returns (val: Byte)
      requires Valid() && Sized(b)
      modifies nvram, valid, this`calls
      ensures var addr := old(Address(View()));
        Cached() == Perform(old(Cached()), Read(addr, b)) && val == Cached().nvram[addr]
    {
      var addr := (base + offset) % NVRAM_SIZE;
      var region := FaultIn(addr, b);
      val := nvram[addr];
    }

    /** nvram_put(). */
    method NvramPut(value: Byte, b: Backing)
      requires Valid() && Sized(b)
      modifies nvram, valid, dirty, this`calls
      ensures Cached() == Perform(old(Cached()), Write(old(Address(View())), value, b))
    {
      var addr := (base + offset) % NVRAM_SIZE;
      var region := FaultIn(addr, b);
      nvram[addr] := value;
      if region.Some? && TABLE[region.value].put {
        dirty[region.value] := true;
      }
    }

    /** i2c2_ev_isr(): the new state is that of Next, and the byte sent is the one at the address. */
    method EventIsr(e: Event, b: Backing) returns (sent: Option<Byte>)
      requires Valid() && Sized(b)
      modifies this, nvram, valid, dirty
      ensures View() == Next(old(View()), e, b)
      ensures sent == Reply(old(View()), e, b)
    {
      sent := None;
      match e
      case Addressed =>
        writeCount := 0;
        CacheInvalidate();
      case Received(val) =>
        if writeCount == 0 {
          base := val;
          offset := 0;
        } else {
          NvramPut(val, b);
          offset := Bump(offset);
        }
        writeCount := Bump(writeCount);
      case Transmit =>
        var val := NvramGet(b);
        offset := Bump(offset);
        sent := Some(val);
      case Stop => CacheFlush();
      case NotAcknowledged => CacheFlush();
      case Other =>
    }
  }
}
