/** Where the wake-up protocol of queue.c ends: the 8-bit lock counters, and the reset. Also the
    order of delivery, which holds without such limits. */
module QueueLimits {
  import opened Basics
  import opened QueueSpec
  import opened QueueProtocol
  import opened QueueWakeups

  // ---- deferred wake-ups against immediate ones ----

  // Interrupt handlers post a series of items; a full queue refuses them.
  function PostAll(q: Queue, xs: seq<Item>): Queue
    decreases |xs|
  {
    if xs == [] then q
    else PostAll(if RoomFor(q, Back) then SendFromISR(q, xs[0], Back) else q, xs[1..])
  }

  // Interrupt handlers take a number of items; an empty queue has none.
  function TakeAll(q: Queue, n: nat): Queue
    decreases n
  {
    if n == 0 then q else TakeAll(if q.Count() > 0 then ReceiveFromISR(q) else q, n - 1)
  }

  lemma {:induction false} PostsRefused(q: Queue, xs: seq<Item>)
    requires 0 <= q.Free() <= |xs|
    ensures PostAll(q, xs) == PostAll(q, xs[..q.Free()])
    decreases |xs|
  {
    if q.Free() > 0 {
      var q' := SendFromISR(q, xs[0], Back);
      assert q'.Free() == q.Free() - 1;
      PostsRefused(q', xs[1..]);
      assert xs[..q.Free()][1..] == xs[1..][..q'.Free()];
    } else if xs != [] {
      PostsRefused(q, xs[1..]);
    }
  }

  lemma {:induction false} TakesInVain(q: Queue, n: nat)
    requires q.Count() <= n
    ensures TakeAll(q, n) == TakeAll(q, q.Count())
    decreases n
  {
    if q.Count() > 0 {
      TakesInVain(ReceiveFromISR(q), n - 1);
    } else if n > 0 {
      TakesInVain(q, n - 1);
    }
  }

  // The lock counter after `k` posts to a locked queue: it wraps, and at -1 looks unlocked.
  function CounterAfter(k: nat): int {
    if k <= 127 then k else if k <= 255 then k - 256 else -1
  }

  // The readers that a locked queue wakes for `k` posts, at once or when it is unlocked.
  function WokenLate(k: nat): nat {
    if k <= 127 then k else if k <= 255 then 0 else k - 255
  }

  lemma {:induction false} PostedUnlocked(q: Queue, xs: seq<Item>)
    requires q.tx == UNLOCKED && |xs| <= q.Free()
    ensures PostAll(q, xs) == q.(items := q.items + xs, waitReceive := WakeMany(q.waitReceive, |xs|))
    decreases |xs|
  {
    if xs == [] {
      assert q.items + xs == q.items;
    } else {
      var q' := SendFromISR(q, xs[0], Back);
      PostedUnlocked(q', xs[1..]);
      assert q'.items + xs[1..] == q.items + xs;
      assert WakeMany(q'.waitReceive, |xs| - 1) == WakeMany(q.waitReceive, |xs|);
    }
  }

  lemma {:induction false} PostedLocked(q: Queue, xs: seq<Item>, k: nat)
    requires q.tx == CounterAfter(k) && |xs| <= q.Free()
    ensures PostAll(q, xs) == q.(items := q.items + xs, tx := CounterAfter(k + |xs|),
                                 waitReceive := WakeMany(q.waitReceive, Max(0, k + |xs| - Max(255, k))))
    decreases |xs|
  {
    if xs == [] {
      assert q.items + xs == q.items;
    } else {
      var q' := SendFromISR(q, xs[0], Back);
      assert q'.items + xs[1..] == q.items + xs;
      if k >= 255 {
        PostedLocked(q', xs[1..], k + 1);
        assert WakeMany(q'.waitReceive, |xs| - 1) == WakeMany(q.waitReceive, |xs|);
      } else {
        assert q'.tx == CounterAfter(k + 1);
        PostedLocked(q', xs[1..], k + 1);
      }
    }
  }

  lemma {:induction false} TakenUnlocked(q: Queue, n: nat)
    requires q.rx == UNLOCKED && n <= q.Count()
    ensures TakeAll(q, n) == q.(items := q.items[n..], waitSend := WakeMany(q.waitSend, n))
    decreases n
  {
    if n > 0 {
      var q' := ReceiveFromISR(q);
      TakenUnlocked(q', n - 1);
      assert q'.items[n - 1..] == q.items[n..];
      assert WakeMany(q'.waitSend, n - 1) == WakeMany(q.waitSend, n);
    }
  }

  lemma {:induction false} TakenLocked(q: Queue, n: nat, k: nat)
    requires q.rx == CounterAfter(k) && n <= q.Count()
    ensures TakeAll(q, n) == q.(items := q.items[n..], rx := CounterAfter(k + n),
                                waitSend := WakeMany(q.waitSend, Max(0, k + n - Max(255, k))))
    decreases n
  {
    if n > 0 {
      var q' := ReceiveFromISR(q);
      assert q'.items[n - 1..] == q.items[n..];
      if k >= 255 {
        TakenLocked(q', n - 1, k + 1);
        assert WakeMany(q'.waitSend, n - 1) == WakeMany(q.waitSend, n);
      } else {
        assert q'.rx == CounterAfter(k + 1);
        TakenLocked(q', n - 1, k + 1);
      }
    }
  }

  // The lists after `k` wake-ups at once and after those that are left of them are the same.
  lemma {:induction false} WokenAlike(w: seq<Task>, k: nat)
    ensures WakeMany(w, WokenLate(k)) == WakeMany(w, k) <==> k <= 127 || w == [] || k >= 255 + |w|
  {
    assert |WakeMany(w, WokenLate(k))| == |w| - Max(0, Min(WokenLate(k), |w|));
    assert |WakeMany(w, k)| == |w| - Max(0, Min(k, |w|));
  }

  // At most one of the two wakes anybody: the posts that found the counter wrapped, or the replay.
  lemma {:induction false} WakesAddUp(w: seq<Task>, n: nat)
    ensures WakeMany(WakeMany(w, Max(0, n - 255)), CounterAfter(n)) == WakeMany(w, WokenLate(n))
  {
    if n <= 255 {
      assert WakeMany(w, 0) == w;
      if n > 127 {
        assert WakeMany(w, n - 256) == w;
      }
    } else {
      var late := WakeMany(w, n - 255);
      assert WakeMany(late, -1) == late;
    }
  }

  // What is left of a queue that was locked while `xs` were posted.
  lemma {:induction false} PostedAndUnlocked(q: Queue, xs: seq<Item>)
    requires q.tx == UNLOCKED && q.rx == UNLOCKED && |xs| <= q.Free()
    ensures UnlockRx(UnlockTx(PostAll(Lock(q), xs)))
         == q.(items := q.items + xs, waitReceive := WakeMany(q.waitReceive, WokenLate(|xs|)))
  {
    PostedLocked(Lock(q), xs, 0);
    assert WakeMany(q.waitSend, 0) == q.waitSend;
    WakesAddUp(q.waitReceive, |xs|);
  }

  // What is left of a queue that was locked, with `w` waiting to send, while `n` items were taken.
  lemma {:induction false} TakenAndUnlocked(q: Queue, w: seq<Task>, n: nat)
    requires q.tx == UNLOCKED && q.rx == UNLOCKED && n <= q.Count()
    ensures UnlockRx(UnlockTx(TakeAll(Lock(q).(waitSend := w), n)))
         == q.(items := q.items[n..], waitSend := WakeMany(w, WokenLate(n)))
  {
    TakenLocked(Lock(q).(waitSend := w), n, 0);
    assert WakeMany(q.waitReceive, 0) == q.waitReceive;
    WakesAddUp(w, n);
  }

  // Only the posts that find room count.
  lemma {:induction false} PostsFit(q: Queue, xs: seq<Item>)
    requires 0 <= q.Free()
    ensures PostAll(q, xs) == PostAll(q, xs[..Min(|xs|, q.Free())])
  {
    if q.Free() < |xs| {
      PostsRefused(q, xs);
    } else {
      assert xs[..|xs|] == xs;
    }
  }

  /** Locking only postpones: posts made while the queue is locked and replayed when it is unlocked
      leave it as the same posts to an unlocked queue would - exactly when at most 127 of them found
      room, or nobody was waiting, or so many did that the wrapped counter has woken everybody. */
  lemma {:induction false} LockingPostpones(q: Queue, xs: seq<Item>)
    requires q.tx == UNLOCKED && q.rx == UNLOCKED && 0 <= q.Free()
    ensures var k := Min(|xs|, q.Free());
      UnlockRx(UnlockTx(PostAll(Lock(q), xs))) == PostAll(q, xs)
      <==> k <= 127 || q.waitReceive == [] || k >= 255 + |q.waitReceive|
  {
    var fit := xs[..Min(|xs|, q.Free())];
    PostsFit(q, xs);
    PostsFit(Lock(q), xs);
    PostedUnlocked(q, fit);
    PostedAndUnlocked(q, fit);
    WokenAlike(q.waitReceive, |fit|);
  }

  /** The same for items that interrupt handlers take, and the senders that wait. */
  lemma {:induction false} LockingPostponesTakes(q: Queue, n: nat)
    requires q.tx == UNLOCKED && q.rx == UNLOCKED
    ensures var k := Min(n, q.Count());
      UnlockRx(UnlockTx(TakeAll(Lock(q), n))) == TakeAll(q, n)
      <==> k <= 127 || q.waitSend == [] || k >= 255 + |q.waitSend|
  {
    var k := Min(n, q.Count());
    if k < n {
      TakesInVain(q, n);
      TakesInVain(Lock(q), n);
    }
    TakenUnlocked(q, k);
    assert Lock(q).(waitSend := q.waitSend) == Lock(q);
    TakenAndUnlocked(q, q.waitSend, k);
    WokenAlike(q.waitSend, k);
  }

  // ---- runs that lose a wake-up ----

  lemma {:induction false} RunAppend(s: State, r1: seq<Action>, r2: seq<Action>)
    requires Legal(s, r1) && Legal(Exec(s, r1), r2)
    ensures Legal(s, r1 + r2) && Exec(s, r1 + r2) == Exec(Exec(s, r1), r2)
    decreases |r1|
  {
    if r1 == [] {
      assert r1 + r2 == r2;
    } else {
      RunAppend(Next(s, r1[0]), r1[1..], r2);
      assert (r1 + r2)[1..] == r1[1..] + r2;
    }
  }

  ghost predicate Leads(s: State, run: seq<Action>, e: State) {
    Legal(s, run) && Exec(s, run) == e
  }

  lemma {:induction false} Then(s: State, a: Action, s': State, run: seq<Action>, e: State)
    requires Enabled(s, a) && Next(s, a) == s' && Leads(s', run, e)
    ensures Leads(s, [a] + run, e)
  {
    assert ([a] + run)[1..] == run;
  }

  // From the call to the moment before the queue is unlocked again.
  function JoinRun(t: Task, op: Op, at: nat): seq<Action> {
    [Start(t, op), Enter(t), Suspend(t), LockStep(t), Decide(t, false), Test(t), Join(t, at)]
  }

  function LeaveRun(t: Task): seq<Action> {
    [UnlockTxStep(t), UnlockRxStep(t), Resume(t)]
  }

  predicate Quiescent(s: State) {
    s.suspender == None && s.q.tx == UNLOCKED && s.q.rx == UNLOCKED
  }

  // The state with `t` about to leave the locked queue, on its event list.
  function Joined(s: State, t: Task, op: Op): State {
    var w := Waiting(s.q, SideOf(op));
    s.(q := WithWaiting(Lock(s.q), SideOf(op), w + [t]), pcs := s.pcs[t := UnlockingTx(op, Placed)],
       suspender := Some(t))
  }

  lemma {:induction false} JoinRunEffect(s: State, t: Task, op: Op)
    requires Quiescent(s) && t in s.pcs && s.pcs[t].Idle?
    requires op.canBlock && Available(s.q, SideOf(op)) == 0 && (op.OpSend? ==> op.pos != Overwrite)
    ensures Leads(s, JoinRun(t, op, |Waiting(s.q, SideOf(op))|), Joined(s, t, op))
  {
    var w := Waiting(s.q, SideOf(op));
    assert w[..|w|] + [t] + w[|w|..] == w + [t];
    var s1 := Goto(s, t, Entry(op));
    var s2 := Goto(s, t, Suspending(op));
    var s3 := Goto(s, t, Locking(op)).(suspender := Some(t));
    var run := JoinLocked(s3, t, op);
    var r3 := [Suspend(t)] + run;
    Then(s2, Suspend(t), s3, run, Joined(s, t, op));
    var r2 := [Enter(t)] + r3;
    Then(s1, Enter(t), s2, r3, Joined(s, t, op));
    Then(s, Start(t, op), s1, r2, Joined(s, t, op));
    assert [Start(t, op)] + r2 == JoinRun(t, op, |w|);
  }

  // The second half of it, with the scheduler suspended.
  lemma {:induction false} JoinLocked(s: State, t: Task, op: Op) returns (run: seq<Action>)
    requires s.suspender == Some(t) && t in s.pcs && s.pcs[t] == Locking(op)
    requires Available(s.q, SideOf(op)) == 0
    ensures run == [LockStep(t), Decide(t, false), Test(t), Join(t, |Waiting(s.q, SideOf(op))|)]
    ensures Leads(s, run, Joined(s, t, op))
  {
    var w, q := Waiting(s.q, SideOf(op)), Lock(s.q);
    assert w[..|w|] + [t] + w[|w|..] == w + [t];
    var s4 := Goto(s, t, Deciding(op)).(q := q);
    var s5 := Goto(s, t, Testing(op)).(q := q);
    var s6 := Goto(s, t, Joining(op)).(q := q);
    var e := Joined(s, t, op);
    assert Leads(e, [], e);
    var r7 := [Join(t, |w|)] + [];
    Then(s6, Join(t, |w|), e, [], e);
    var r6 := [Test(t)] + r7;
    Then(s5, Test(t), s6, r7, e);
    var r5 := [Decide(t, false)] + r6;
    Then(s4, Decide(t, false), s5, r6, e);
    Then(s, LockStep(t), s4, r5, e);
    run := [LockStep(t)] + r5;
  }

  function Posts(xs: seq<Item>): seq<Action> {
    seq(|xs|, i requires 0 <= i < |xs| => IsrSend(xs[i], Back))
  }

  lemma {:induction false} PostsEffect(s: State, xs: seq<Item>)
    requires s.q.Count() + |xs| <= s.q.length
    ensures Leads(s, Posts(xs), s.(q := PostAll(s.q, xs), accepted := s.accepted + xs))
    decreases |xs|
  {
    var e := s.(q := PostAll(s.q, xs), accepted := s.accepted + xs);
    if xs == [] {
      assert s.accepted + xs == s.accepted;
    } else {
      var s' := s.(q := SendFromISR(s.q, xs[0], Back), accepted := s.accepted + [xs[0]]);
      PostsEffect(s', xs[1..]);
      assert s'.accepted + xs[1..] == s.accepted + xs;
      Then(s, IsrSend(xs[0], Back), s', Posts(xs[1..]), e);
      assert [IsrSend(xs[0], Back)] + Posts(xs[1..]) == Posts(xs);
    }
  }

  lemma {:induction false} LeaveRunEffect(s: State, t: Task)
    requires Runnable(s, t) && s.pcs[t].UnlockingTx? && s.pcs[t].after == Placed
    ensures Leads(s, LeaveRun(t), Goto(s, t, Parked(s.pcs[t].op)).(q := UnlockRx(UnlockTx(s.q)), suspender := None))
  {
    var op := s.pcs[t].op;
    var s1 := Goto(s, t, UnlockingRx(op, Placed)).(q := UnlockTx(s.q));
    var s2 := Goto(s, t, Resuming(op, Placed)).(q := UnlockRx(UnlockTx(s.q)));
    var e := Goto(s, t, Parked(op)).(q := UnlockRx(UnlockTx(s.q)), suspender := None);
    assert Leads(e, [], e);
    Then(s2, Resume(t), e, [], e);
    Then(s1, UnlockRxStep(t), s2, [Resume(t)] + [], e);
    Then(s, UnlockTxStep(t), s1, [UnlockRxStep(t)] + ([Resume(t)] + []), e);
    assert [UnlockTxStep(t)] + ([UnlockRxStep(t)] + ([Resume(t)] + [])) == LeaveRun(t);
  }

  function Takes(n: nat): seq<Action> {
    seq(n, _ => IsrReceive)
  }

  lemma {:induction false} TakesEffect(s: State, n: nat)
    requires n <= s.q.Count()
    ensures Leads(s, Takes(n), s.(q := TakeAll(s.q, n), taken := s.taken + s.q.items[..n]))
    decreases n
  {
    var e := s.(q := TakeAll(s.q, n), taken := s.taken + s.q.items[..n]);
    if n == 0 {
      assert s.taken + s.q.items[..0] == s.taken;
    } else {
      var s' := s.(q := ReceiveFromISR(s.q), taken := s.taken + [s.q.items[0]]);
      TakesEffect(s', n - 1);
      assert s'.taken + s'.q.items[..n - 1] == s.taken + s.q.items[..n];
      Then(s, IsrReceive, s', Takes(n - 1), e);
      assert [IsrReceive] + Takes(n - 1) == Takes(n);
    }
  }

  // One reader blocks on an empty queue while interrupt handlers post `xs`.
  function BlockAndPost(t: Task, xs: seq<Item>): seq<Action> {
    JoinRun(t, OpReceive(true), 0) + (Posts(xs) + LeaveRun(t))
  }

  // The state after it: the reader is off the list or was left on it.
  lemma {:induction false} BlockAndPostEffect(s: State, t: Task, xs: seq<Item>)
    requires Initial(s) && t in s.pcs && |xs| <= s.q.length
    ensures Leads(s, BlockAndPost(t, xs),
      s.(q := s.q.(items := xs, waitReceive := WakeMany([t], WokenLate(|xs|))),
         pcs := s.pcs[t := Parked(OpReceive(true))], accepted := s.accepted + xs))
  {
    var op := OpReceive(true);
    var s1 := Joined(s, t, op);
    JoinRunEffect(s, t, op);
    PostsEffect(s1, xs);
    var s2 := s1.(q := PostAll(s1.q, xs), accepted := s1.accepted + xs);
    LeaveRunEffect(s2, t);
    RunAppend(s1, Posts(xs), LeaveRun(t));
    RunAppend(s, JoinRun(t, op, 0), Posts(xs) + LeaveRun(t));
    PostedLocked(s1.q, xs, 0);
    assert s1.q.items + xs == xs;
    assert [] + [t] == [t];
    assert WakeMany(s.q.waitSend, 0) == s.q.waitSend;
    assert UnlockRx(UnlockTx(s2.q)).waitReceive == WakeMany([t], WokenLate(|xs|));
    assert s2.pcs[t := Parked(op)] == s.pcs[t := Parked(op)];
  }

  /** The bound on posts is needed: a reader that blocks on an empty queue while handlers post to it
      is left asleep beside its data exactly when they post between 128 and 255 times. */
  lemma {:induction false} CounterWrapLosesWakeUp(s: State, t: Task, xs: seq<Item>)
    requires Initial(s) && t in s.pcs && |xs| <= s.q.length
    ensures Legal(s, BlockAndPost(t, xs))
    ensures var e := Exec(s, BlockAndPost(t, xs));
      && e.suspender == None && e.q.items == xs
      && (Covered(e, Receivers) <==> !(128 <= |xs| <= 255))
  {
    BlockAndPostEffect(s, t, xs);
    var e := Exec(s, BlockAndPost(t, xs));
    if e.q.waitReceive != [] {
      assert Owed(e.pcs, [t], Receivers) == {};
    }
  }

  // One sender blocks on a full queue while interrupt handlers take `n` items.
  function BlockAndTake(t: Task, x: Item, xs: seq<Item>, n: nat): seq<Action> {
    Posts(xs) + (JoinRun(t, OpSend(x, Back, true), 0) + (Takes(n) + LeaveRun(t)))
  }

  lemma {:induction false} BlockAndTakeEffect(s: State, t: Task, x: Item, xs: seq<Item>, n: nat)
    requires Initial(s) && t in s.pcs && n <= |xs| == s.q.length
    ensures var op := OpSend(x, Back, true);
      Leads(s, BlockAndTake(t, x, xs, n),
        s.(q := s.q.(items := xs[n..], waitSend := WakeMany([t], WokenLate(n))),
           pcs := s.pcs[t := Parked(op)], accepted := s.accepted + xs, taken := s.taken + xs[..n]))
  {
    var s1 := s.(q := s.q.(items := xs), accepted := s.accepted + xs);
    PostsEffect(s, xs);
    PostedUnlocked(s.q, xs);
    assert s.q.items + xs == xs && WakeMany(s.q.waitReceive, |xs|) == s.q.waitReceive;
    TakenWhileLocked(s1, t, x, n);
    RunAppend(s, Posts(xs), JoinRun(t, OpSend(x, Back, true), 0) + (Takes(n) + LeaveRun(t)));
  }

  lemma {:induction false} TakenWhileLocked(s: State, t: Task, x: Item, n: nat)
    requires Quiescent(s) && t in s.pcs && s.pcs[t].Idle? && s.q.Free() == 0 && s.q.waitSend == []
    requires n <= s.q.Count() && s.q.waitReceive == []
    ensures var op := OpSend(x, Back, true);
      Leads(s, JoinRun(t, op, 0) + (Takes(n) + LeaveRun(t)),
        s.(q := s.q.(items := s.q.items[n..], waitSend := WakeMany([t], WokenLate(n))),
           pcs := s.pcs[t := Parked(op)], taken := s.taken + s.q.items[..n]))
  {
    var op := OpSend(x, Back, true);
    var s1 := Joined(s, t, op);
    JoinRunEffect(s, t, op);
    TakesEffect(s1, n);
    var s2 := s1.(q := TakeAll(s1.q, n), taken := s1.taken + s1.q.items[..n]);
    LeaveRunEffect(s2, t);
    RunAppend(s1, Takes(n), LeaveRun(t));
    RunAppend(s, JoinRun(t, op, 0), Takes(n) + LeaveRun(t));
    assert [] + [t] == [t] && s1.q == Lock(s.q).(waitSend := [t]);
    TakenAndUnlocked(s.q, [t], n);
    assert s2.pcs[t := Parked(op)] == s.pcs[t := Parked(op)];
  }

  /** And a sender that blocks on a full queue while handlers take from it is left asleep beside free
      slots exactly when they take between 128 and 255 items. */
  lemma {:induction false} CounterWrapLosesSender(s: State, t: Task, x: Item, xs: seq<Item>, n: nat)
    requires Initial(s) && t in s.pcs && n <= |xs| == s.q.length
    ensures Legal(s, BlockAndTake(t, x, xs, n))
    ensures var e := Exec(s, BlockAndTake(t, x, xs, n));
      && e.suspender == None && e.q.Free() == n
      && (Covered(e, Senders) <==> !(128 <= n <= 255))
  {
    BlockAndTakeEffect(s, t, x, xs, n);
    var e := Exec(s, BlockAndTake(t, x, xs, n));
    if e.q.waitSend != [] {
      assert Owed(e.pcs, [t], Senders) == {};
    }
  }

  // ---- resetting a queue in use ----

  /** Of the senders blocked on a full queue a reset wakes only the first, although it frees every
      slot: no sender is stranded exactly when none is left waiting, or when the tasks woken by now
      are as many as the slots. */
  lemma {:induction false} ResetStrandsSenders(s: State, t: Task)
    requires Control(s) && SideInv(s, Senders) && Enabled(s, ResetStep(t))
    ensures Covered(Next(s, ResetStep(t)), Senders)
       <==> |s.q.waitSend| <= 1 || s.q.length <= |Owed(s.pcs, s.q.waitSend, Senders)| + 1
  {
    if s.q.waitSend != [] {
      OwedWoken(s.pcs, s.q.waitSend, Senders);
    }
  }

  // Two senders block on a full queue, one after the other.
  function TwoSenders(t: Task, u: Task, x: Item): seq<Action> {
    (JoinRun(t, OpSend(x, Back, true), 0) + LeaveRun(t)) + (JoinRun(u, OpSend(x, Back, true), 1) + LeaveRun(u))
  }

  lemma {:induction false} BlockEffect(s: State, t: Task, op: Op)
    requires Quiescent(s) && t in s.pcs && s.pcs[t].Idle?
    requires op.canBlock && Available(s.q, SideOf(op)) == 0 && (op.OpSend? ==> op.pos != Overwrite)
    ensures var w := Waiting(s.q, SideOf(op));
      Leads(s, JoinRun(t, op, |w|) + LeaveRun(t),
            s.(q := WithWaiting(s.q, SideOf(op), w + [t]), pcs := s.pcs[t := Parked(op)]))
  {
    var w := Waiting(s.q, SideOf(op));
    JoinRunEffect(s, t, op);
    var s1 := Joined(s, t, op);
    LeaveRunEffect(s1, t);
    RunAppend(s, JoinRun(t, op, |w|), LeaveRun(t));
    assert s1.pcs[t := Parked(op)] == s.pcs[t := Parked(op)];
    Unlocked(WithWaiting(s.q, SideOf(op), w + [t]));
  }

  // Nothing counted, nobody woken.
  lemma {:induction false} Unlocked(q: Queue)
    requires q.tx == UNLOCKED && q.rx == UNLOCKED
    ensures UnlockRx(UnlockTx(Lock(q))) == q
  {
    assert WakeMany(q.waitSend, 0) == q.waitSend;
    assert WakeMany(q.waitReceive, 0) == q.waitReceive;
  }

  /** Such a state is reached, so the guarantee for senders does not extend to runs with a reset. */
  lemma {:induction false} ResetLosesWakeUp(s: State, t: Task, u: Task, v: Task, xs: seq<Item>)
    requires Initial(s) && {t, u, v} <= s.pcs.Keys && t != u && v != t && v != u
    requires |xs| == s.q.length >= 2
    ensures var run := Posts(xs) + (TwoSenders(t, u, xs[0]) + [ResetStep(v)]);
      && Legal(s, run)
      && Exec(s, run).suspender == None
      && Exec(s, run).q.Free() == s.q.length
      && !Covered(Exec(s, run), Senders)
  {
    var op := OpSend(xs[0], Back, true);
    PostsEffect(s, xs);
    PostedUnlocked(s.q, xs);
    var s1 := s.(q := PostAll(s.q, xs), accepted := s.accepted + xs);
    BlockEffect(s1, t, op);
    var s2 := s1.(q := s1.q.(waitSend := [t]), pcs := s1.pcs[t := Parked(op)]);
    assert [] + [t] == [t];
    BlockEffect(s2, u, op);
    var s3 := s2.(q := s2.q.(waitSend := [t, u]), pcs := s2.pcs[u := Parked(op)]);
    RunAppend(s1, JoinRun(t, op, 0) + LeaveRun(t), JoinRun(u, op, 1) + LeaveRun(u));
    var e := s3.(q := Reset(s3.q));
    assert Leads(e, [], e);
    Then(s3, ResetStep(v), e, [], e);
    RunAppend(s1, TwoSenders(t, u, xs[0]), [ResetStep(v)] + []);
    RunAppend(s, Posts(xs), TwoSenders(t, u, xs[0]) + ([ResetStep(v)] + []));
    assert [ResetStep(v)] + [] == [ResetStep(v)];
    assert Owed(e.pcs, e.q.waitSend, Senders) == {t};
  }

  // ---- order of delivery ----

  // Items go in at the back and are neither overwritten nor dropped by a reset.
  predicate InOrder(a: Action) {
    match a
    case Start(_, op) => op.OpSend? ==> op.pos == Back
    case IsrSend(_, pos) => pos == Back
    case ResetStep(_) => false
    case _ => true
  }

  ghost predicate Ordered(s: State) {
    && s.accepted == s.taken + s.q.items
    && forall t :: t in s.pcs && !s.pcs[t].Idle? && s.pcs[t].op.OpSend? ==> s.pcs[t].op.pos == Back
  }

  lemma {:induction false} OrderedEnter(s: State, t: Task)
    requires Ordered(s) && Enabled(s, Enter(t))
    ensures Ordered(Next(s, Enter(t)))
  {
    if s.q.items != [] {
      assert s.q.items == [s.q.items[0]] + s.q.items[1..];
    }
  }

  lemma {:induction false} OrderedStep(s: State, a: Action)
    requires Ordered(s) && Enabled(s, a) && InOrder(a)
    ensures Ordered(Next(s, a))
  {
    if a.Enter? {
      OrderedEnter(s, a.t);
    } else if s.q.items != [] {
      assert s.q.items == [s.q.items[0]] + s.q.items[1..];
    }
  }

  /** Every item that was accepted has been taken, in the order of acceptance, or is still queued in
      that order - however tasks and interrupt handlers interleave. */
  lemma {:induction false} DeliveredInOrder(s: State, run: seq<Action>)
    requires Ordered(s) && Legal(s, run) && forall a :: a in run ==> InOrder(a)
    ensures Ordered(Exec(s, run))
    decreases |run|
  {
    if run != [] {
      assert InOrder(run[0]);
      OrderedStep(s, run[0]);
      DeliveredInOrder(Next(s, run[0]), run[1..]);
    }
  }
}
