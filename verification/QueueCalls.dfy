/** What a call of a queue function does for its caller: it blocks only if it may, it returns once, and what
    it returns is what it has done. */
module QueueCalls {
  import opened Basics
  import opened QueueSpec
  import opened QueueProtocol
  import opened QueueWakeups
  import opened QueueLimits

  // ---- the deque ----

  /** What is sent to the front is received next, and what was there before follows it. */
  lemma {:induction false} FrontIsNext(q: Queue, x: Item)
    requires q.itemSize > 0
    ensures var sent := Send(q, x, Front); sent.items[0] == x && Receive(sent).items == q.items
  {
  }

  /** What is sent to the back is received after all that was there before. */
  lemma {:induction false} BackIsLast(q: Queue, x: Item, n: nat)
    requires n == q.Count() && q.rx == UNLOCKED
    ensures var sent := Send(q, x, Back);
      sent.Count() == n + 1 && sent.items[..n] == q.items && TakeAll(sent, n).items == [x]
  {
    var sent := Send(q, x, Back);
    TakenUnlocked(sent, n);
    assert sent.items[n..] == [x];
  }

  /** What overwrites is received next, and nothing follows it; a semaphore only counts, wherever its empty
      item is sent. */
  lemma {:induction false} OverwriteIsAll(q: Queue, x: Item)
    requires q.itemSize > 0
    ensures var sent := Send(q, x, Overwrite); sent.items[0] == x && Receive(sent).items == []
  {
  }

  lemma {:induction false} SemaphoreCounts(q: Queue, pos: Position)
    requires q.itemSize == 0
    ensures Send(q, [], pos).Count() == q.Count() + 1 && Receive(Send(q, [], pos)).Count() == q.Count()
  {
  }

  /** A reset queue is empty and unlocked, whatever was counted in its lock; locking a queue that is locked
      keeps the counts, and only those. */
  lemma {:induction false} LocksAndResets(q: Queue)
    ensures var r := Reset(q); r.Count() == 0 && UnlockRx(UnlockTx(r)) == r && Lock(r).tx == Lock(r).rx == 0
    ensures q.tx >= 0 && q.rx >= 0 ==> Lock(q) == q
    ensures q.tx == q.rx == UNLOCKED ==> UnlockRx(UnlockTx(Lock(q))) == q
  {
  }

  // ---- no block time, no blocking ----

  // Where a call that may not block, or not any more, can be.
  predicate Prompt(pc: Pc) {
    || pc.Entry? || pc.Rechecking?
    || ((pc.UnlockingTx? || pc.UnlockingRx? || pc.Resuming?) && pc.after == Expired)
  }

  ghost predicate Prompted(s: State) {
    && (forall t :: t in s.pcs && !s.pcs[t].Idle? && !s.pcs[t].op.canBlock ==> Prompt(s.pcs[t]))
    && Listed(s.pcs, s.q.waitSend, Senders) && Listed(s.pcs, s.q.waitReceive, Receivers)
  }

  // The list of one side after a step of task `t` that woke the first `k`.
  lemma {:induction false} ListedMoved(pcs: map<Task, Pc>, t: Task, pc: Pc, w: seq<Task>, k: nat, side: Side)
    requires Listed(pcs, w, side) && k <= |w| && t in pcs && (t in w ==> PlacedOn(pc, side))
    ensures Listed(pcs[t := pc], w[k..], side)
  {
    assert forall u :: u in w[k..] ==> u in w;
  }

  // What a step does to one event list, the joining and leaving of single tasks aside.
  lemma {:induction false} ListShrinks(s: State, a: Action, side: Side) returns (k: nat)
    requires Enabled(s, a) && !a.Join? && !a.TimeOut?
    ensures k <= |Waiting(s.q, side)| && Waiting(Next(s, a).q, side) == Waiting(s.q, side)[k..]
  {
    k := |Waiting(s.q, side)| - |Waiting(Next(s, a).q, side)|;
    if a.Enter? {
    } else if a.IsrSend? || a.IsrReceive? {
    }
  }

  // Only the task whose step it is moves.
  lemma {:induction false} OneMoves(s: State, a: Action)
    requires Enabled(s, a)
    ensures var s' := Next(s, a);
      if a.IsrSend? || a.IsrReceive? || a.ResetStep? then s'.pcs == s.pcs
      else a.t in s.pcs && s'.pcs.Keys == s.pcs.Keys && s'.pcs == s.pcs[a.t := s'.pcs[a.t]]
  {
    if a.Enter? {
    }
  }

  // A task on an event list stays a waiting task as long as it is on it.
  lemma {:induction false} StaysPlaced(s: State, a: Action, side: Side)
    requires Enabled(s, a) && Listed(s.pcs, Waiting(s.q, side), side) && !a.TimeOut?
    requires !a.IsrSend? && !a.IsrReceive? && !a.ResetStep? && a.t in Waiting(s.q, side)
    ensures a.t in s.pcs && a.t in Next(s, a).pcs && PlacedOn(Next(s, a).pcs[a.t], side)
  {
    if a.Enter? {
    }
  }

  lemma {:induction false} ListedKept(s: State, a: Action, side: Side)
    requires Enabled(s, a) && Listed(s.pcs, Waiting(s.q, side), side)
    ensures Listed(Next(s, a).pcs, Waiting(Next(s, a).q, side), side)
  {
    var w, s' := Waiting(s.q, side), Next(s, a);
    OneMoves(s, a);
    if a.Join? {
      JoinListed(s, a.t, a.at, side);
    } else if a.TimeOut? {
      TimeOutListed(s, a.t, side);
    } else {
      var k := ListShrinks(s, a, side);
      if a.IsrSend? || a.IsrReceive? || a.ResetStep? {
        assert forall u :: u in w[k..] ==> u in w;
      } else {
        if a.t in w {
          StaysPlaced(s, a, side);
        }
        ListedMoved(s.pcs, a.t, s'.pcs[a.t], w, k, side);
      }
    }
  }

  lemma {:induction false} JoinListed(s: State, t: Task, at: nat, side: Side)
    requires Enabled(s, Join(t, at)) && Listed(s.pcs, Waiting(s.q, side), side)
    ensures var s' := Next(s, Join(t, at)); Listed(s'.pcs, Waiting(s'.q, side), side)
  {
    var op, w := s.pcs[t].op, Waiting(s.q, side);
    assert t !in w;
    if side == SideOf(op) {
      var w' := w[..at] + [t] + w[at..];
      assert Listed(s.pcs[t := UnlockingTx(op, Placed)], w', side);
    }
  }

  lemma {:induction false} TimeOutListed(s: State, t: Task, side: Side)
    requires Enabled(s, TimeOut(t)) && Listed(s.pcs, Waiting(s.q, side), side)
    ensures var s' := Next(s, TimeOut(t)); Listed(s'.pcs, Waiting(s'.q, side), side)
  {
    if side == SideOf(s.pcs[t].op) {
      WithoutFacts(Waiting(s.q, side), t);
    }
  }

  lemma {:induction false} PromptKept(s: State, a: Action)
    requires Enabled(s, a) && !a.IsrSend? && !a.IsrReceive? && !a.ResetStep?
    requires a.t in s.pcs && !s.pcs[a.t].Idle? && !s.pcs[a.t].op.canBlock ==> Prompt(s.pcs[a.t])
    ensures var pc := Next(s, a).pcs[a.t]; !pc.Idle? && !pc.op.canBlock ==> Prompt(pc)
  {
    if a.Enter? {
    }
  }

  lemma {:induction false} StepPrompted(s: State, a: Action)
    requires Prompted(s) && Enabled(s, a)
    ensures Prompted(Next(s, a))
  {
    ListedKept(s, a, Senders);
    ListedKept(s, a, Receivers);
    OneMoves(s, a);
    if !a.IsrSend? && !a.IsrReceive? && !a.ResetStep? {
      PromptKept(s, a);
    }
  }

  lemma {:induction false} RunPrompted(s: State, run: seq<Action>)
    requires Prompted(s) && Legal(s, run)
    ensures Prompted(Exec(s, run))
    decreases |run|
  {
    if run != [] {
      StepPrompted(s, run[0]);
      RunPrompted(Next(s, run[0]), run[1..]);
    }
  }

  /** In every run, a call without block time neither suspends the scheduler to join an event list nor parks,
      and is on no event list; nor does a call whose time is up. */
  lemma {:induction false} NeverBlocks(s: State, run: seq<Action>, t: Task)
    requires Initial(s) && Legal(s, run)
    ensures var e := Exec(s, run);
      t in e.pcs && !e.pcs[t].Idle? && !e.pcs[t].op.canBlock ==>
        Prompt(e.pcs[t]) && t !in e.q.waitSend && t !in e.q.waitReceive
  {
    RunPrompted(s, run);
  }

  // ---- a call returns once, and says what it did ----

  // A call, whatever is left of its time.
  function Plain(op: Op): Op { op.(canBlock := false) }

  function BegunBy(run: seq<Action>, t: Task): seq<Op> {
    if run == [] then []
    else if run[0].Start? && run[0].t == t then [Plain(run[0].op)] + BegunBy(run[1..], t)
    else BegunBy(run[1..], t)
  }

  function EndedBy(outcomes: seq<Outcome>, t: Task): seq<Op> {
    if outcomes == [] then []
    else
      var (front, o) := (outcomes[..|outcomes| - 1], outcomes[|outcomes| - 1]);
      if o.t == t then EndedBy(front, t) + [Plain(o.op)] else EndedBy(front, t)
  }

  function UnderWay(s: State, t: Task): seq<Op> {
    if t in s.pcs && !s.pcs[t].Idle? then [Plain(s.pcs[t].op)] else []
  }

  lemma {:induction false} EndedSnoc(outcomes: seq<Outcome>, o: Outcome, t: Task)
    ensures EndedBy(outcomes + [o], t) == EndedBy(outcomes, t) + if o.t == t then [Plain(o.op)] else []
  {
    assert (outcomes + [o])[..|outcomes|] == outcomes;
  }

  // A step of a task ends its call, and says so, or goes on with it.
  lemma {:induction false} StepReturns(s: State, a: Action) returns (os: seq<Outcome>)
    requires Enabled(s, a)
    ensures Next(s, a).outcomes == s.outcomes + os && |os| <= 1
    ensures os == [] && !a.Start? ==> forall u :: UnderWay(Next(s, a), u) == UnderWay(s, u)
    ensures os != [] ==> !a.Start? && UnderWay(s, os[0].t) == [Plain(os[0].op)]
    ensures os != [] ==> forall u :: UnderWay(Next(s, a), u) == if u == os[0].t then [] else UnderWay(s, u)
    ensures a.Start? ==> UnderWay(s, a.t) == []
    ensures a.Start? ==> forall u :: UnderWay(Next(s, a), u) == if u == a.t then [Plain(a.op)] else UnderWay(s, u)
  {
    OneMoves(s, a);
    os := Next(s, a).outcomes[|s.outcomes|..];
    if a.Enter? {
    } else if a.Resume? {
    }
  }

  // What a step begins for a task.
  function Begins(a: Action, t: Task): seq<Op> { if a.Start? && a.t == t then [Plain(a.op)] else [] }

  lemma {:induction false} CallsStep(s: State, a: Action, t: Task)
    requires Enabled(s, a)
    ensures EndedBy(s.outcomes, t) + UnderWay(s, t) + Begins(a, t)
         == EndedBy(Next(s, a).outcomes, t) + UnderWay(Next(s, a), t)
  {
    var os := StepReturns(s, a);
    if os != [] {
      assert os == [os[0]];
      EndedSnoc(s.outcomes, os[0], t);
    } else {
      assert s.outcomes + os == s.outcomes;
    }
  }

  lemma {:induction false} CallsGoOn(s: State, run: seq<Action>, t: Task)
    requires Legal(s, run)
    ensures var e := Exec(s, run);
      EndedBy(s.outcomes, t) + UnderWay(s, t) + BegunBy(run, t) == EndedBy(e.outcomes, t) + UnderWay(e, t)
    decreases |run|
  {
    if run != [] {
      var known, begun, rest := EndedBy(s.outcomes, t) + UnderWay(s, t), Begins(run[0], t), BegunBy(run[1..], t);
      CallsStep(s, run[0], t);
      CallsGoOn(Next(s, run[0]), run[1..], t);
      assert known + (begun + rest) == known + begun + rest;
      assert BegunBy(run, t) == begun + rest;
    }
  }

  /** Each call returns at most once: the calls a task has begun are, one after the other, those that have
      returned to it, and perhaps one more that it is in. */
  lemma {:induction false} CallsReturnOnce(s: State, run: seq<Action>, t: Task)
    requires Initial(s) && Legal(s, run)
    ensures BegunBy(run, t) == EndedBy(Exec(s, run).outcomes, t) + UnderWay(Exec(s, run), t)
  {
    CallsGoOn(s, run, t);
  }

  // There is a free slot to send to, or something to overwrite or to read.
  predicate Possible(q: Queue, op: Op) {
    if op.OpSend? then |q.items| < q.length || op.pos == Overwrite else |q.items| > 0
  }

  /** What a call returns is what the step did in which it returned: a success put one item in, took the head
      item out, or looked at it; a refusal did nothing, and found the queue full or empty unless the time of
      a sender was up. A step in which no call returns leaves the items to interrupts and resets. */
  lemma {:induction false} OutcomeIsEffect(s: State, a: Action, o: Outcome)
    requires Enabled(s, a)
    ensures var (s', q, q') := (Next(s, a), s.q, Next(s, a).q);
      && (s'.outcomes == s.outcomes + [o] ==>
            if o.Refused? then
              && q'.items == q.items && s'.accepted == s.accepted && s'.taken == s.taken
              && (Possible(q, o.op) ==> o.op.OpSend? && !a.Enter?)
            else
              && Possible(q, o.op)
              && (o.op.OpSend? ==>
                    && o.item == o.op.x && s'.accepted == s.accepted + [o.item] && s'.taken == s.taken
                    && (o.op.pos == Back || q.itemSize == 0 ==> q'.items == q.items + [o.item])
                    && (o.op.pos == Front && q.itemSize > 0 ==> q'.items == [o.item] + q.items)
                    && (o.op.pos == Overwrite && q.itemSize > 0 ==> q'.items == [o.item]))
              && (o.op.OpReceive? ==>
                    q.items == [o.item] + q'.items && s'.taken == s.taken + [o.item] && s'.accepted == s.accepted)
              && (o.op.OpPeek? ==>
                    q.items == q'.items && o.item == q.items[0] && s'.taken == s.taken && s'.accepted == s.accepted))
      && (s'.outcomes == s.outcomes && !a.IsrSend? && !a.IsrReceive? && !a.ResetStep? ==>
            q'.items == q.items && s'.accepted == s.accepted && s'.taken == s.taken)
  {
    if Next(s, a).outcomes == s.outcomes + [o] {
      assert (s.outcomes + [o])[|s.outcomes|] == o;
    }
    if a.Enter? {
    } else if a.Resume? {
    }
  }

  /** An interrupt handler never waits: it sends if there is room, and takes if there is something. */
  lemma {:induction false} InterruptIsEffect(s: State, x: Item, pos: Position)
    requires Enabled(s, IsrSend(x, pos))
    ensures var (s', q) := (Next(s, IsrSend(x, pos)), s.q);
      if |q.items| >= q.length && pos != Overwrite then s' == s
      else
        && s'.accepted == s.accepted + [x] && s'.taken == s.taken
        && (pos == Back || q.itemSize == 0 ==> s'.q.items == q.items + [x])
        && (pos == Front && q.itemSize > 0 ==> s'.q.items == [x] + q.items)
        && (pos == Overwrite && q.itemSize > 0 ==> s'.q.items == [x])
    ensures var (s', q) := (Next(s, IsrReceive), s.q);
      if q.items == [] then s' == s
      else s'.taken == s.taken + [q.items[0]] && s'.q.items == q.items[1..] && s'.accepted == s.accepted
  {
  }

  /** A call that goes on keeps what it was called with; its time is up only once xTaskCheckForTimeOut() has
      said so. */
  lemma {:induction false} TimeKept(s: State, a: Action, t: Task)
    requires Enabled(s, a) && t in s.pcs && !s.pcs[t].Idle?
    ensures var s' := Next(s, a);
      && t in s'.pcs
      && (!s'.pcs[t].Idle? ==> s'.pcs[t].op == if a == Decide(t, true) then Plain(s.pcs[t].op) else s.pcs[t].op)
  {
    if a.Enter? {
    } else if a.Resume? {
    }
  }

  // ---- single calls from beginning to end ----

  /** A call without block time that cannot proceed is refused at once, and leaves nothing else behind. */
  lemma {:induction false} RefusedAtOnce(s: State, t: Task, op: Op)
    requires Runnable(s, t) && s.pcs[t].Idle? && !op.canBlock && !Possible(s.q, op)
    ensures Leads(s, [Start(t, op), Enter(t)], s.(outcomes := s.outcomes + [Refused(t, op)]))
  {
    var s1, e := Goto(s, t, Entry(op)), s.(outcomes := s.outcomes + [Refused(t, op)]);
    assert s.pcs[t := Idle] == s.pcs;
    assert Leads(e, [], e);
    Then(s1, Enter(t), e, [], e);
    Then(s, Start(t, op), s1, [Enter(t)] + [], e);
    assert [Start(t, op)] + ([Enter(t)] + []) == [Start(t, op), Enter(t)];
  }

  // A call that could block, from its beginning to the locked queue with its time up.
  function ExpireRun(t: Task, op: Op): seq<Action> {
    [Start(t, op), Enter(t), Suspend(t), LockStep(t), Decide(t, true)]
  }

  lemma {:induction false} ExpireEffect(s: State, t: Task, op: Op)
    requires Quiescent(s) && t in s.pcs && s.pcs[t].Idle? && op.canBlock && !Possible(s.q, op)
    ensures Leads(s, ExpireRun(t, op),
      s.(q := Lock(s.q), pcs := s.pcs[t := UnlockingTx(Plain(op), Expired)], suspender := Some(t)))
  {
    var s1, s2 := Goto(s, t, Entry(op)), Goto(s, t, Suspending(op));
    var s3 := Goto(s, t, Locking(op)).(suspender := Some(t));
    var s4 := Goto(s, t, Deciding(op)).(suspender := Some(t), q := Lock(s.q));
    var e := Goto(s, t, UnlockingTx(Plain(op), Expired)).(suspender := Some(t), q := Lock(s.q));
    assert Leads(e, [], e);
    var r5 := [Decide(t, true)] + [];
    Then(s4, Decide(t, true), e, [], e);
    var r4 := [LockStep(t)] + r5;
    Then(s3, LockStep(t), s4, r5, e);
    var r3 := [Suspend(t)] + r4;
    Then(s2, Suspend(t), s3, r4, e);
    var r2 := [Enter(t)] + r3;
    Then(s1, Enter(t), s2, r3, e);
    Then(s, Start(t, op), s1, r2, e);
    assert [Start(t, op)] + r2 == ExpireRun(t, op);
  }

  lemma {:induction false} UnlockEffect(s: State, t: Task)
    requires Runnable(s, t) && s.pcs[t].UnlockingTx?
    ensures Leads(s, [UnlockTxStep(t), UnlockRxStep(t)],
                  Goto(s, t, Resuming(s.pcs[t].op, s.pcs[t].after)).(q := UnlockRx(UnlockTx(s.q))))
  {
    var pc := s.pcs[t];
    var s1 := Goto(s, t, UnlockingRx(pc.op, pc.after)).(q := UnlockTx(s.q));
    var e := Goto(s, t, Resuming(pc.op, pc.after)).(q := UnlockRx(UnlockTx(s.q)));
    assert Leads(e, [], e);
    Then(s1, UnlockRxStep(t), e, [], e);
    Then(s, UnlockTxStep(t), s1, [UnlockRxStep(t)] + [], e);
    assert [UnlockTxStep(t)] + ([UnlockRxStep(t)] + []) == [UnlockTxStep(t), UnlockRxStep(t)];
  }

  lemma {:induction false} ResumeEffect(s: State, s2: State, t: Task, op: Op, e: State)
    requires s.suspender == None && t in s.pcs
    requires s2 == s.(pcs := s.pcs[t := Resuming(op, Expired)], suspender := Some(t))
    requires e == if op.OpSend? then Return(s, t, Refused(t, op)) else Goto(s, t, Rechecking(op))
    ensures Leads(s2, [Resume(t)], e)
  {
    assert s2.pcs[t := Idle] == s.pcs[t := Idle] && s2.pcs[t := Rechecking(op)] == s.pcs[t := Rechecking(op)];
    assert Next(s2, Resume(t)) == e;
    assert Leads(e, [], e);
    Then(s2, Resume(t), e, [], e);
    assert [Resume(t)] + [] == [Resume(t)];
  }

  // The queue is unlocked again, without anything having happened meanwhile, and the scheduler resumed.
  lemma {:induction false} ExpireLeaves(s: State, t: Task, op: Op, e: State)
    requires Quiescent(s) && t in s.pcs
    requires e == if op.OpSend? then Return(s, t, Refused(t, op)) else Goto(s, t, Rechecking(op))
    ensures Leads(s.(q := Lock(s.q), pcs := s.pcs[t := UnlockingTx(op, Expired)], suspender := Some(t)), LeaveRun(t), e)
  {
    var s0 := s.(q := Lock(s.q), pcs := s.pcs[t := UnlockingTx(op, Expired)], suspender := Some(t));
    var s2 := s.(pcs := s.pcs[t := Resuming(op, Expired)], suspender := Some(t));
    ExpireUnlocks(s, s0, s2, t, op);
    ResumeEffect(s, s2, t, op, e);
    LeavesThen(s0, s2, e, t);
  }

  lemma {:induction false} ExpireUnlocks(s: State, s0: State, s2: State, t: Task, op: Op)
    requires Quiescent(s) && t in s.pcs
    requires s0 == s.(q := Lock(s.q), pcs := s.pcs[t := UnlockingTx(op, Expired)], suspender := Some(t))
    requires s2 == s.(pcs := s.pcs[t := Resuming(op, Expired)], suspender := Some(t))
    ensures Leads(s0, [UnlockTxStep(t), UnlockRxStep(t)], s2)
  {
    Unlocked(s.q);
    UnlockEffect(s0, t);
    assert s0.pcs[t := Resuming(op, Expired)] == s2.pcs;
  }

  lemma {:induction false} LeavesThen(s0: State, s2: State, e: State, t: Task)
    requires Leads(s0, [UnlockTxStep(t), UnlockRxStep(t)], s2) && Leads(s2, [Resume(t)], e)
    ensures Leads(s0, LeaveRun(t), e)
  {
    RunAppend(s0, [UnlockTxStep(t), UnlockRxStep(t)], [Resume(t)]);
    assert [UnlockTxStep(t), UnlockRxStep(t)] + [Resume(t)] == LeaveRun(t);
  }

  /** A sender whose time is up is refused, and leaves nothing else behind: its item is not in the queue, and
      it is on no event list. */
  lemma {:induction false} SenderTimesOut(s: State, t: Task, op: Op)
    requires Quiescent(s) && t in s.pcs && s.pcs[t].Idle? && op.OpSend? && op.canBlock && !Possible(s.q, op)
    ensures Leads(s, ExpireRun(t, op) + LeaveRun(t), s.(outcomes := s.outcomes + [Refused(t, Plain(op))]))
  {
    ExpireEffect(s, t, op);
    var e := Return(s, t, Refused(t, Plain(op)));
    ExpireLeaves(s, t, Plain(op), e);
    RunAppend(s, ExpireRun(t, op), LeaveRun(t));
    assert s.pcs[t := Idle] == s.pcs;
  }

  // A reader whose time is up is about to look once more.
  lemma {:induction false} ReaderExpires(s: State, t: Task, op: Op)
    requires Quiescent(s) && t in s.pcs && s.pcs[t].Idle? && !op.OpSend? && op.canBlock && s.q.Count() == 0
    ensures Leads(s, ExpireRun(t, op) + LeaveRun(t), Goto(s, t, Rechecking(Plain(op))))
  {
    ExpireEffect(s, t, op);
    ExpireLeaves(s, t, Plain(op), Goto(s, t, Rechecking(Plain(op))));
    RunAppend(s, ExpireRun(t, op), LeaveRun(t));
  }

  /** A reader whose time is up is refused, and leaves nothing else behind. */
  lemma {:induction false} ReaderTimesOut(s: State, t: Task, op: Op)
    requires Quiescent(s) && t in s.pcs && s.pcs[t].Idle? && !op.OpSend? && op.canBlock && s.q.Count() == 0
    ensures Leads(s, ExpireRun(t, op) + LeaveRun(t) + [Recheck(t)],
                  s.(outcomes := s.outcomes + [Refused(t, Plain(op))]))
  {
    ReaderExpires(s, t, op);
    var s1, e := Goto(s, t, Rechecking(Plain(op))), s.(outcomes := s.outcomes + [Refused(t, Plain(op))]);
    assert s1.pcs[t := Idle] == s.pcs;
    assert Leads(e, [], e);
    Then(s1, Recheck(t), e, [], e);
    assert [Recheck(t)] + [] == [Recheck(t)];
    RunAppend(s, ExpireRun(t, op) + LeaveRun(t), [Recheck(t)]);
  }

  /** But if an item arrives before it looks once more, it gets the item. */
  lemma {:induction false} ReaderServedLate(s: State, t: Task, x: Item)
    requires Quiescent(s) && t in s.pcs && s.pcs[t].Idle? && s.q.items == [] && s.q.length > 0
    requires s.q.waitReceive == [] && s.q.waitSend == []
    ensures Leads(s, ExpireRun(t, OpReceive(true)) + LeaveRun(t) + [IsrSend(x, Back), Recheck(t), Enter(t)],
      s.(accepted := s.accepted + [x], taken := s.taken + [x],
         outcomes := s.outcomes + [Success(t, OpReceive(false), x)]))
  {
    var op := OpReceive(false);
    ReaderExpires(s, t, OpReceive(true));
    var s1 := Goto(s, t, Rechecking(op));
    var s2 := s1.(q := s.q.(items := [x]), accepted := s.accepted + [x]);
    var s3 := s2.(pcs := s.pcs[t := Entry(op)]);
    var e := s.(accepted := s.accepted + [x], taken := s.taken + [x], outcomes := s.outcomes + [Success(t, op, x)]);
    assert [] + [x] == [x] && s.pcs[t := Idle] == s.pcs;
    assert Leads(e, [], e);
    Then(s3, Enter(t), e, [], e);
    Then(s2, Recheck(t), s3, [Enter(t)] + [], e);
    Then(s1, IsrSend(x, Back), s2, [Recheck(t)] + ([Enter(t)] + []), e);
    assert [IsrSend(x, Back)] + ([Recheck(t)] + ([Enter(t)] + [])) == [IsrSend(x, Back), Recheck(t), Enter(t)];
    RunAppend(s, ExpireRun(t, OpReceive(true)) + LeaveRun(t), [IsrSend(x, Back), Recheck(t), Enter(t)]);
  }

  /** A reader that has blocked on an empty queue gets the item that is posted then. */
  lemma {:induction false} BlockedReaderServed(s: State, t: Task, x: Item)
    requires Quiescent(s) && t in s.pcs && s.pcs[t].Idle? && s.q.items == [] && s.q.length > 0
    requires s.q.waitReceive == [] && s.q.waitSend == []
    ensures Leads(s, JoinRun(t, OpReceive(true), 0) + LeaveRun(t) + [IsrSend(x, Back), Enter(t)],
      s.(accepted := s.accepted + [x], taken := s.taken + [x],
         outcomes := s.outcomes + [Success(t, OpReceive(true), x)]))
  {
    var op := OpReceive(true);
    BlockEffect(s, t, op);
    assert [] + [t] == [t] && [] + [x] == [x] && s.pcs[t := Idle] == s.pcs;
    var s1 := s.(q := s.q.(waitReceive := [t]), pcs := s.pcs[t := Parked(op)]);
    var s2 := s.(q := s.q.(items := [x]), pcs := s.pcs[t := Parked(op)], accepted := s.accepted + [x]);
    var e := s.(accepted := s.accepted + [x], taken := s.taken + [x], outcomes := s.outcomes + [Success(t, op, x)]);
    assert Leads(e, [], e);
    Then(s2, Enter(t), e, [], e);
    Then(s1, IsrSend(x, Back), s2, [Enter(t)] + [], e);
    assert [IsrSend(x, Back)] + ([Enter(t)] + []) == [IsrSend(x, Back), Enter(t)];
    RunAppend(s, JoinRun(t, op, 0) + LeaveRun(t), [IsrSend(x, Back), Enter(t)]);
  }

  /** A sender that has blocked on a full queue gets its item in once a slot is free. */
  lemma {:induction false} BlockedSenderServed(s: State, t: Task, x: Item)
    requires Quiescent(s) && t in s.pcs && s.pcs[t].Idle? && s.q.Free() == 0 && s.q.length > 0
    requires s.q.waitReceive == [] && s.q.waitSend == []
    ensures Leads(s, JoinRun(t, OpSend(x, Back, true), 0) + LeaveRun(t) + [IsrReceive, Enter(t)],
      s.(q := s.q.(items := s.q.items[1..] + [x]), accepted := s.accepted + [x], taken := s.taken + [s.q.items[0]],
         outcomes := s.outcomes + [Success(t, OpSend(x, Back, true), x)]))
  {
    var op := OpSend(x, Back, true);
    BlockEffect(s, t, op);
    assert [] + [t] == [t] && s.pcs[t := Idle] == s.pcs;
    var s1 := s.(q := s.q.(waitSend := [t]), pcs := s.pcs[t := Parked(op)]);
    var s2 := s.(q := s.q.(items := s.q.items[1..]), pcs := s.pcs[t := Parked(op)], taken := s.taken + [s.q.items[0]]);
    var e := s.(q := s.q.(items := s.q.items[1..] + [x]), accepted := s.accepted + [x],
                taken := s.taken + [s.q.items[0]], outcomes := s.outcomes + [Success(t, op, x)]);
    assert Leads(e, [], e);
    Then(s2, Enter(t), e, [], e);
    Then(s1, IsrReceive, s2, [Enter(t)] + [], e);
    assert [IsrReceive] + ([Enter(t)] + []) == [IsrReceive, Enter(t)];
    RunAppend(s, JoinRun(t, op, 0) + LeaveRun(t), [IsrReceive, Enter(t)]);
  }
}
