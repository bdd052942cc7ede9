/** No lost wake-ups: the invariant of the blocking protocol, kept by every step. */
module QueueWakeups {
  import opened Basics
  import opened QueueSpec
  import opened QueueProtocol

  // The steps during which a task holds the scheduler suspended.
  predicate Mid(pc: Pc) {
    pc.Locking? || pc.Deciding? || pc.Testing? || pc.Joining? || pc.UnlockingTx? || pc.UnlockingRx? || pc.Resuming?
  }

  // A task that has been on the event list of `side` and has not looked at the queue since.
  predicate PlacedOn(pc: Pc, side: Side) {
    && (pc.Parked? || ((pc.UnlockingTx? || pc.UnlockingRx? || pc.Resuming?) && pc.after == Placed))
    && SideOf(pc.op) == side
  }

  /** The tasks that were taken off the event list by an event and have not yet re-entered their
      first critical section: a wake-up each of them still has to use or pass on. */
  ghost function Owed(pcs: map<Task, Pc>, w: seq<Task>, side: Side): set<Task> {
    set t | t in pcs && PlacedOn(pcs[t], side) && t !in w
  }

  ghost predicate NoDuplicates(w: seq<Task>) {
    forall i, j :: 0 <= i < j < |w| ==> w[i] != w[j]
  }

  ghost predicate Listed(pcs: map<Task, Pc>, w: seq<Task>, side: Side) {
    NoDuplicates(w) && forall t :: t in w ==> t in pcs && PlacedOn(pcs[t], side)
  }

  // Exactly the suspender is between suspending and resuming the scheduler.
  ghost predicate Control(s: State) {
    && (forall t :: t in s.pcs && Mid(s.pcs[t]) ==> s.suspender == Some(t))
    && (s.suspender.Some? ==> s.suspender.value in s.pcs && Mid(s.pcs[s.suspender.value]))
    && (forall t :: t in s.pcs && !s.pcs[t].Idle? && s.pcs[t].op.OpSend? ==> PositionOk(s.q, s.pcs[t].op.pos))
  }

  // The lock counter of `side` while a task is at `pc` with the scheduler suspended.
  predicate Phase(pc: Pc, side: Side, count: int) {
    match pc
    case Locking(_) => count == UNLOCKED
    case Deciding(_) => count >= 0
    case Testing(_) => count >= 0
    case Joining(_) => count >= 0
    case UnlockingTx(_, _) => count >= 0
    case UnlockingRx(_, _) => if side == Receivers then count == UNLOCKED else count >= 0
    case Resuming(_, _) => count == UNLOCKED
    case _ => true
  }

  /** The heart of the protocol. If somebody waits, then what is available is covered by tasks that
      have been woken and by wake-ups that are still counted in the lock. A task on its way into
      the list saw nothing available, so all that has come since is counted in the lock. */
  ghost predicate Covered(s: State, side: Side) {
    Waiting(s.q, side) != [] ==>
      Available(s.q, side) <= |Owed(s.pcs, Waiting(s.q, side), side)| + Max(LockCount(s.q, side), 0)
  }

  ghost predicate SideInv(s: State, side: Side) {
    && Listed(s.pcs, Waiting(s.q, side), side)
    && (s.suspender == None ==> LockCount(s.q, side) == UNLOCKED)
    && (forall t :: t in s.pcs ==> Phase(s.pcs[t], side, LockCount(s.q, side)))
    && (forall t :: t in s.pcs && s.pcs[t].Joining? && SideOf(s.pcs[t].op) == side ==>
          Available(s.q, side) <= LockCount(s.q, side))
    && Covered(s, side)
  }

  // The lock counters are 8 bits wide: this step does not push the one of `side` past 127.
  predicate NoOverflow(s: State, a: Action, side: Side) {
    match side
    case Receivers => a.IsrSend? ==> s.q.tx < 127
    case Senders => a.IsrReceive? ==> s.q.rx < 127
  }

  // xQueueReset() frees every slot but wakes one sender.
  predicate Tame(s: State, a: Action, side: Side) {
    NoOverflow(s, a, side) && (side == Senders ==> !a.ResetStep?)
  }

  ghost predicate TameRun(s: State, run: seq<Action>, side: Side)
    requires Legal(s, run)
    decreases |run|
  {
    run == [] || (Tame(s, run[0], side) && TameRun(Next(s, run[0]), run[1..], side))
  }

  // ---- counting woken tasks ----

  lemma {:induction false} OwedSame(pcs: map<Task, Pc>, t: Task, pc: Pc, w: seq<Task>, side: Side)
    requires t in pcs && PlacedOn(pc, side) == PlacedOn(pcs[t], side)
    ensures Owed(pcs[t := pc], w, side) == Owed(pcs, w, side)
  {
  }

  lemma {:induction false} OwedSpent(pcs: map<Task, Pc>, t: Task, pc: Pc, w: seq<Task>, side: Side)
    requires t in Owed(pcs, w, side) && !PlacedOn(pc, side)
    ensures |Owed(pcs[t := pc], w, side)| == |Owed(pcs, w, side)| - 1
  {
    assert Owed(pcs[t := pc], w, side) == Owed(pcs, w, side) - {t};
  }

  lemma {:induction false} OwedWoken(pcs: map<Task, Pc>, w: seq<Task>, side: Side)
    requires Listed(pcs, w, side) && w != []
    ensures Listed(pcs, w[1..], side)
    ensures |Owed(pcs, w[1..], side)| == |Owed(pcs, w, side)| + 1
  {
    assert w == [w[0]] + w[1..];
    assert Owed(pcs, w[1..], side) == Owed(pcs, w, side) + {w[0]};
  }

  lemma {:induction false} OwedWokenMany(pcs: map<Task, Pc>, w: seq<Task>, k: nat, side: Side)
    requires Listed(pcs, w, side) && k <= |w|
    ensures Listed(pcs, w[k..], side)
    ensures |Owed(pcs, w[k..], side)| == |Owed(pcs, w, side)| + k
  {
    if k == 0 {
      assert w[0..] == w;
    } else {
      OwedWoken(pcs, w, side);
      OwedWokenMany(pcs, w[1..], k - 1, side);
      assert w[1..][k - 1..] == w[k..];
    }
  }

  lemma {:induction false} WithoutFacts(w: seq<Task>, t: Task)
    requires NoDuplicates(w) && t in w
    ensures NoDuplicates(Without(w, t))
    ensures forall u :: u in Without(w, t) <==> u in w && u != t
  {
    assert w == [w[0]] + w[1..];
    if w[0] != t {
      WithoutFacts(w[1..], t);
      assert w[0] !in w[1..];
      var rest := Without(w[1..], t);
      assert forall j :: 0 <= j < |rest| ==> rest[j] in rest;
    }
  }

  // ---- the invariant step by step ----

  lemma {:induction false} ControlMoved(s: State, s': State, t: Task)
    requires Control(s) && t in s.pcs && t in s'.pcs && s'.pcs == s.pcs[t := s'.pcs[t]]
    requires s'.q.length == s.q.length && s'.q.itemSize == s.q.itemSize
    requires s.suspender == None || s.suspender == Some(t)
    requires s'.suspender == if Mid(s'.pcs[t]) then Some(t) else None
    requires !s'.pcs[t].Idle? && s'.pcs[t].op.OpSend? ==> PositionOk(s.q, s'.pcs[t].op.pos)
    ensures Control(s')
  {
  }

  lemma {:induction false} EnterControl(s: State, t: Task)
    requires Control(s) && Enabled(s, Enter(t))
    ensures Control(EnterNext(s, t))
  {
    var s' := EnterNext(s, t);
    var op := s.pcs[t].op;
    if CanProceed(s.q, op) {
      match op
      case OpSend(_, _, _) => ControlMoved(s, s', t);
      case _ => ControlMoved(s, s', t);
    } else {
      ControlMoved(s, s', t);
    }
  }

  lemma {:induction false} ResumeControl(s: State, a: Action)
    requires Control(s) && Enabled(s, a) && (a.Resume? || a.Recheck?)
    ensures Control(Next(s, a))
  {
    if a.Resume? {
      ControlMoved(s, Next(s, a), a.t);
    } else {
      ControlMoved(s, Next(s, a), a.t);
    }
  }

  lemma {:induction false} ControlKept(s: State, a: Action)
    requires Control(s) && Enabled(s, a)
    ensures Control(Next(s, a))
  {
    if a.Enter? {
      EnterControl(s, a.t);
    } else if a.Resume? || a.Recheck? {
      ResumeControl(s, a);
    } else if !a.ResetStep? && !a.IsrSend? && !a.IsrReceive? {
      ControlMoved(s, Next(s, a), a.t);
    }
  }

  /** A step of task `t` that takes the first `k` tasks off the list: each of them now has a wake-up
      to use, and `t` has used its own if it leaves the counted tasks. */
  lemma {:induction false} MoveKept(s: State, s': State, t: Task, k: nat, side: Side)
    requires Control(s) && SideInv(s, side) && t in s.pcs && t in s'.pcs
    requires s'.pcs == s.pcs[t := s'.pcs[t]]
    requires k <= |Waiting(s.q, side)| && Waiting(s'.q, side) == Waiting(s.q, side)[k..]
    requires PlacedOn(s'.pcs[t], side) ==> PlacedOn(s.pcs[t], side)
    requires PlacedOn(s.pcs[t], side) && !PlacedOn(s'.pcs[t], side) ==> t !in Waiting(s.q, side)
    requires
      var spent := if PlacedOn(s.pcs[t], side) && !PlacedOn(s'.pcs[t], side) then 1 else 0;
      Waiting(s'.q, side) == [] || Available(s'.q, side) <= 0 ||
      Available(s'.q, side) - Max(LockCount(s'.q, side), 0)
        <= Available(s.q, side) - Max(LockCount(s.q, side), 0) + k - spent
    requires s'.suspender == None ==> LockCount(s'.q, side) == UNLOCKED
    requires s.suspender == None || s.suspender == Some(t)
    requires Phase(s'.pcs[t], side, LockCount(s'.q, side))
    requires s'.pcs[t].Joining? && SideOf(s'.pcs[t].op) == side ==>
      Available(s'.q, side) <= LockCount(s'.q, side)
    ensures SideInv(s', side)
  {
    var w := Waiting(s.q, side);
    var pc := s'.pcs[t];
    OwedWokenMany(s.pcs, w, k, side);
    assert forall u :: u in w[k..] ==> u in w;
    if PlacedOn(s.pcs[t], side) && !PlacedOn(pc, side) {
      OwedSpent(s.pcs, t, pc, w[k..], side);
    } else {
      OwedSame(s.pcs, t, pc, w[k..], side);
    }
    assert forall u :: u in s.pcs && u != t ==> !Mid(s.pcs[u]);
  }

  // What the first critical section does to one side: `k` tasks are woken, and the task that enters uses up
  // what it came for.
  ghost predicate Entered(s: State, s': State, t: Task, k: nat, side: Side)
    requires AtEntry(s, t)
  {
    && t in s'.pcs && (s'.pcs[t].Idle? || s'.pcs[t].Suspending?)
    && s'.pcs == s.pcs[t := s'.pcs[t]] && s'.suspender == s.suspender
    && k <= |Waiting(s.q, side)| && Waiting(s'.q, side) == Waiting(s.q, side)[k..]
    && LockCount(s'.q, side) == LockCount(s.q, side)
    && (Waiting(s'.q, side) == [] || Available(s'.q, side) <= 0 ||
        Available(s'.q, side) <= Available(s.q, side) + k - if SideOf(s.pcs[t].op) == side then 1 else 0)
  }

  lemma {:induction false} EnterFacts(s: State, t: Task, side: Side) returns (k: nat)
    requires AtEntry(s, t) && (s.pcs[t].op.OpSend? ==> PositionOk(s.q, s.pcs[t].op.pos))
    ensures Entered(s, EnterNext(s, t), t, k, side)
  {
    var op := s.pcs[t].op;
    var woken := CanProceed(s.q, op) && Waiting(s.q, side) != []
      && (if op.OpReceive? then side == Senders else side == Receivers);
    k := if woken then 1 else 0;
    if CanProceed(s.q, op) {
      match op
      case OpSend(_, _, _) =>
      case _ =>
    }
  }

  lemma {:induction false} EnteredKept(s: State, s': State, t: Task, k: nat, side: Side)
    requires Control(s) && SideInv(s, side) && Runnable(s, t) && AtEntry(s, t) && Entered(s, s', t, k, side)
    ensures SideInv(s', side)
  {
    MoveKept(s, s', t, k, side);
  }

  lemma {:induction false} EnterKept(s: State, t: Task, side: Side)
    requires Control(s) && SideInv(s, side) && Runnable(s, t) && AtEntry(s, t)
    ensures SideInv(EnterNext(s, t), side)
  {
    var k := EnterFacts(s, t, side);
    EnteredKept(s, EnterNext(s, t), t, k, side);
  }

  lemma {:induction false} UnlockKept(s: State, a: Action, side: Side)
    requires Control(s) && SideInv(s, side) && Enabled(s, a)
    requires a.UnlockTxStep? || a.UnlockRxStep?
    ensures SideInv(Next(s, a), side)
  {
    var w := Waiting(s.q, side);
    var woken := Max(0, Min(LockCount(s.q, side), |w|));
    MoveKept(s, Next(s, a), a.t, if a.UnlockTxStep? <==> side == Receivers then woken else 0, side);
  }

  lemma {:induction false} JoinKept(s: State, t: Task, at: nat, side: Side)
    requires Control(s) && SideInv(s, side) && Enabled(s, Join(t, at))
    ensures SideInv(Next(s, Join(t, at)), side)
  {
    var op := s.pcs[t].op;
    var pc := UnlockingTx(op, Placed);
    var w := Waiting(s.q, side);
    if side == SideOf(op) {
      var w' := w[..at] + [t] + w[at..];
      assert t !in w;
      assert Owed(s.pcs[t := pc], w', side) == Owed(s.pcs, w, side);
      assert Listed(s.pcs[t := pc], w', side);
    } else {
      OwedSame(s.pcs, t, pc, w, side);
    }
  }

  lemma {:induction false} TimeOutKept(s: State, t: Task, side: Side)
    requires Control(s) && SideInv(s, side) && Enabled(s, TimeOut(t))
    ensures SideInv(Next(s, TimeOut(t)), side)
  {
    var op := s.pcs[t].op;
    var w := Waiting(s.q, side);
    if side == SideOf(op) {
      WithoutFacts(w, t);
      assert Owed(s.pcs[t := Entry(op)], Without(w, t), side) == Owed(s.pcs, w, side);
    } else {
      OwedSame(s.pcs, t, Entry(op), w, side);
    }
  }

  // A handler wakes the first `k` waiting tasks, or leaves a count behind.
  lemma {:induction false} EventKept(s: State, s': State, k: nat, side: Side)
    requires Control(s) && SideInv(s, side) && s'.pcs == s.pcs && s'.suspender == s.suspender
    requires k <= |Waiting(s.q, side)| && Waiting(s'.q, side) == Waiting(s.q, side)[k..]
    requires LockCount(s.q, side) < 0 ==> LockCount(s'.q, side) == LockCount(s.q, side)
    requires LockCount(s.q, side) >= 0 ==> LockCount(s'.q, side) >= LockCount(s.q, side)
    requires (Waiting(s.q, side) == [] && LockCount(s.q, side) < 0) || Available(s'.q, side) <= 0 ||
      Available(s'.q, side) - Max(LockCount(s'.q, side), 0)
        <= Available(s.q, side) - Max(LockCount(s.q, side), 0) + k
    requires LockCount(s.q, side) >= 0 ==> k == 0
    ensures SideInv(s', side)
  {
    OwedWokenMany(s.pcs, Waiting(s.q, side), k, side);
  }

  lemma {:induction false} InterruptKept(s: State, a: Action, side: Side)
    requires Control(s) && SideInv(s, side) && Enabled(s, a) && NoOverflow(s, a, side)
    requires a.IsrSend? || a.IsrReceive?
    ensures SideInv(Next(s, a), side)
  {
    var s' := Next(s, a);
    assert s.suspender.Some? ==> Phase(s.pcs[s.suspender.value], side, LockCount(s.q, side));
    var k := |Waiting(s.q, side)| - |Waiting(s'.q, side)|;
    if a.IsrSend? {
      EventKept(s, s', k, side);
    } else {
      EventKept(s, s', k, side);
    }
  }

  // A reset empties the queue, so no reader is left with something to read.
  lemma {:induction false} ResetKept(s: State, t: Task)
    requires Control(s) && SideInv(s, Receivers) && Enabled(s, ResetStep(t))
    ensures SideInv(Next(s, ResetStep(t)), Receivers)
  {
  }

  lemma {:induction false} ResumeKept(s: State, t: Task, side: Side)
    requires Control(s) && SideInv(s, side) && Enabled(s, Resume(t))
    ensures SideInv(Next(s, Resume(t)), side)
  {
    MoveKept(s, Next(s, Resume(t)), t, 0, side);
  }

  // The steps of a task that wake nobody.
  lemma {:induction false} QuietKept(s: State, a: Action, side: Side)
    requires Control(s) && SideInv(s, side) && Enabled(s, a)
    requires a.Start? || a.Suspend? || a.LockStep? || a.Decide? || a.Test? || a.Resume? || a.Recheck?
    ensures SideInv(Next(s, a), side)
  {
    if a.LockStep? {
      MoveKept(s, Next(s, a), a.t, 0, side);
    } else if a.Resume? {
      ResumeKept(s, a.t, side);
    } else {
      assert Next(s, a).q == s.q;
      MoveKept(s, Next(s, a), a.t, 0, side);
    }
  }

  lemma {:induction false} StepKept(s: State, a: Action, side: Side)
    requires Control(s) && SideInv(s, side) && Enabled(s, a) && Tame(s, a, side)
    ensures SideInv(Next(s, a), side)
  {
    match a
    case Enter(t) => EnterKept(s, t, side);
    case UnlockTxStep(t) => UnlockKept(s, a, side);
    case UnlockRxStep(t) => UnlockKept(s, a, side);
    case Join(t, at) => JoinKept(s, t, at, side);
    case TimeOut(t) => TimeOutKept(s, t, side);
    case ResetStep(t) => ResetKept(s, t);
    case IsrSend(x, pos) => InterruptKept(s, a, side);
    case IsrReceive => InterruptKept(s, a, side);
    case _ => QuietKept(s, a, side);
  }

  lemma {:induction false} RunKept(s: State, run: seq<Action>, side: Side)
    requires Control(s) && SideInv(s, side) && Legal(s, run) && TameRun(s, run, side)
    ensures Control(Exec(s, run)) && SideInv(Exec(s, run), side)
    decreases |run|
  {
    if run != [] {
      ControlKept(s, run[0]);
      StepKept(s, run[0], side);
      RunKept(Next(s, run[0]), run[1..], side);
    }
  }

  /** No lost wake-ups, for readers and for senders: in every state that tasks and interrupt
      handlers can reach, as long as somebody is blocked, what is available is covered by tasks
      already woken for it and by wake-ups the lock still holds. */
  lemma {:induction false} NoLostWakeUp(s: State, run: seq<Action>, side: Side)
    requires Initial(s) && Legal(s, run) && TameRun(s, run, side)
    ensures Covered(Exec(s, run), side)
    ensures var e := Exec(s, run);
      (e.suspender == None && Available(e.q, side) > 0 && Owed(e.pcs, Waiting(e.q, side), side) == {})
      ==> Waiting(e.q, side) == []
  {
    RunKept(s, run, side);
  }
}
