/** The blocking protocol of queue.c: tasks and interrupt handlers that share one queue.

    A task that finds the queue empty (or full) suspends the scheduler, locks the queue, looks
    again, joins an event list, and unlocks. Every other task stands still in that window, but
    interrupt handlers do not: they post and take, and leave a count behind instead of waking
    anybody. The steps below are the critical sections of the source and the scheduler calls
    between them; any task may be interrupted between two of its steps. */
module QueueProtocol {
  import opened Basics
  import opened QueueSpec

  // `canBlock` is xTicksToWait != 0. xQueueSemaphoreTake() is OpReceive on a queue of empty items.
  datatype Op = OpSend(x: Item, pos: Position, canBlock: bool)
              | OpReceive(canBlock: bool)
              | OpPeek(canBlock: bool)

  // Why a task is unlocking the queue.
  datatype After = Placed | Retry | Expired

  datatype Pc = Idle
              | Entry(op: Op)                       // about to enter the first critical section
              | Suspending(op: Op)                  // could not proceed; about to vTaskSuspendAll()
              | Locking(op: Op)                     // about to prvLockQueue()
              | Deciding(op: Op)                    // about to xTaskCheckForTimeOut()
              | Testing(op: Op)                     // about to prvIsQueueEmpty() / prvIsQueueFull()
              | Joining(op: Op)                     // about to vTaskPlaceOnEventList()
              | UnlockingTx(op: Op, after: After)   // about to prvUnlockQueue(), first section
              | UnlockingRx(op: Op, after: After)   // second section
              | Resuming(op: Op, after: After)      // about to xTaskResumeAll()
              | Parked(op: Op)                      // blocked, or woken and about to look again
              | Rechecking(op: Op)                  // reader that ran out of time looks once more

  // How a call of a task ended: with the item that was sent, taken or looked at, or with errQUEUE_FULL or
  // errQUEUE_EMPTY.
  datatype Outcome = Success(t: Task, op: Op, item: Item) | Refused(t: Task, op: Op)

  /** `suspender` is the task that suspended the scheduler. `accepted` and `taken` record the items
      that went in and came out, `outcomes` the calls that have returned. */
  datatype State = State(q: Queue, pcs: map<Task, Pc>, suspender: Option<Task>,
                         accepted: seq<Item>, taken: seq<Item>, outcomes: seq<Outcome>)

  datatype Action = Start(t: Task, op: Op)
                  | Enter(t: Task)
                  | Suspend(t: Task)
                  | LockStep(t: Task)
                  | Decide(t: Task, expired: bool)
                  | Test(t: Task)
                  | Join(t: Task, at: nat)
                  | UnlockTxStep(t: Task)
                  | UnlockRxStep(t: Task)
                  | Resume(t: Task)
                  | Recheck(t: Task)
                  | TimeOut(t: Task)
                  | ResetStep(t: Task)
                  | IsrSend(x: Item, pos: Position)
                  | IsrReceive

  // The two event lists, and what the tasks on each of them wait for.
  datatype Side = Senders | Receivers

  function SideOf(op: Op): Side { if op.OpSend? then Senders else Receivers }

  function Waiting(q: Queue, side: Side): seq<Task> {
    match side case Senders => q.waitSend case Receivers => q.waitReceive
  }

  function WithWaiting(q: Queue, side: Side, waiting: seq<Task>): Queue {
    match side
    case Senders => q.(waitSend := waiting)
    case Receivers => q.(waitReceive := waiting)
  }

  function LockCount(q: Queue, side: Side): int {
    match side case Senders => q.rx case Receivers => q.tx
  }

  // Free slots for senders, messages for receivers.
  function Available(q: Queue, side: Side): int {
    match side case Senders => q.Free() case Receivers => q.Count()
  }

  predicate CanProceed(q: Queue, op: Op) {
    if op.OpSend? then RoomFor(q, op.pos) else q.Count() > 0
  }

  // The assertions of the source: overwriting is for queues of one item, which is not a semaphore.
  predicate PositionOk(q: Queue, pos: Position) {
    pos == Overwrite ==> q.length == 1 && q.itemSize > 0
  }

  predicate Runnable(s: State, t: Task) {
    t in s.pcs && (s.suspender == None || s.suspender == Some(t))
  }

  // A blocked task may continue once it has been taken off its event list.
  predicate AtEntry(s: State, t: Task) {
    && t in s.pcs
    && (s.pcs[t].Entry? || (s.pcs[t].Parked? && t !in Waiting(s.q, SideOf(s.pcs[t].op))))
  }

  predicate Enabled(s: State, a: Action) {
    match a
    case Start(t, op) => Runnable(s, t) && s.pcs[t].Idle? && (op.OpSend? ==> PositionOk(s.q, op.pos))
    case Enter(t) => Runnable(s, t) && AtEntry(s, t)
    case Suspend(t) => Runnable(s, t) && s.pcs[t].Suspending?
    case LockStep(t) => Runnable(s, t) && s.pcs[t].Locking?
    case Decide(t, _) => Runnable(s, t) && s.pcs[t].Deciding?
    case Test(t) => Runnable(s, t) && s.pcs[t].Testing?
    case Join(t, at) =>
      Runnable(s, t) && s.pcs[t].Joining? && at <= |Waiting(s.q, SideOf(s.pcs[t].op))|
    case UnlockTxStep(t) => Runnable(s, t) && s.pcs[t].UnlockingTx?
    case UnlockRxStep(t) => Runnable(s, t) && s.pcs[t].UnlockingRx?
    case Resume(t) => Runnable(s, t) && s.pcs[t].Resuming?
    case Recheck(t) => Runnable(s, t) && s.pcs[t].Rechecking?
    case TimeOut(t) =>
      // The tick is held back while the scheduler is suspended.
      && s.suspender == None && t in s.pcs && s.pcs[t].Parked?
      && t in Waiting(s.q, SideOf(s.pcs[t].op))
    case ResetStep(t) => Runnable(s, t) && s.pcs[t].Idle?
    case IsrSend(_, pos) => PositionOk(s.q, pos)
    case IsrReceive => true
  }

  function Goto(s: State, t: Task, pc: Pc): State { s.(pcs := s.pcs[t := pc]) }

  // The call of `t` returns.
  function Return(s: State, t: Task, o: Outcome): State { Goto(s, t, Idle).(outcomes := s.outcomes + [o]) }

  // The first critical section of the blocking functions.
  function EnterNext(s: State, t: Task): State
    requires AtEntry(s, t)
  {
    var op := s.pcs[t].op;
    if !CanProceed(s.q, op) then
      if op.canBlock then Goto(s, t, Suspending(op)) else Return(s, t, Refused(t, op))
    else match op
      case OpSend(x, pos, _) =>
        Return(s, t, Success(t, op, x)).(q := Send(s.q, x, pos), accepted := s.accepted + [x])
      case OpReceive(_) =>
        var x := s.q.items[0];
        Return(s, t, Success(t, op, x)).(q := Receive(s.q), taken := s.taken + [x])
      case OpPeek(_) => Return(s, t, Success(t, op, s.q.items[0])).(q := Peek(s.q))
  }

  function Next(s: State, a: Action): State
    requires Enabled(s, a)
  {
    match a
    case Start(t, op) => Goto(s, t, Entry(op))
    case Enter(t) => EnterNext(s, t)
    case Suspend(t) => Goto(s, t, Locking(s.pcs[t].op)).(suspender := Some(t))
    case LockStep(t) => Goto(s, t, Deciding(s.pcs[t].op)).(q := Lock(s.q))
    case Decide(t, expired) =>
      if expired then Goto(s, t, UnlockingTx(s.pcs[t].op.(canBlock := false), Expired))
      else Goto(s, t, Testing(s.pcs[t].op))
    case Test(t) =>
      var op := s.pcs[t].op;
      if Available(s.q, SideOf(op)) == 0 then Goto(s, t, Joining(op))
      else Goto(s, t, UnlockingTx(op, Retry))
    case Join(t, at) =>
      var op := s.pcs[t].op;
      var w := Waiting(s.q, SideOf(op));
      Goto(s, t, UnlockingTx(op, Placed)).(q := WithWaiting(s.q, SideOf(op), w[..at] + [t] + w[at..]))
    case UnlockTxStep(t) =>
      Goto(s, t, UnlockingRx(s.pcs[t].op, s.pcs[t].after)).(q := UnlockTx(s.q))
    case UnlockRxStep(t) =>
      Goto(s, t, Resuming(s.pcs[t].op, s.pcs[t].after)).(q := UnlockRx(s.q))
    case Resume(t) =>
      var op := s.pcs[t].op;
      var s' := s.(suspender := None);
      (match s.pcs[t].after
       case Placed => Goto(s', t, Parked(op))
       case Retry => Goto(s', t, Entry(op))
       case Expired => if op.OpSend? then Return(s', t, Refused(t, op)) else Goto(s', t, Rechecking(op)))
    case Recheck(t) =>
      var op := s.pcs[t].op;
      if s.q.Count() == 0 then Return(s, t, Refused(t, op)) else Goto(s, t, Entry(op))
    case TimeOut(t) =>
      var op := s.pcs[t].op;
      Goto(s, t, Entry(op)).(q := WithWaiting(s.q, SideOf(op), Without(Waiting(s.q, SideOf(op)), t)))
    case ResetStep(t) => s.(q := Reset(s.q))
    case IsrSend(x, pos) =>
      if RoomFor(s.q, pos) then s.(q := SendFromISR(s.q, x, pos), accepted := s.accepted + [x]) else s
    case IsrReceive =>
      if s.q.Count() > 0 then
        s.(q := ReceiveFromISR(s.q), taken := s.taken + [s.q.items[0]])
      else s
  }

  // uxListRemove() of one task.
  function Without(w: seq<Task>, t: Task): seq<Task> {
    if w == [] then [] else if w[0] == t then w[1..] else [w[0]] + Without(w[1..], t)
  }

  predicate Initial(s: State) {
    && s.q.items == [] && s.q.tx == UNLOCKED && s.q.rx == UNLOCKED
    && s.q.waitSend == [] && s.q.waitReceive == []
    && (forall t :: t in s.pcs ==> s.pcs[t] == Idle)
    && s.suspender == None && s.accepted == [] && s.taken == [] && s.outcomes == []
  }

  ghost predicate Legal(s: State, run: seq<Action>)
    decreases |run|
  {
    run == [] || (Enabled(s, run[0]) && Legal(Next(s, run[0]), run[1..]))
  }

  function Exec(s: State, run: seq<Action>): State
    requires Legal(s, run)
    decreases |run|
  {
    if run == [] then s else Exec(Next(s, run[0]), run[1..])
  }
}
