/** The meaning of the critical sections of queue.c, as functions on a queue value.

    Every critical section of the source runs with interrupts masked, so it is one atomic step.
    Each function below says what one such section does to the queue; the class in QueueRing.dfy
    is proved to do exactly this to its byte ring, and the protocol in QueueProtocol.dfy
    interleaves these steps between tasks and interrupt handlers. */
module QueueSpec {
  import opened Basics

  type Task = nat

  type Item = Bytes

  // Where prvCopyDataToQueue() puts an item.
  datatype Position = Back | Front | Overwrite

  /** `tx` and `rx` are cTxLock and cRxLock: queueUNLOCKED (-1) or a count of the items that
      interrupt handlers added or removed while the queue was locked. The two event lists hold the
      blocked tasks, the next one to wake first. */
  datatype Queue = Queue(length: nat, itemSize: nat, items: seq<Item>, tx: int, rx: int,
                         waitSend: seq<Task>, waitReceive: seq<Task>)
  {
    function Count(): nat { |items| }
    function Free(): int { length - |items| }
  }

  const UNLOCKED := -1
  const LOCKED_UNMODIFIED := 0

  // The cast ( int8_t ) of a lock counter that has just been incremented: it wraps at 127.
  function ToInt8(x: int): (r: int)
    ensures -128 <= r <= 127
    ensures -128 <= x <= 127 ==> r == x
  {
    (x + 128) % 256 - 128
  }

  // xTaskRemoveFromEventList() on a list that may be empty: the head of the list becomes ready.
  function WakeHead(waiting: seq<Task>): seq<Task> {
    if waiting == [] then [] else waiting[1..]
  }

  // The replay loops of prvUnlockQueue(): one wake-up per counted item, until the list is empty.
  function WakeMany(waiting: seq<Task>, count: int): seq<Task> {
    waiting[Max(0, Min(count, |waiting|))..]
  }

  /** The deque operation behind prvCopyDataToQueue(). A semaphore (item size 0) ignores the
      position and only counts; overwriting is used on queues of length one. */
  function PutItem(itemSize: nat, items: seq<Item>, x: Item, pos: Position): seq<Item> {
    if itemSize == 0 then items + [x]
    else match pos
      case Back => items + [x]
      case Front => [x] + items
      case Overwrite => [x]
  }

  predicate RoomFor(q: Queue, pos: Position) {
    q.Count() < q.length || pos == Overwrite
  }

  // First critical section of xQueueGenericSend(), when there is room.
  function Send(q: Queue, x: Item, pos: Position): Queue {
    q.(items := PutItem(q.itemSize, q.items, x, pos), waitReceive := WakeHead(q.waitReceive))
  }

  // xQueueGenericSendFromISR(), when there is room; also xQueueGiveFromISR() with an empty item.
  function SendFromISR(q: Queue, x: Item, pos: Position): Queue {
    var q' := q.(items := PutItem(q.itemSize, q.items, x, pos));
    if q.tx == UNLOCKED then q'.(waitReceive := WakeHead(q.waitReceive))
    else q'.(tx := ToInt8(q.tx + 1))
  }

  // First critical section of xQueueReceive() and xQueueSemaphoreTake(), when there is data.
  function Receive(q: Queue): Queue
    requires q.Count() > 0
  {
    q.(items := q.items[1..], waitSend := WakeHead(q.waitSend))
  }

  // First critical section of xQueuePeek(), when there is data: the next reader is woken too.
  function Peek(q: Queue): Queue {
    q.(waitReceive := WakeHead(q.waitReceive))
  }

  // xQueueReceiveFromISR(), when there is data.
  function ReceiveFromISR(q: Queue): Queue
    requires q.Count() > 0
  {
    var q' := q.(items := q.items[1..]);
    if q.rx == UNLOCKED then q'.(waitSend := WakeHead(q.waitSend))
    else q'.(rx := ToInt8(q.rx + 1))
  }

  function Lock(q: Queue): Queue {
    q.(tx := if q.tx == UNLOCKED then LOCKED_UNMODIFIED else q.tx,
       rx := if q.rx == UNLOCKED then LOCKED_UNMODIFIED else q.rx)
  }

  // The two critical sections of prvUnlockQueue().
  function UnlockTx(q: Queue): Queue {
    q.(waitReceive := WakeMany(q.waitReceive, q.tx), tx := UNLOCKED)
  }

  function UnlockRx(q: Queue): Queue {
    q.(waitSend := WakeMany(q.waitSend, q.rx), rx := UNLOCKED)
  }

  // xQueueGenericReset() of a queue in use.
  function Reset(q: Queue): Queue {
    q.(items := [], tx := UNLOCKED, rx := UNLOCKED, waitSend := WakeHead(q.waitSend))
  }
}
