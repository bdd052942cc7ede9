/** The queue object of queue.c: a byte ring addressed by two byte offsets, used as a deque. */
module QueueRing {
  import opened Basics
  import opened QueueSpec

  // The byte offset of a slot.
  function Offset(slot: nat, size: nat): nat {
    if slot == 0 then 0 else Offset(slot - 1, size) + size
  }

  lemma {:induction false} OffsetIsProduct(slot: nat, size: nat)
    ensures Offset(slot, size) == slot * size
  {
    if slot > 0 {
      OffsetIsProduct(slot - 1, size);
      assert (slot - 1) * size + size == slot * size;
    }
  }

  // Slots do not overlap, and lie in order.
  lemma {:induction false} OffsetOrder(i: nat, j: nat, size: nat)
    requires size > 0
    ensures i < j ==> Offset(i, size) + size <= Offset(j, size)
    ensures i <= j <==> Offset(i, size) <= Offset(j, size)
    decreases i + j
  {
    if j == 0 {
      if i > 0 { OffsetOrder(i - 1, 0, size); }
    } else if i < j {
      OffsetOrder(i, j - 1, size);
    } else if i > j {
      OffsetOrder(i - 1, j, size);
    }
  }

  function Wrap(i: nat, length: nat): nat {
    if i < length then i else i - length
  }

  /** The items of a ring of slots: `count` of them, starting after the slot last read. */
  ghost function Window(slots: seq<Item>, read: nat, count: nat): (items: seq<Item>)
    requires read < |slots| && count <= |slots|
    ensures |items| == count
    ensures forall i :: 0 <= i < count ==> items[i] == slots[Wrap(Wrap(read + 1, |slots|) + i, |slots|)]
  {
    seq(count, i requires 0 <= i < count => slots[Wrap(Wrap(read + 1, |slots|) + i, |slots|)])
  }

  // A semaphore holds items without content.
  ghost function Blanks(count: nat): (items: seq<Item>)
    ensures |items| == count && forall i :: 0 <= i < count ==> items[i] == []
  {
    if count == 0 then [] else Blanks(count - 1) + [[]]
  }

  // Filling the slot behind the last item appends to the window.
  lemma {:induction false} WindowPushBack(slots: seq<Item>, read: nat, count: nat, x: Item)
    requires read < |slots| && count < |slots|
    ensures Window(slots[Wrap(Wrap(read + 1, |slots|) + count, |slots|) := x], read, count + 1)
         == Window(slots, read, count) + [x]
  {
  }

  // Filling the slot last read and stepping back prepends; the last slot of a full ring is safe.
  lemma {:induction false} WindowPushFront(slots: seq<Item>, read: nat, count: nat, x: Item)
    requires read < |slots| && count < |slots|
    ensures Window(slots[read := x], if read == 0 then |slots| - 1 else read - 1, count + 1)
         == [x] + Window(slots, read, count)
  {
    var was := Window(slots, read, count);
    var now := Window(slots[read := x], if read == 0 then |slots| - 1 else read - 1, count + 1);
    assert now[0] == x;
    assert forall i {:trigger was[i]} :: 0 <= i < count ==> now[i + 1] == was[i];
  }

  lemma {:induction false} WindowOverwrite(slots: seq<Item>, x: Item)
    requires |slots| == 1
    ensures Window(slots[0 := x], 0, 1) == [x]
  {
  }

  lemma {:induction false} WindowPop(slots: seq<Item>, read: nat, count: nat)
    requires read < |slots| && 0 < count <= |slots|
    ensures Window(slots, read, count)[0] == slots[Wrap(read + 1, |slots|)]
    ensures Window(slots, Wrap(read + 1, |slots|), count - 1) == Window(slots, read, count)[1..]
  {
    var now := Window(slots, Wrap(read + 1, |slots|), count - 1);
    assert forall i {:trigger now[i]} :: 0 <= i < count - 1 ==> now[i] == Window(slots, read, count)[i + 1];
  }

  // The write position stays where it is when an item is read.
  lemma {:induction false} WrapStep(read: nat, count: nat, length: nat)
    requires read < length && 0 < count <= length
    ensures var first := Wrap(read + 1, length);
      Wrap(Wrap(first + 1, length) + (count - 1), length) == Wrap(first + count, length)
  {
  }

  // Nor when the read position moves back for an item in front.
  lemma {:induction false} WrapBack(read: nat, count: nat, length: nat)
    requires read < length && count < length
    ensures var back := if read == 0 then length - 1 else read - 1;
      Wrap(Wrap(back + 1, length) + (count + 1), length) == Wrap(Wrap(read + 1, length) + count, length)
  {
  }

  class QueueObject {
    const storage: array<Byte>
    const uxLength: nat
    const uxItemSize: nat
    // uxQueueType is queueQUEUE_IS_MUTEX.
    const isMutex: bool
    var pxMutexHolder: Option<Task>
    // Offsets from pcHead.
    const pcTail: nat
    var pcWriteTo: nat
    var pcReadFrom: nat
    var uxMessagesWaiting: nat
    var cRxLock: int
    var cTxLock: int
    var xTasksWaitingToSend: seq<Task>
    var xTasksWaitingToReceive: seq<Task>
    // The two offsets as slot numbers.
    ghost var readSlot: nat
    ghost var writeSlot: nat

    ghost predicate Shape()
    {
      uxLength > 0 && storage.Length == pcTail == Offset(uxLength, uxItemSize)
    }

    /** The two offsets are slot boundaries, and the distance between them is the item count. */
    ghost predicate Valid()
      reads this`uxMessagesWaiting, this`readSlot, this`writeSlot, this`pcReadFrom, this`pcWriteTo
    {
      && Shape()
      && readSlot < uxLength && writeSlot < uxLength
      && (uxItemSize > 0 ==>
            && uxMessagesWaiting <= uxLength
            && pcReadFrom == Offset(readSlot, uxItemSize)
            && pcWriteTo == Offset(writeSlot, uxItemSize)
            && writeSlot == Wrap(Wrap(readSlot + 1, uxLength) + uxMessagesWaiting, uxLength))
    }

    ghost function Slot(i: nat): Item
      requires Shape() && i < uxLength && uxItemSize > 0
      reads storage
    {
      OffsetOrder(i, uxLength, uxItemSize);
      storage[Offset(i, uxItemSize)..Offset(i, uxItemSize) + uxItemSize]
    }

    ghost function Slots(): (slots: seq<Item>)
      requires Shape() && uxItemSize > 0
      reads storage
      ensures |slots| == uxLength
    {
      seq(uxLength, i requires 0 <= i < uxLength && Shape() && uxItemSize > 0 reads storage => Slot(i))
    }

    ghost function Contents(): (items: seq<Item>)
      requires Valid()
      reads this`uxMessagesWaiting, this`readSlot, this`writeSlot, this`pcReadFrom, this`pcWriteTo
      reads storage
      ensures |items| == uxMessagesWaiting
    {
      if uxItemSize == 0 then Blanks(uxMessagesWaiting)
      else Window(Slots(), readSlot, uxMessagesWaiting)
    }

    ghost function View(): Queue
      requires Valid()
      reads this, storage
    {
      Queue.Queue(uxLength, uxItemSize, Contents(), cTxLock, cRxLock,
                  xTasksWaitingToSend, xTasksWaitingToReceive)
    }

    // prvInitialiseNewQueue() with xQueueGenericReset( pdTRUE ).
    constructor (length: nat, itemSize: nat, mutex: bool)
      requires length > 0 && (mutex ==> length == 1 && itemSize == 0)
      ensures Valid() && fresh(storage)
      ensures View() == Queue.Queue(length, itemSize, [], UNLOCKED, UNLOCKED, [], [])
      ensures isMutex == mutex && pxMutexHolder == None
    {
      OffsetIsProduct(length, itemSize);
      OffsetIsProduct(length - 1, itemSize);
      storage := new Byte[length * itemSize];
      uxLength, uxItemSize, pcTail := length, itemSize, length * itemSize;
      pcWriteTo, pcReadFrom := 0, (length - 1) * itemSize;
      uxMessagesWaiting := 0;
      cRxLock, cTxLock := UNLOCKED, UNLOCKED;
      isMutex, pxMutexHolder := mutex, None;
      xTasksWaitingToSend, xTasksWaitingToReceive := [], [];
      readSlot, writeSlot := length - 1, 0;
    }

    /** xQueueGenericReset( pdFALSE ): the items are dropped and one blocked sender is woken. The tail of a
        mutex, which has no ring, takes the place of its holder, and is set to NULL. */
    method GenericReset()
      requires Valid()
      modifies this
      ensures Valid() && View() == Reset(old(View()))
      ensures pxMutexHolder == if isMutex then None else old(pxMutexHolder)
    {
      if isMutex {
        pxMutexHolder := None;
      }
      uxMessagesWaiting := 0;
      pcWriteTo := 0;
      pcReadFrom := (uxLength - 1) * uxItemSize;
      OffsetIsProduct(uxLength - 1, uxItemSize);
      readSlot, writeSlot := uxLength - 1, 0;
      cRxLock, cTxLock := UNLOCKED, UNLOCKED;
      xTasksWaitingToSend := WakeHead(xTasksWaitingToSend);
      assert Valid() && Contents() == [];
    }

    // The memcpy() of one item to a slot.
    method StoreItem(offset: nat, item: Item, ghost slot: nat)
      requires Shape() && uxItemSize > 0
      requires |item| == uxItemSize && slot < uxLength && offset == Offset(slot, uxItemSize)
      modifies storage
      ensures Slots() == old(Slots())[slot := item]
    {
      OffsetOrder(slot, uxLength, uxItemSize);
      forall k | 0 <= k < uxItemSize {
        storage[offset + k] := item[k];
      }
      forall i: nat | i < uxLength
        ensures Slot(i) == if i == slot then item else old(Slot(i))
      {
        OffsetOrder(i, slot, uxItemSize);
        OffsetOrder(slot, i, uxItemSize);
        OffsetOrder(i, uxLength, uxItemSize);
      }
    }

    // The offset of the slot after or before a slot.
    lemma {:induction false} NextSlot(slot: nat)
      requires Shape() && uxItemSize > 0 && slot < uxLength
      ensures Offset(slot, uxItemSize) + uxItemSize >= pcTail <==> slot + 1 == uxLength
      ensures slot + 1 < uxLength ==> Offset(slot + 1, uxItemSize) == Offset(slot, uxItemSize) + uxItemSize
      ensures Offset(slot, uxItemSize) < uxItemSize <==> slot == 0
      ensures pcTail - uxItemSize == Offset(uxLength - 1, uxItemSize)
    {
      OffsetOrder(slot + 1, uxLength, uxItemSize);
      OffsetOrder(uxLength, slot + 1, uxItemSize);
    }

    // The pointer updates of prvCopyDataToQueue(), each with its wrap test.
    method AdvanceWrite()
      requires Shape() && uxItemSize > 0
      requires writeSlot < uxLength && pcWriteTo == Offset(writeSlot, uxItemSize)
      modifies this`pcWriteTo, this`writeSlot
      ensures writeSlot == Wrap(old(writeSlot) + 1, uxLength) && pcWriteTo == Offset(writeSlot, uxItemSize)
    {
      NextSlot(writeSlot);
      pcWriteTo := pcWriteTo + uxItemSize;
      if pcWriteTo >= pcTail {
        pcWriteTo := 0;
      }
      writeSlot := Wrap(writeSlot + 1, uxLength);
    }

    method RetreatRead()
      requires Shape() && uxItemSize > 0
      requires readSlot < uxLength && pcReadFrom == Offset(readSlot, uxItemSize)
      modifies this`pcReadFrom, this`readSlot
      ensures readSlot == (if old(readSlot) == 0 then uxLength - 1 else old(readSlot) - 1)
      ensures pcReadFrom == Offset(readSlot, uxItemSize)
    {
      NextSlot(readSlot);
      var back: int := pcReadFrom - uxItemSize;
      if back < 0 {
        back := pcTail - uxItemSize;
      } else {
        NextSlot(readSlot - 1);
      }
      pcReadFrom := back;
      readSlot := if readSlot > 0 then readSlot - 1 else uxLength - 1;
    }

    // What Valid() says about the two offsets once the queue holds `count` items.
    ghost predicate Spaced(count: nat)
      reads this`readSlot, this`writeSlot, this`pcReadFrom, this`pcWriteTo
    {
      && readSlot < uxLength && writeSlot < uxLength && count <= uxLength
      && pcReadFrom == Offset(readSlot, uxItemSize)
      && pcWriteTo == Offset(writeSlot, uxItemSize)
      && writeSlot == Wrap(Wrap(readSlot + 1, uxLength) + count, uxLength)
    }

    // The branch of prvCopyDataToQueue() for the back of the queue; the count is still to follow.
    method CopyToBack(item: Item)
      requires Valid() && |item| == uxItemSize > 0 && uxMessagesWaiting < uxLength
      modifies this`pcWriteTo, this`writeSlot, storage
      ensures Spaced(uxMessagesWaiting + 1)
      ensures Window(Slots(), readSlot, uxMessagesWaiting + 1) == old(Contents()) + [item]
    {
      WindowPushBack(Slots(), readSlot, uxMessagesWaiting, item);
      StoreItem(pcWriteTo, item, writeSlot);
      AdvanceWrite();
    }

    // The branch for the front of the queue, which an overwriting sender shares.
    method CopyToFront(item: Item, position: Position)
      requires Valid() && |item| == uxItemSize > 0
      requires if position == Overwrite then uxLength == 1 else uxMessagesWaiting < uxLength
      modifies this`pcReadFrom, this`readSlot, storage
      ensures var count := if position == Overwrite then 1 else uxMessagesWaiting + 1;
        && Spaced(count)
        && Window(Slots(), readSlot, count) == [item] + (if position == Overwrite then [] else old(Contents()))
    {
      ghost var slots, read := Slots(), readSlot;
      FrontFacts(slots, read, uxMessagesWaiting, item, position);
      StoreItem(pcReadFrom, item, readSlot);
      RetreatRead();
      assert Slots() == slots[read := item];
    }

    lemma {:induction false} FrontFacts(slots: seq<Item>, read: nat, waiting: nat, item: Item, position: Position)
      requires read < |slots|
      requires if position == Overwrite then |slots| == 1 else waiting < |slots|
      ensures var back := if read == 0 then |slots| - 1 else read - 1;
        var count := if position == Overwrite then 1 else waiting + 1;
        && Window(slots[read := item], back, count)
             == [item] + (if position == Overwrite then [] else Window(slots, read, waiting))
        && (position != Overwrite ==>
              Wrap(Wrap(back + 1, |slots|) + count, |slots|) == Wrap(Wrap(read + 1, |slots|) + waiting, |slots|))
    {
      if position == Overwrite {
        WindowOverwrite(slots, item);
      } else {
        WindowPushFront(slots, read, waiting, item);
        WrapBack(read, waiting, |slots|);
      }
    }

    /** prvCopyDataToQueue(). A mutex that is given back has no holder any more. */
    method CopyDataToQueue(item: Item, position: Position)
      requires Valid() && |item| == uxItemSize
      requires position == Overwrite ==> uxLength == 1
      requires uxMessagesWaiting < uxLength || position == Overwrite
      modifies this`uxMessagesWaiting, this`pcWriteTo, this`pcReadFrom, this`readSlot, this`writeSlot
      modifies this`pxMutexHolder, storage
      ensures Valid()
      ensures pxMutexHolder == if isMutex && uxItemSize == 0 then None else old(pxMutexHolder)
      ensures Contents() == PutItem(uxItemSize, old(Contents()), item, position)
    {
      var messages := uxMessagesWaiting;
      if uxItemSize == 0 {
        assert item == [];
        if isMutex {
          pxMutexHolder := None;
        }
      } else if position == Back {
        CopyToBack(item);
      } else {
        CopyToFront(item, position);
        if position == Overwrite {
          if messages > 0 {
            messages := messages - 1;
          }
        }
      }
      uxMessagesWaiting := messages + 1;
    }

    // The read offset moves on to the item that is copied out; the caller adjusts the count.
    method CopyDataFromQueue() returns (buffer: Item)
      requires Valid() && uxMessagesWaiting > 0
      modifies this`pcReadFrom, this`readSlot
      ensures buffer == old(Contents())[0]
      ensures uxItemSize == 0 ==> pcReadFrom == old(pcReadFrom) && readSlot == old(readSlot)
      ensures uxItemSize > 0 ==> pcReadFrom == Offset(readSlot, uxItemSize)
      ensures uxItemSize > 0 ==> readSlot == Wrap(old(readSlot) + 1, uxLength)
    {
      buffer := [];
      if uxItemSize != 0 {
        HeadSlot();
        NextSlot(readSlot);
        pcReadFrom := pcReadFrom + uxItemSize;
        if pcReadFrom >= pcTail {
          pcReadFrom := 0;
        }
        readSlot := Wrap(readSlot + 1, uxLength);
        buffer := storage[pcReadFrom..pcReadFrom + uxItemSize];
      }
    }

    // The slot after the one last read holds the head item.
    lemma {:induction false} HeadSlot()
      requires Valid() && uxItemSize > 0 && uxMessagesWaiting > 0
      ensures var from := Offset(Wrap(readSlot + 1, uxLength), uxItemSize);
        from + uxItemSize <= storage.Length && storage[from..from + uxItemSize] == Contents()[0]
    {
      var next := Wrap(readSlot + 1, uxLength);
      WindowPop(Slots(), readSlot, uxMessagesWaiting);
      OffsetOrder(next, uxLength, uxItemSize);
      assert Slots()[next] == Slot(next);
    }

    /** The critical section at the top of xQueueGenericSend(): false when the queue is full. */
    method SendCritical(item: Item, position: Position) returns (sent: bool)
      requires Valid() && |item| == uxItemSize
      requires position == Overwrite ==> uxLength == 1
      modifies this, storage
      ensures Valid() && sent == RoomFor(old(View()), position)
      ensures View() == if sent then Send(old(View()), item, position) else old(View())
      ensures pxMutexHolder == if sent && isMutex && uxItemSize == 0 then None else old(pxMutexHolder)
    {
      if uxMessagesWaiting < uxLength || position == Overwrite {
        CopyDataToQueue(item, position);
        if |xTasksWaitingToReceive| != 0 {
          xTasksWaitingToReceive := xTasksWaitingToReceive[1..];
        }
        return true;
      }
      return false;
    }

    // xQueueGenericSendFromISR(): a locked queue records the post and leaves the event list alone.
    method GenericSendFromISR(item: Item, position: Position) returns (sent: bool)
      requires Valid() && |item| == uxItemSize
      requires position == Overwrite ==> uxLength == 1
      modifies this, storage
      ensures Valid() && sent == RoomFor(old(View()), position)
      ensures View() == if sent then SendFromISR(old(View()), item, position) else old(View())
      ensures pxMutexHolder == if sent && isMutex && uxItemSize == 0 then None else old(pxMutexHolder)
    {
      if uxMessagesWaiting < uxLength || position == Overwrite {
        var lock := cTxLock;
        CopyDataToQueue(item, position);
        if lock == UNLOCKED {
          if |xTasksWaitingToReceive| != 0 {
            xTasksWaitingToReceive := xTasksWaitingToReceive[1..];
          }
        } else {
          cTxLock := ToInt8(lock + 1);
        }
        return true;
      }
      return false;
    }

    // xQueueGiveFromISR(), for semaphores: the count is stepped without touching the ring.
    method GiveFromISR() returns (given: bool)
      requires Valid() && uxItemSize == 0
      modifies this
      ensures Valid() && given == RoomFor(old(View()), Back)
      ensures View() == if given then SendFromISR(old(View()), [], Back) else old(View())
      ensures pxMutexHolder == old(pxMutexHolder)
    {
      if uxMessagesWaiting < uxLength {
        var lock := cTxLock;
        uxMessagesWaiting := uxMessagesWaiting + 1;
        if lock == UNLOCKED {
          if |xTasksWaitingToReceive| != 0 {
            xTasksWaitingToReceive := xTasksWaitingToReceive[1..];
          }
        } else {
          cTxLock := ToInt8(lock + 1);
        }
        return true;
      }
      return false;
    }

    /** Takes the head item out: the shared part of the two receive functions. */
    method TakeHead() returns (buffer: Item)
      requires Valid() && uxMessagesWaiting > 0
      modifies this`pcReadFrom, this`readSlot, this`uxMessagesWaiting
      ensures Valid()
      ensures buffer == old(Contents())[0] && View() == old(View()).(items := old(Contents())[1..])
    {
      if uxItemSize > 0 {
        buffer := TakeSlot();
      } else {
        buffer := CopyDataFromQueue();
        uxMessagesWaiting := uxMessagesWaiting - 1;
      }
    }

    method TakeSlot() returns (buffer: Item)
      requires Valid() && uxMessagesWaiting > 0 && uxItemSize > 0
      modifies this`pcReadFrom, this`readSlot, this`uxMessagesWaiting
      ensures Valid()
      ensures buffer == old(Contents())[0] && Contents() == old(Contents())[1..]
    {
      ghost var slots, items := Slots(), Contents();
      WindowPop(slots, readSlot, uxMessagesWaiting);
      WrapStep(readSlot, uxMessagesWaiting, uxLength);
      buffer := CopyDataFromQueue();
      uxMessagesWaiting := uxMessagesWaiting - 1;
      assert Window(slots, readSlot, uxMessagesWaiting) == items[1..];
      assert Slots() == slots;
    }

    // The critical section at the top of xQueueReceive(): None when the queue is empty.
    method ReceiveCritical() returns (buffer: Option<Item>)
      requires Valid()
      modifies this
      ensures Valid() && buffer.Some? == (old(View()).Count() > 0)
      ensures buffer.Some? ==> buffer.value == old(View()).items[0] && View() == Receive(old(View()))
      ensures buffer.None? ==> View() == old(View())
      ensures pxMutexHolder == old(pxMutexHolder)
    {
      if uxMessagesWaiting > 0 {
        var item := TakeHead();
        if |xTasksWaitingToSend| != 0 {
          xTasksWaitingToSend := xTasksWaitingToSend[1..];
        }
        return Some(item);
      }
      return None;
    }

    /** The critical section at the top of xQueueSemaphoreTake(). Who takes a mutex becomes its holder. */
    method TakeCritical(current: Task) returns (taken: bool)
      requires Valid() && uxItemSize == 0
      modifies this
      ensures Valid() && taken == (old(View()).Count() > 0)
      ensures View() == if taken then Receive(old(View())) else old(View())
      ensures pxMutexHolder == if taken && isMutex then Some(current) else old(pxMutexHolder)
    {
      if uxMessagesWaiting > 0 {
        uxMessagesWaiting := uxMessagesWaiting - 1;
        if isMutex {
          pxMutexHolder := Some(current);
        }
        if |xTasksWaitingToSend| != 0 {
          xTasksWaitingToSend := xTasksWaitingToSend[1..];
        }
        return true;
      }
      return false;
    }

    // The critical section at the top of xQueuePeek(): the read offset is put back.
    method PeekCritical() returns (buffer: Option<Item>)
      requires Valid()
      modifies this
      ensures Valid() && buffer.Some? == (old(View()).Count() > 0)
      ensures buffer.Some? ==> buffer.value == old(View()).items[0] && View() == Peek(old(View()))
      ensures buffer.None? ==> View() == old(View())
      ensures pxMutexHolder == old(pxMutexHolder)
    {
      if uxMessagesWaiting > 0 {
        var original := pcReadFrom;
        ghost var originalSlot := readSlot;
        var item := CopyDataFromQueue();
        pcReadFrom := original;
        readSlot := originalSlot;
        if |xTasksWaitingToReceive| != 0 {
          xTasksWaitingToReceive := xTasksWaitingToReceive[1..];
        }
        return Some(item);
      }
      return None;
    }

    // xQueueReceiveFromISR().
    method ReceiveFromISRCritical() returns (buffer: Option<Item>)
      requires Valid()
      modifies this
      ensures Valid() && buffer.Some? == (old(View()).Count() > 0)
      ensures buffer.Some? ==> buffer.value == old(View()).items[0] && View() == ReceiveFromISR(old(View()))
      ensures buffer.None? ==> View() == old(View())
      ensures pxMutexHolder == old(pxMutexHolder)
    {
      if uxMessagesWaiting > 0 {
        var lock := cRxLock;
        var item := TakeHead();
        NoteRemoval(lock);
        return Some(item);
      }
      return None;
    }

    // A removal wakes a sender, or is counted if the queue is locked.
    method NoteRemoval(lock: int)
      requires Valid()
      modifies this`cRxLock, this`xTasksWaitingToSend
      ensures Valid()
      ensures View() == if lock == UNLOCKED then old(View()).(waitSend := WakeHead(old(View()).waitSend))
                        else old(View()).(rx := ToInt8(lock + 1))
    {
      if lock == UNLOCKED {
        if |xTasksWaitingToSend| != 0 {
          xTasksWaitingToSend := xTasksWaitingToSend[1..];
        }
      } else {
        cRxLock := ToInt8(lock + 1);
      }
    }

    // xQueuePeekFromISR() changes nothing.
    method PeekFromISR() returns (buffer: Option<Item>)
      requires Valid()
      modifies this`pcReadFrom, this`readSlot
      ensures Valid() && View() == old(View())
      ensures buffer == if View().Count() > 0 then Some(View().items[0]) else None
    {
      if uxMessagesWaiting > 0 {
        var original := pcReadFrom;
        ghost var originalSlot := readSlot;
        var item := CopyDataFromQueue();
        pcReadFrom := original;
        readSlot := originalSlot;
        return Some(item);
      }
      return None;
    }

    // prvLockQueue().
    method LockQueue()
      requires Valid()
      modifies this`cRxLock, this`cTxLock
      ensures Valid() && View() == Lock(old(View()))
    {
      if cRxLock == UNLOCKED {
        cRxLock := LOCKED_UNMODIFIED;
      }
      if cTxLock == UNLOCKED {
        cTxLock := LOCKED_UNMODIFIED;
      }
    }

    /** The first half of prvUnlockQueue(): each post counted while the queue was locked wakes one
        reader, as long as there is one. */
    method UnlockQueueTx()
      requires Valid()
      modifies this`cTxLock, this`xTasksWaitingToReceive
      ensures Valid() && View() == UnlockTx(old(View()))
    {
      var lock := cTxLock;
      ghost var waiting := xTasksWaitingToReceive;
      while lock > LOCKED_UNMODIFIED
        invariant lock <= cTxLock == old(cTxLock) && (lock < 0 ==> lock == cTxLock)
        invariant 0 <= cTxLock - lock <= |waiting|
        invariant xTasksWaitingToReceive == waiting[cTxLock - lock..]
      {
        if |xTasksWaitingToReceive| != 0 {
          xTasksWaitingToReceive := xTasksWaitingToReceive[1..];
        } else {
          break;
        }
        lock := lock - 1;
      }
      assert xTasksWaitingToReceive == WakeMany(waiting, cTxLock);
      cTxLock := UNLOCKED;
    }

    // The second half of prvUnlockQueue().
    method UnlockQueueRx()
      requires Valid()
      modifies this`cRxLock, this`xTasksWaitingToSend
      ensures Valid() && View() == UnlockRx(old(View()))
    {
      var lock := cRxLock;
      ghost var waiting := xTasksWaitingToSend;
      while lock > LOCKED_UNMODIFIED
        invariant lock <= cRxLock == old(cRxLock) && (lock < 0 ==> lock == cRxLock)
        invariant 0 <= cRxLock - lock <= |waiting|
        invariant xTasksWaitingToSend == waiting[cRxLock - lock..]
      {
        if |xTasksWaitingToSend| != 0 {
          xTasksWaitingToSend := xTasksWaitingToSend[1..];
          lock := lock - 1;
        } else {
          break;
        }
      }
      assert xTasksWaitingToSend == WakeMany(waiting, cRxLock);
      cRxLock := UNLOCKED;
    }
  }
}
