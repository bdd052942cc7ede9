# Verified model of the firmware's kernel services

This project models, in Dafny, the parts of the cluster firmware where a mistake would be hard to see:
the FreeRTOS services it vendors in `firmware/librtos`, its own I2C register file, and its printf engine.
Each source file appears twice. A class works as the source does, step by step, on arrays, linked nodes or
block headers, and every method is proved to compute a function on plain values. What the source promises
is then proved about these functions: for every input, every run, every interleaving.

* **Queues** (`queue.c`). `QueueSpec` says what each critical section does. `QueueRing` is the byte ring that
  does it. `QueueProtocol` interleaves the critical sections of any number of blocking tasks with interrupt
  handlers. `QueueWakeups` proves that no wake-up is lost, and `QueueLimits` where that ends: at the 128th
  post or removal counted in an 8-bit lock counter, and at a reset. `DeliveredInOrder` has no such limit.
  `QueueCalls` follows the single calls: which of them may block, that each returns once, and that what it
  returns is what it has done.
* **Coalescing heaps** (`heap_4.c`, `heap_5.c`). `HeapMemory` is the allocator as it rewrites block headers,
  for one region or several. It does what `HeapSpec` says, and there the free list turns out to be a function
  of the allocated blocks alone (`HeapBlocks`, `HeapRuns`, `HeapSetup`): history leaves no trace. `HeapCalls`
  says which requests succeed and exactly what they get.
* **Best-fit heap** (`heap_2.c`). `BestFitMemory`, `BestFitSpec`, `BestFitRuns`, `BestFitCalls`: best fit, a
  partition that only gets finer, a bound on the splits, conservation, and the requests whose size wraps.
* **Stream and message buffers** (`stream_buffer.c`). `StreamRing` is the ring without interleaving.
  `StreamProtocol` interleaves one writer and one reader byte by byte. `StreamSafety`, `StreamFraming` and
  `StreamWakeups` prove order, framing, and that nobody sleeps on a condition that holds. A receive into a
  buffer that is too small, and asking for the length of a message, move the tail over that length and back;
  `StreamLimits` shows that this does harm exactly when a writer that reads the space meanwhile is misled by
  it, and what empty messages do. `StreamRuns` has the calls that nothing interrupts, which link the
  two, and `StreamCalls` what single calls do for their callers: when they wait, when they are woken, and
  that sends which wait send all they have.
* **Lists** (`list.c`). `Lists` has the linked nodes, `ListSpec` the order: stable sorting, and round robin.
* **I2C register file** (`firmware/src/i2c.c`). `NvramDevice` has the event handler and its arrays. `NvramCache`
  proves that the write-back cache shows what direct access to the objects behind it would show; which cells
  that is about is told from the bytes on the bus alone.
* **printf** (`miniprintf.c`). `Printer` has the engine and its sinks, `PrintSpec` what is to be printed, and
  `PrintFormats` the syntax of formats: which ones the engine leaves, and which can be put together.
  `PrintMeaning` says of each conversion how it is spelt, which argument it takes, and what it prints.

Interrupt handlers may run between any two steps; a critical section is one step. Tasks other than the one
that suspended the scheduler stand still until it is resumed. Lemmas switch Dafny's automatic induction
off: where a proof is by induction, it is written out.

Where the code differs from its own documentation, the code is followed: `miniprintf.h` shows `%04x` printing
capitals, but `%x` prints lower case, and so does every `%X` after it; the return value of `mini_snprintf` is
the number of characters stored, not the number the format would need.

## Model

| member | source | states |
|---|---|---|
| QueueRing.WindowPushBack | firmware/librtos/queue.c:2096-2108 | an item stored at the write position becomes the last of the queued items, wherever the ring wraps |
| QueueRing.WindowPushFront | firmware/librtos/queue.c:2111-2120 | an item stored at the read position, which then moves back, becomes the first of the queued items |
| QueueRing.WindowOverwrite | firmware/librtos/queue.c:2122-2136 | overwriting in a ring of one slot leaves exactly the new item |
| QueueRing.WindowPop | firmware/librtos/queue.c:2149-2164 | the slot after the read position holds the head item, and moving on leaves the others in order |
| QueueRing.QueueObject.constructor | firmware/librtos/queue.c:429-482 | a new ring is empty and unlocked, with nobody waiting and no holder |
| QueueRing.QueueObject.GenericReset | firmware/librtos/queue.c:255-300 | the items are dropped, the locks cleared, and one blocked sender is woken - only one; a mutex loses its holder |
| QueueRing.QueueObject.CopyDataToQueue | firmware/librtos/queue.c:2070-2146 | two byte offsets and a count do what a deque does: item at the back, at the front, in place of the only one, or a bare count for semaphores; a mutex given back has no holder |
| QueueRing.QueueObject.CopyDataFromQueue | firmware/librtos/queue.c:2149-2164 | the bytes copied out are the head item; the read offset ends on its slot, the last slot being followed by the first |
| QueueRing.QueueObject.SendCritical | firmware/librtos/queue.c:766-904 | if there is room, or the item overwrites, the item is in and the first waiting reader is off its list; a full queue is reported and nothing changes |
| QueueRing.QueueObject.GenericSendFromISR | firmware/librtos/queue.c:957-1105 | the same from an interrupt, but a locked queue wakes nobody and counts the post in 8 bits |
| QueueRing.QueueObject.GiveFromISR | firmware/librtos/queue.c:1108-1270 | giving a semaphore from an interrupt is posting an empty item |
| QueueRing.QueueObject.TakeHead | firmware/librtos/queue.c:1305-1310 | exactly the head item leaves; the others stay in order |
| QueueRing.QueueObject.ReceiveCritical | firmware/librtos/queue.c:1299-1358 | the head item leaves and the first waiting sender is off its list; an empty queue is reported and nothing changes |
| QueueRing.QueueObject.TakeCritical | firmware/librtos/queue.c:1444-1529 | taking a semaphore is receiving an empty item; who takes a mutex becomes its holder |
| QueueRing.QueueObject.PeekCritical | firmware/librtos/queue.c:1659-1725 | the head item is returned, no item leaves, and the wake-up is passed on to the next waiting reader |
| QueueRing.QueueObject.ReceiveFromISRCritical | firmware/librtos/queue.c:1781-1869 | the head item leaves; a locked queue wakes nobody and counts the removal in 8 bits |
| QueueRing.QueueObject.PeekFromISR | firmware/librtos/queue.c:1872-1923 | the head item is returned and nothing at all changes |
| QueueRing.QueueObject.LockQueue | firmware/librtos/queue.c:240-252 | both counters start at zero unless the queue was locked already |
| QueueRing.QueueObject.UnlockQueueTx | firmware/librtos/queue.c:2175-2253 | one reader is woken for each counted post, the longest waiting first, until nobody waits; the counter is unlocked |
| QueueRing.QueueObject.UnlockQueueRx | firmware/librtos/queue.c:2256-2283 | the same for removals and senders |
| QueueWakeups.StepKept | firmware/librtos/queue.c:747-953 | each critical section, lock, scheduler call, timeout and interrupt keeps the covering invariant: a task on its way into an event list saw nothing available, and all that has come since is counted in the lock |
| QueueWakeups.RunKept | firmware/librtos/queue.c:1273-1410 | the invariant holds after any interleaving of senders, receivers, peekers and interrupt handlers |
| QueueWakeups.NoLostWakeUp | firmware/librtos/queue.c:1297-1410 | no lost wake-up, for readers and for senders: while anybody waits, what is available is at most the woken tasks still to look plus the wake-ups held by the lock, so an unlocked queue with something available and no woken task outstanding has nobody blocked on it; up to 127 counted posts a lock, and for senders without resets |
| QueueLimits.LockingPostpones | firmware/librtos/queue.c:2167-2253 | locking, posting from interrupts and unlocking leave the queue as posting to an unlocked queue would, if and only if at most 127 posts found room, nobody waited, or the wrapped counter woke all anyway |
| QueueLimits.LockingPostponesTakes | firmware/librtos/queue.c:2256-2283 | the same for items taken from interrupts and the senders that wait |
| QueueLimits.CounterWrapLosesWakeUp | firmware/librtos/queue.c:1082-1092 | a reader that blocks while interrupts post k items ends up asleep beside its data if and only if 128 <= k <= 255 |
| QueueLimits.CounterWrapLosesSender | firmware/librtos/queue.c:1824-1856 | a sender that blocks on a full queue while interrupts take k items ends up asleep beside k free slots if and only if 128 <= k <= 255 |
| QueueLimits.ResetStrandsSenders | firmware/librtos/queue.c:270-281 | a reset keeps the guarantee for senders if and only if at most one sender waits, or tasks already woken make up for every slot |
| QueueLimits.ResetLosesWakeUp | firmware/librtos/queue.c:255-300 | a run from the initial state, with two senders on a full queue, after which the queue is empty and a sender still sleeps |
| QueueLimits.DeliveredInOrder | firmware/librtos/queue.c:747-953 | in every interleaving of senders to the back, the items accepted are those taken followed by those still queued, in order |
| QueueCalls.FrontIsNext | firmware/librtos/queue.c:2111-2120 | what is sent to the front is received next, and what was queued before follows it |
| QueueCalls.BackIsLast | firmware/librtos/queue.c:2096-2108 | what is sent to the back is received after all that was queued before |
| QueueCalls.OverwriteIsAll | firmware/librtos/queue.c:2111-2136 | what overwrites is received next, and nothing after it |
| QueueCalls.SemaphoreCounts | firmware/librtos/queue.c:2070-2095 | a semaphore counts one up with each item sent, wherever it is sent to, and back with each received |
| QueueCalls.NeverBlocks | firmware/librtos/queue.c:877-890 | in every run a call with zero block time, or whose time is up, neither suspends the scheduler nor joins an event list nor blocks: it enters, leaves with its refusal, or looks once more |
| QueueCalls.TimeKept | firmware/librtos/queue.c:906-953 | a call that goes on keeps its item, its position and its right to block, until the check of the timeout says that its time is up |
| QueueCalls.CallsReturnOnce | firmware/librtos/queue.c:747-953 | in every run the calls a task has begun are those that have returned to it, in order and each once, and perhaps one that it is in |
| QueueCalls.OutcomeIsEffect | firmware/librtos/queue.c:766-953 | a call that returns success has, in that step, put its item at its place, taken the head item or looked at it, which there was room or an item for; one that returns a refusal has changed nothing, and was refused for want of room or items unless the time of a sender was up; no other step of a task changes the items |
| QueueCalls.InterruptIsEffect | firmware/librtos/queue.c:957-1105 | a post from an interrupt goes in at its place exactly if there is room or it overwrites, and a removal takes the head item if there is one; otherwise nothing changes |
| QueueCalls.RefusedAtOnce | firmware/librtos/queue.c:879-890 | a call with zero block time that finds the queue full or empty is refused at once and leaves everything as it was |
| QueueCalls.SenderTimesOut | firmware/librtos/queue.c:944-951 | a sender whose time is up is refused, and leaves neither its item nor itself on any list, and the queue unlocked |
| QueueCalls.ReaderTimesOut | firmware/librtos/queue.c:1390-1410 | so is a reader that finds the queue empty when it looks once more |
| QueueCalls.ReaderServedLate | firmware/librtos/queue.c:1396-1410 | a reader whose time is up still gets an item that arrives before it looks once more |
| QueueCalls.BlockedReaderServed | firmware/librtos/queue.c:1336-1388 | a reader that blocks on an empty queue gets the item that is posted then |
| QueueCalls.BlockedSenderServed | firmware/librtos/queue.c:879-943 | a sender that blocks on a full queue gets its item in behind the others once one is taken |
| QueueCalls.LocksAndResets | firmware/librtos/queue.c:240-281 | a reset queue is empty and unlocked whatever was counted; locking a locked queue keeps its counts, and locking and unlocking with nothing counted in between changes nothing |
| HeapBlocks.CanonicalUnique | firmware/librtos/heap_4.c:377-435 | there is one way only to list a set of free bytes as separate blocks in address order |
| HeapBlocks.InsertOrdered | firmware/librtos/heap_4.c:377-435 | inserting a block keeps the list in strictly ascending order with no two blocks touching, whether it merges on neither side, one, or both |
| HeapBlocks.InsertCovers | firmware/librtos/heap_4.c:388-434 | inserting adds exactly the bytes of the block to the free ones |
| HeapBlocks.InsertTotal | firmware/librtos/heap_4.c:388-434 | merging neither loses bytes nor makes any |
| HeapSpec.MallocKept | firmware/librtos/heap_4.c:113-260 | an allocation keeps the heap invariant: free and allocated blocks tile the managed bytes, the list is ordered, apart and aligned, and the counter is the sum of the free blocks |
| HeapSpec.FreeKept | firmware/librtos/heap_4.c:263-308 | so does a free, of NULL and of a block already freed as well |
| HeapRuns.FreeListDetermined | firmware/librtos/heap_4.c:377-435 | two heaps with the same allocated blocks have the same free list and the same free count, whatever happened before; in heap_5, but for zero-size markers |
| HeapCalls.MallocSucceeds | firmware/librtos/heap_4.c:135-181 | for 0 < n < 2^31 a request succeeds if and only if some free block holds n bytes and a header, and then gets the lowest of those |
| HeapCalls.MallocRefused | firmware/librtos/heap_4.c:135-162 | a request for nothing, or for 2^31 bytes or more, is refused, and no refused request changes the heap |
| HeapCalls.MallocGives | firmware/librtos/heap_4.c:141-213 | exactly what is given: n and a header rounded up to the next multiple of eight if more than sixteen bytes of the block are left then, the whole block otherwise; just these bytes stop being free, and both counters follow |
| HeapCalls.FreeReturns | firmware/librtos/heap_4.c:263-308 | a free returns just the bytes of the block and adds its size to the count; NULL, or a block that is not allocated, changes nothing |
| HeapRuns.MallocBlock | firmware/librtos/heap_4.c:178-220 | the block handed out is new, aligned, managed, at least as large as rounded, and larger by at most heapMINIMUM_BLOCK_SIZE; all others stay |
| HeapRuns.MallocThenFree | firmware/librtos/heap_4.c:113-308 | freeing the result of an allocation restores the free list and the count, splits and merges included; in heap_5, but for zero-size markers |
| HeapRuns.BytesConserved | firmware/librtos/heap_4.c:203-212 | the free count and the bytes of the allocated blocks add up to the managed bytes |
| HeapRuns.RunKept | firmware/librtos/heap_4.c:113-308 | the invariant holds after every run, and xMinimumEverFreeBytesRemaining is the least free count along it |
| HeapRuns.HistoryIndependent | firmware/librtos/heap_4.c:113-308 | two runs that leave the same blocks allocated leave the same free list, and one that frees all it allocated restores the list it began with; in heap_5, but for zero-size markers |
| HeapSetup.InitialKept | firmware/librtos/heap_5.c:393-478 | the list the initialisation builds satisfies the heap invariant, with the inner end markers between the regions |
| HeapSetup.NeverSpans | firmware/librtos/heap_5.c:332-390 | no block, free or allocated, ever reaches over two regions, although markers are merged into their neighbours |
| HeapSetup.AllFreed | firmware/librtos/heap_5.c:272-317 | a run over several regions that frees all ends with one block a region, zero-size markers aside, and the whole free count |
| HeapSetup.AllFreedOne | firmware/librtos/heap_4.c:329-373 | in heap_4 such a run ends with exactly the single initial block |
| HeapCalls.RegionExact | firmware/librtos/heap_4.c:329-373 | a region gives the bytes from its first aligned address up to the last aligned one that leaves room for the end marker |
| HeapCalls.SetupExact | firmware/librtos/heap_5.c:407-470 | the initial list is the block of each region in order, with a marker of no bytes at the end of each but the last, and nothing else |
| HeapCalls.SetupFree | firmware/librtos/heap_5.c:469-477 | all bytes of all regions are free in the beginning |
| HeapCalls.LowestEver | firmware/librtos/heap_4.c:205-213 | from the set-up on, xMinimumEverFreeBytesRemaining is the least free count there has been |
| HeapLinks.SpliceLinked | firmware/librtos/heap_4.c:405-434 | rewriting the headers around one place turns the linked list into the list with that part replaced |
| HeapLinks.BypassLinked | firmware/librtos/heap_4.c:176-186 | redirecting one link takes exactly one block out of the linked list |
| HeapLinks.LinkAppended | firmware/librtos/heap_5.c:430-470 | writing a block and a new end marker behind the old one extends the linked list by the marker and the block |
| HeapMemory.HeapObject.InsertBlockIntoFreeList | firmware/librtos/heap_4.c:377-435 | walking and merging in memory yields the linked list of the inserted block; no other header changes |
| HeapMemory.HeapObject.FindBlock | firmware/librtos/heap_4.c:166-174 | the search ends, at the first block that is large enough or at pxEnd if there is none |
| HeapMemory.HeapObject.TakeBlock | firmware/librtos/heap_4.c:178-224 | unlinking, splitting, counting and marking give the heap in which that block is allocated |
| HeapMemory.HeapObject.AllocateFrom | firmware/librtos/heap_5.c:132-269 | the allocator on block headers refines the allocation on block lists: same result, same heap, on success and failure |
| HeapMemory.HeapObject.PortMalloc | firmware/librtos/heap_4.c:113-260 | the same for heap_4, including the call that sets the heap up |
| HeapMemory.HeapObject.PortFree | firmware/librtos/heap_4.c:263-308 | the free on block headers refines the free on block lists; NULL and unmarked blocks change nothing |
| HeapMemory.HeapObject.HeapInit | firmware/librtos/heap_4.c:329-373 | the aligned heap array becomes one free block up to pxEnd |
| HeapMemory.HeapObject.AddRegion | firmware/librtos/heap_5.c:407-470 | each round of the loop appends the marker of the last region and the block of the next |
| HeapMemory.HeapObject.DefineHeapRegions | firmware/librtos/heap_5.c:393-478 | the linked list, the counters and the mark are those of the initial heap over all regions |
| BestFitRuns.BestFit | firmware/librtos/heap_2.c:145-156 | a request within bounds succeeds if and only if some free block is large enough, and gets one of the smallest of those |
| BestFitRuns.MallocKept | firmware/librtos/heap_2.c:118-207 | an allocation keeps the list sorted by size, the blocks tiling the heap, and the counter the sum of the free blocks |
| BestFitRuns.FreeKept | firmware/librtos/heap_2.c:210-234 | so does a free |
| BestFitRuns.RunKept | firmware/librtos/heap_2.c:118-234 | over any run the invariant holds and the partition into blocks only gets finer |
| BestFitRuns.CutTiles | firmware/librtos/heap_2.c:169-183 | a split replaces one block by two that tile it and moves no other |
| BestFitRuns.SplitsBounded | firmware/librtos/heap_2.c:167-184 | a run has one block more than splits, and blocks of a header each fit in the heap; without requests that wrap, so do blocks of twice the size, so that there are fewer splits than a sixteenth of the heap size |
| BestFitRuns.RoomUnlessWrapped | firmware/librtos/heap_2.c:134-145 | a block handed out has room for header and request if and only if adding the header to the request did not wrap |
| BestFitRuns.LargestRequest | firmware/librtos/heap_2.c:134-145 | there are such requests: the largest of all gets a block of a new heap that holds its header only |
| BestFitCalls.MallocSucceeds | firmware/librtos/heap_2.c:134-159 | for all sizes of size_t: a request succeeds if and only if it asks, header included, for less than the heap, and some free block holds that; it gets one of the smallest of those; a request whose size wraps asks for a header only |
| BestFitCalls.MallocRefused | firmware/librtos/heap_2.c:132-148 | a request for nothing is refused, and no refused request changes the heap |
| BestFitCalls.MallocGives | firmware/librtos/heap_2.c:134-187 | exactly what is given: the size asked for rounded up to the next multiple of eight if more than sixteen bytes are left over, the whole block otherwise; what is left over is a free block, all others stay |
| BestFitCalls.FreeReturns | firmware/librtos/heap_2.c:210-234 | a free adds just that block to the free ones and its size to the count |
| BestFitCalls.FreeThenMalloc | firmware/librtos/heap_2.c:97-115 | a request for a block of the size just freed gets that very block, and the heap is as it was before the free |
| BestFitCalls.BytesConserved | firmware/librtos/heap_2.c:186-229 | the free count and the bytes of the blocks in use add up to the whole heap |
| BestFitCalls.AllFreed | firmware/librtos/heap_2.c:118-234 | a run that frees all it allocated ends with every byte free, in one block more than it has split |
| BestFitMemory.BestFitHeap.InsertBlockIntoFreeList | firmware/librtos/heap_2.c:97-115 | the linked list gains the block in front of the first that is not smaller |
| BestFitMemory.BestFitHeap.FindBlock | firmware/librtos/heap_2.c:149-156 | the search ends, at the first and so smallest block that is large enough, or at xEnd |
| BestFitMemory.BestFitHeap.AllocateFrom | firmware/librtos/heap_2.c:134-207 | the allocator on block headers refines the allocation on sorted lists, in 32-bit arithmetic |
| BestFitMemory.BestFitHeap.PortMalloc | firmware/librtos/heap_2.c:118-207 | the same, including the call that sets the heap up |
| BestFitMemory.BestFitHeap.PortFree | firmware/librtos/heap_2.c:210-234 | the block returns to the sorted list as it is, and the count grows by its size |
| BestFitMemory.BestFitHeap.HeapInit | firmware/librtos/heap_2.c:249-271 | from the aligned start of the heap array on, everything is one free block between xStart and xEnd |
| StreamSafety.WriterKeepsOff | firmware/librtos/stream_buffer.c:1088-1131 | the slot the writer fills holds no unread byte, and none it has just filled |
| StreamSafety.ReaderKeepsOff | firmware/librtos/stream_buffer.c:1134-1186 | the slot the reader copies has been published, and holds the next byte of what was accepted |
| StreamSafety.StepKept | firmware/librtos/stream_buffer.c:506-814 | every step of either side - index read, byte copy, index publication, putting back a length, notification - keeps the ring consistent, unless a writer is misled |
| StreamSafety.RunKept | firmware/librtos/stream_buffer.c:506-814 | so does every interleaving |
| StreamSafety.DeliveredInOrder | firmware/librtos/stream_buffer.c:1088-1206 | in every interleaving without a misled writer the delivered bytes are a prefix of the accepted ones, and the counts of bytes and spaces are exact and add up to the capacity, but while a length is being put back |
| StreamSafety.SpaceIsLowerBound | firmware/librtos/stream_buffer.c:539-584 | space and byte counts that have gone stale remain lower bounds, even the space carried out of a wait that timed out; in a message buffer, or the space is too little for the message |
| StreamSafety.RoomyRuns | firmware/librtos/stream_buffer.c:539-584 | if every receive buffer holds the next message and lengths are not asked for, no writer is ever misled, and the stale space is a lower bound as it stands |
| StreamFraming.EncodeDecode | firmware/librtos/stream_buffer.c:684-702 | the stored length reads back as what it was |
| StreamFraming.NextFrame | firmware/librtos/stream_buffer.c:684-702 | behind the frames before it, the next one lies in full in any stream that holds all frames sent |
| StreamFraming.WholeMessage | firmware/librtos/stream_buffer.c:792-794 | more stored bytes than a length mean that a whole message is there, although length and payload are published apart |
| StreamFraming.LengthRead | firmware/librtos/stream_buffer.c:817-858 | the length read ahead, to take a message or just to tell its length, is that of the next message to be received, whatever the writer does meanwhile |
| StreamFraming.StepFramed | firmware/librtos/stream_buffer.c:927-964 | every step of either side keeps both ends of the ring on frame boundaries, up to the frame at work, with receive buffers of any size |
| StreamFraming.MessagesInOrder | firmware/librtos/stream_buffer.c:661-964 | in every interleaving without a misled writer the messages received are the first of those sent, whole and in order |
| StreamWakeups.NoMessage | firmware/librtos/stream_buffer.c:742-772 | no more stored bytes than a length mean that the buffer is empty, or the writer is still to notify |
| StreamWakeups.StepSteady | firmware/librtos/stream_buffer.c:57-108 | every step keeps a promise to each sleeper: a notification is pending or on its way, or its condition does not hold |
| StreamWakeups.NobodyOversleeps | firmware/librtos/stream_buffer.c:543-568 | in every interleaving a reader asleep without notification, with the writer not about to notify, has less than the trigger level; a sender asleep, with the reader not about to notify, has less space than it needs |
| StreamLimits.SafeUnlessMisled | firmware/librtos/stream_buffer.c:506-607 | a step of the writer keeps the ring consistent if and only if the writer is not misled by it |
| StreamLimits.MisledOverruns | firmware/librtos/stream_buffer.c:918-964 | a writer that reads the space while a length is being put back, and whose message fits only with that length, goes round the ring: after the send less than a length is stored, and at least two messages are lost |
| StreamLimits.WriterIsMisled | firmware/librtos/stream_buffer.c:918-964 | there is such a run from the beginning, in every ring that can hold a message: a receive finds a message too large while another that fills the ring is sent |
| StreamLimits.MisledExactly | firmware/librtos/stream_buffer.c:817-964 | if and only if the writer is not misled do all runs that follow keep the counts exact; and, in a ring of more than eight bytes, deliver the messages in order |
| StreamLimits.EmptyMessageStrands | firmware/librtos/stream_buffer.c:587-600 | a whole send to a sleeping reader notifies it if and only if the message is not empty; after an empty one it sleeps on with the trigger level reached |
| StreamLimits.EmptyMessageStrandsReader | firmware/librtos/stream_buffer.c:587-600 | a run from the beginning: a reader that waits on a new buffer is left asleep by an empty message, with the trigger level reached and no notification |
| StreamCalls.WaitingSendsAll | firmware/librtos/stream_buffer.c:535-584 | in every run whose sends wait for as long as it takes, the chunks sent are all the data of the calls, whole, each once and in order, but for the call still at it; a sender that goes on has found room for all it has |
| StreamCalls.StreamDelivers | firmware/librtos/stream_buffer.c:506-814 | in a stream buffer what was received, joined, is then the beginning of all that the sends were called with |
| StreamCalls.SendAtOnce | firmware/librtos/stream_buffer.c:570-607 | a send without waiting sends what fits, or a message if it fits whole, and notifies a waiting reader if and only if bytes were sent and the trigger level is reached; otherwise it changes nothing |
| StreamCalls.SenderSleeps | firmware/librtos/stream_buffer.c:543-567 | a waiting send without room for all its data registers itself, clears its notification and sleeps |
| StreamCalls.WokenSender | firmware/librtos/stream_buffer.c:539-568 | once woken it sends all its data if there is room by then, and sleeps again if not |
| StreamCalls.SendTimesOut | firmware/librtos/stream_buffer.c:566-584 | when its time is up it sends what it had last seen room for, looking once more only if it had seen none, and is not registered any more |
| StreamCalls.ReceiveAtOnce | firmware/librtos/stream_buffer.c:774-811 | a receive from a stream takes the oldest bytes, no more than asked for, and notifies a waiting sender if and only if there were any |
| StreamCalls.MessageReceived | firmware/librtos/stream_buffer.c:792-811 | a receive from a message buffer takes the next message that fits, and notifies a waiting sender if and only if it has bytes |
| StreamCalls.ReceiveRefused | firmware/librtos/stream_buffer.c:792-964 | a receive that finds no message, or one that is too large, changes nothing in the end |
| StreamCalls.LengthAsked | firmware/librtos/stream_buffer.c:817-858 | asking for the length of the next message reads just that length and changes nothing in the end, even for an empty one |
| StreamCalls.ReaderSleeps | firmware/librtos/stream_buffer.c:742-771 | a waiting receive with nothing to read registers itself, clears its notification and sleeps |
| StreamCalls.ReaderReads | firmware/librtos/stream_buffer.c:742-794 | with something to read it does not sleep, and goes on as one that does not wait |
| StreamCalls.WokenReader | firmware/librtos/stream_buffer.c:766-811 | woken or timed out, it takes what there is then, or nothing |
| StreamCalls.SleeperServed | firmware/librtos/stream_buffer.c:539-607 | a run from the beginning, in either kind of buffer: a sender falls asleep on a full ring, is notified when the reader has made room, and sends all it has |
| StreamRing.UnrolledAppend | firmware/librtos/stream_buffer.c:1088-1131 | two copies, the second at the start of the ring, append to the stored bytes |
| StreamRing.UnrolledDrop | firmware/librtos/stream_buffer.c:1134-1186 | moving the tail drops the oldest bytes |
| StreamRing.HeadFrame | firmware/librtos/stream_buffer.c:927-964 | a message buffer that holds messages begins with the length and the bytes of the first |
| StreamRing.StreamBuffer.constructor | firmware/librtos/stream_buffer.c:217-277 | a new buffer is empty, has one slot more than asked for, and a trigger level of at least one |
| StreamRing.StreamBuffer.Spaces | firmware/librtos/stream_buffer.c:470-492 | the space is the capacity less the stored bytes |
| StreamRing.StreamBuffer.StoredBytes | firmware/librtos/stream_buffer.c:1189-1206 | the count is that of the stored bytes |
| StreamRing.StreamBuffer.WriteBytes | firmware/librtos/stream_buffer.c:1088-1131 | the bytes are appended to the stored ones |
| StreamRing.StreamBuffer.ReadBytes | firmware/librtos/stream_buffer.c:1134-1186 | the oldest bytes move to the caller, as many as wanted and present |
| StreamRing.StreamBuffer.WriteMessage | firmware/librtos/stream_buffer.c:661-710 | a stream takes what there is room for; a message goes in whole with its length, or not at all |
| StreamRing.StreamBuffer.ReadMessage | firmware/librtos/stream_buffer.c:918-964 | a stream gives what is wanted and was counted; a message comes out whole, or stays as it was if the buffer is too small |
| StreamRing.StreamBuffer.SendFromISR | firmware/librtos/stream_buffer.c:610-658 | the same from an interrupt, with the space there is; the task that waits for data is notified if and only if bytes were sent and the trigger level is reached |
| StreamRing.StreamBuffer.ReceiveFromISR | firmware/librtos/stream_buffer.c:861-915 | the same from an interrupt; a single empty message is not seen; the task that waits for space is notified if and only if bytes were read |
| StreamRing.StreamBuffer.NextMessageLengthBytes | firmware/librtos/stream_buffer.c:817-858 | the length of the oldest message, zero if there is none or a single empty one; nothing changes |
| StreamRing.StepsWrite | firmware/librtos/stream_buffer.c:1088-1131 | the byte steps of one copy, of a length or of bytes, append to the stored bytes just what WriteBytes appends |
| StreamRing.StepsRead | firmware/librtos/stream_buffer.c:1134-1186 | the byte steps of one fetch take from the stored bytes just what ReadBytes takes |
| StreamRing.StepsSend | firmware/librtos/stream_buffer.c:661-710 | all steps of a send, taken one after the other, append the message just as WriteMessage does |
| StreamRing.StepsReceive | firmware/librtos/stream_buffer.c:918-964 | all steps of a receive, taken one after the other, take the first message if it fits and leave it otherwise, just as ReadMessage does |
| ListSpec.StepRotates | firmware/librtos/list.h:277-288 | one step returns the item whose turn it is, and makes it the last in turn |
| ListSpec.RoundRobin | firmware/librtos/list.h:277-288 | n steps on a list of n items return every item exactly once |
| ListSpec.InsertEndVisits | firmware/librtos/list.c:74-100 | an item added at the end comes after all others, but for the one the index rests on |
| ListSpec.RemoveVisits | firmware/librtos/list.c:170-196 | a removal leaves the order of the remaining visits as it was, even that of the indexed item |
| ListSpec.AlwaysRanked | firmware/librtos/list.c:103-196 | a list changed by insertion and removal alone is ascending at all times, and first in, first out among equals |
| ListSpec.HeadIsHighest | firmware/librtos/queue.c:2045-2065 | on an event list the first task has the highest priority and has waited longest, and the priority a mutex holder falls back to is the highest among the waiting, or idle |
| Lists.List.constructor | firmware/librtos/list.c:37-58 | a new list is empty, with the end marker linked to itself |
| Lists.List.FindPlace | firmware/librtos/list.c:117-154 | the search ends, behind all leading items that are not greater, for portMAX_DELAY as well |
| Lists.List.LinkBehind | firmware/librtos/list.c:156-159 | four assignments put a node in place, forward and backward links staying inverse |
| Lists.List.Insert | firmware/librtos/list.c:103-167 | the item is in its place, the others keep their order, the count is exact and the index stays |
| Lists.List.InsertEnd | firmware/librtos/list.c:74-100 | the item goes in just before the one the index rests on |
| Lists.List.Remove | firmware/librtos/list.c:170-196 | exactly that item leaves, an index on it moves back, and the count is returned |
| Lists.List.NextEntry | firmware/librtos/list.h:277-288 | the index moves to the next item, past the end marker, and that item is returned |
| NvramSpec.TableDisjoint | firmware/src/i2c.c:179-215 | the regions lie inside the memory, and an address belongs to a region if and only if the search finds that region |
| NvramCache.RefinesDirect | firmware/src/i2c.c:248-283 | after any accesses each byte is what direct access would show: the last value written, else the byte of the snapshot taken at first use, else what was there |
| NvramCache.FetchedAtMostOnce | firmware/src/i2c.c:248-260 | in one addressing each region used is fetched exactly once, and no other |
| NvramCache.WrittenBackOnce | firmware/src/i2c.c:223-232 | at the end each region with a put callback that was written, or was dirty before, is put exactly once with its present bytes, and nothing else is; nothing stays dirty |
| NvramCache.OnlyRead | firmware/src/i2c.c:248-260 | a region that was not written holds exactly its snapshot, or what it held if it was not used |
| NvramCache.RepeatedStart | firmware/src/i2c.c:217-232 | after a repeated start a region written before is put exactly once, and a byte written before is among those put if and only if no fetch and no later write replaced it by another |
| NvramDevice.RepeatedStartLoses | firmware/src/i2c.c:285-334 | a byte that is written, then read after a repeated start, is lost: the region is fetched twice and put back as it was fetched |
| NvramDevice.Transaction | firmware/src/i2c.c:285-334 | one addressing with its bytes and its end, by a stop or an acknowledge failure: every byte sent is what direct access would have sent for the cell that the bytes on the bus say, every byte kept what it would have left, one fetch for each region used, one put for each region written that has a put callback; the next addressing goes on at the cell where this one ends |
| NvramDevice.Transactions | firmware/src/i2c.c:285-334 | any number of transactions: each is as above on the memory the ones before have left, and the callbacks are called for nothing else |
| NvramDevice.DataOrAddress | firmware/src/i2c.c:301-318 | a received byte is taken for the address if and only if a multiple of 256 came before it |
| NvramDevice.AccessesAsked | firmware/src/i2c.c:301-324 | the handler accesses just the cells that the bytes of a transfer ask for: a cursor is set by the first of each 256 bytes received, and every other byte in either direction is for the cell under it and moves it on by one, round the memory |
| NvramDevice.AskedInOrder | firmware/src/i2c.c:301-324 | up to the 256th byte received, the k-th byte after the base address a, read or written, is for cell (a + k) mod 64 |
| NvramDevice.Follower.CacheInvalidate | firmware/src/i2c.c:217-221 | the flags become invalid and the dirty ones stay |
| NvramDevice.Follower.CacheFlush | firmware/src/i2c.c:223-232 | the dirty regions are put in table order, and are clean then |
| NvramDevice.Follower.FindRegionContaining | firmware/src/i2c.c:234-241 | the region of the address, or none |
| NvramDevice.Follower.NvramGet | firmware/src/i2c.c:248-260 | the byte at base plus offset, once its region is valid |
| NvramDevice.Follower.NvramPut | firmware/src/i2c.c:268-283 | the byte is stored once its region is valid, and the region is dirty if it has a put callback |
| NvramDevice.Follower.EventIsr | firmware/src/i2c.c:285-334 | each interrupt does what the device does on that event, and sends the byte at the address |
| PrintSpec.DigitsReadBack | firmware/libwwg/miniprintf.c:117-199 | the digits of every number read back as the number, with no leading zero |
| PrintSpec.WordDigits | firmware/libwwg/miniprintf.c:117-199 | a 32-bit number has at most ten digits, so that the 40-byte buffer is enough |
| PrintSpec.PaddedNumber | firmware/libwwg/miniprintf.c:40-50 | padding fills to the width and no further with the fill character, leaves the text behind it, and keeps the number if it is zeros |
| PrintMeaning.IntPrinted | firmware/libwwg/miniprintf.c:139-169 | a signed number prints as a minus sign if it is negative, or a plus sign if one is asked for, the fill up to the width, and the only numeral of its magnitude, which a fill of zeros leaves; for all but the least |
| PrintMeaning.WordPrinted | firmware/libwwg/miniprintf.c:117-199 | an unsigned number prints as the fill and its only numeral, in base ten for %u, sixteen for the others, with small letters for %x and %p and, behind one of those, for %X; %p has 0x in front |
| PrintMeaning.TextPrinted | firmware/libwwg/miniprintf.c:201-208 | a string prints whole, with max(0, width - length) fill characters in front of it, or behind it after a minus sign |
| PrintMeaning.CharPrinted | firmware/libwwg/miniprintf.c:66-217 | copied characters print as they are, %c the low eight bits of its argument, %% a percent sign, and a conversion that there is not %? and its letter |
| PrintMeaning.NumeralUnique | firmware/libwwg/miniprintf.c:117-199 | there is only one way to write a number with the digits of a base and case and no leading zero |
| PrintMeaning.PrintsPieces | firmware/libwwg/miniprintf.c:56-220 | a format prints what its items print one after the other; each conversion that takes an argument takes the next, and only the case of hexadecimal digits carries over besides |
| PrintMeaning.ReadsSpelling | firmware/libwwg/miniprintf.c:75-104 | a conversion is read as it is spelt: its sign, zeros or spaces to fill with, the width as the number that its digits spell, an l that makes no difference, and its letter |
| PrintFormats.StaysInside | firmware/libwwg/miniprintf.c:75-104 | the engine runs past the end of a format if and only if the last conversion is a percent sign, perhaps a sign, perhaps digits, and an l |
| PrintFormats.PercentL | firmware/libwwg/miniprintf.c:98-104 | it runs past the end of a percent sign and an l, and not of a word that ends in l |
| PrintFormats.FormatsConcat | firmware/libwwg/miniprintf.c:70-104 | a format can be put in front of any other with the items of both following one another, if and only if it does not end inside a conversion |
| PrintFormats.RunConcat | firmware/libwwg/miniprintf.c:56-220 | then printing the two in one is printing the second after the first, with the arguments and the case left by the first |
| Printer.CookCount | firmware/libwwg/miniprintf.c:232-244 | the cooked text is longer by one character for each line feed |
| Printer.CookUncook | firmware/libwwg/miniprintf.c:232-244 | taking the inserted carriage returns out gives back the text |
| Printer.FormatDigits | firmware/libwwg/miniprintf.c:117-199 | filling the buffer from its end gives the digits, and never leaves the 40 bytes |
| Printer.ReadField | firmware/libwwg/miniprintf.c:75-104 | what is read of a conversion is its fill, sign, width and letter, and the index after it |
| Printer.PrintItem | firmware/libwwg/miniprintf.c:107-215 | each conversion feeds the sink its rendering, and leaves the case it leaves |
| Printer.Sink.Putc | firmware/libwwg/miniprintf.c:232-301 | every sink keeps up with what it was fed: all of it, cooked, or the first maxbuf characters |
| Printer.VPrintf | firmware/libwwg/miniprintf.c:56-220 | one engine prints the same text through every sink |
| Printer.VPrintfToUser | firmware/libwwg/miniprintf.c:250-282 | the user gets the text, cooked if so wanted, and the count is its length |
| Printer.SnPrintf | firmware/libwwg/miniprintf.c:307-327 | the buffer gets the first min(total, maxbuf) characters, that is the result, and a terminator is stored if and only if total < maxbuf; the rest of the buffer is untouched |

## Left out

- QueueWakeups.NoLostWakeUp: runs in which more than 127 posts (for readers) or removals (for senders) are counted in one lock, and for senders runs with a reset; the lemmas of `QueueLimits` say what happens there. Timeouts may come at any time instead of by ticks, a task joins its event list at any position, and tasks are not deleted.
- QueueRing.QueueObject.CopyDataToQueue: what giving back a mutex does to priorities; the holder is modelled, its inherited priority is not.
- QueueRing.QueueObject.SendCritical: overwriting a queue of more than one item, which the source asserts away. The interleaved protocol also leaves out overwriting a semaphore.
- Queues: queue sets, co-routine functions, recursive mutexes, the queue registry, static creation and trace hooks; the 32-bit width of `uxMessagesWaiting`; calls with the scheduler already suspended.
- The scheduler itself (`tasks.c`): ready and delayed lists and the arithmetic of timeouts. Its calls appear as the steps of the protocol that uses them.
- Heaps: memory is the two header fields at each address, so that payload bytes, and programs that overwrite headers, are not modelled; addresses do not wrap at 32 bits; suspending the scheduler and the failure hook have no effect on the heap.
- HeapMemory.HeapObject.PortFree: pointers other than NULL, an allocated block, or one behind an unmarked header, on which the source asserts or reads foreign bytes.
- HeapMemory.HeapObject.DefineHeapRegions: regions that are not ascending, overlap, are too small for a block and its end marker, or reach 2 GiB; the source asserts the order and checks none of the others.
- BestFitMemory.BestFitHeap.PortFree: pointers other than NULL and allocated blocks; `heap_2.c` has no mark by which it could tell a block that was freed before.
- `heap_1.c` and `heap_3.c`: a bump pointer, and a wrapper of the library allocator.
- StreamSafety.DeliveredInOrder: runs with a misled writer, for which `MisledExactly` shows that it fails. Within a copy the bytes go in ascending order.
- StreamFraming.MessagesInOrder: the same runs.
- StreamWakeups.NobodyOversleeps: the same runs, and empty messages, for which `EmptyMessageStrands` shows that it fails. (A build with assertions stops at an empty message.)
- Stream buffers: the reset, changing the trigger level while a task is blocked, static creation.
- StreamCalls.WaitingSendsAll: sends of no bytes to a stream buffer, which leave no trace if it is full.
- Lists.List.Insert: item values stay as they are while linked, as the source demands; `pvOwner` and the integrity check bytes are left out.
- NvramDevice.Follower.EventIsr: the hardware registers are the event it is called for; what the objects behind the regions hold at each fetch is a parameter, and what their put callbacks do with the bytes is not modelled, nor are the BCD conversions in them.
- PrintMeaning.IntPrinted: the least int, whose negation has no value in C.
- Printer.VPrintf: formats in which the engine runs past the end, as `StaysInside` tells them, arguments that are missing or of another type, field widths and counts beyond 32 bits. `longf` is left out, since int and long have the same width here.
- `port.c`, event groups, timers, CAN, real-time clock, key matrix, power and `main.c`: hardware access and wiring with little state to reason about.
