# Core components of the Sony Nicki device tree, modelled and proved

The model covers the stateful components under `device/sony/nicki`. Each is written in the form of the
program, as classes and methods that update their fields, arrays and maps, and is proved against
functions on values. What the program promises is proved about those functions, for all inputs, or
about all runs of a state machine whose steps are the sections that run under a lock.

- **Copy-on-write vectors** (`Slots`, `StableSort`, `VectorMemory`, `VectorImpl`, `VectorRuns`,
  `SortedSeq`, `SortedVectorImpl`). `VectorHeap` holds the buffers by address, each with its reference
  count and its slots, and the two fields of every vector. `Memory.Valid` is the aliasing invariant: a
  buffer exists exactly as long as somebody holds it, its count is the number of its holders, holders
  agree on `mCount`, and exactly the first `mCount` slots hold objects. The functions of `Slots` have the
  lifetime rules as preconditions: constructing needs raw slots, destroying and overwriting need live
  ones, each unless the type's flag makes the operation trivial. Whether the memory a
  call may ask for is there is a parameter, `memory`. `VectorRuns.Run` is the main theorem.
- **Looper** (`MessageQueue`, `LooperProtocol`, `Looper`). The protocol interleaves the polling thread,
  senders, removers and registrations of file descriptors; a sender's `wake()` is a step of its own,
  after the lock is released. Histories record what was sent, delivered, removed, reported, pushed, handled
  and returned. The class holds the loops that these steps stand for, and its methods take the protocol from
  one state to the next.
- **Sensor multi-HAL** (`SensorEventQueue`, `MultiHalHandles`, `MultiHalPoll`, `MultiHalProtocol`). The
  ring buffer and the scan over all of them are classes that refine functions on values; the protocol
  has one writer thread per queue, which fills its region without the mutex, and one poller.
- **Message queue and linked list** (`LinkedList`, `MsgQ`, `MessageQueueProtocol`). The list is a heap of
  elements with `next` and `prev` pointers, proved against the sequence of its items; the
  queue's sections under the mutex are methods on it, and the steps of a protocol with any number of
  senders and receivers, spurious wake-ups included.
- **Adapter table** (`LocApiBase`) and **graphic buffers** (`GraphicBuffer`).

Where the code differs from what its comments or names suggest, the model follows the code:

- `SortedVectorImpl::merge` keeps a boundary key of both vectors twice, and leaves a vector that `add` and
  `remove` are not made for (`MergeExact`, `MergeStrict`, `BoundaryKeptTwice`).
- `_shrink` does not always reduce the capacity: it does for capacities above 4 (`Shrink`,
  `ShrinkReducesCapacity`, `SurprisingInputs`).
- Inserting no items at the end of a full buffer reports NO_MEMORY (`InsertStatusExact`).
- `removeItemsAt` and `resize` report success when `_shrink` found no memory and removed nothing (`RemoveItemsAt`,
  `Resize`).
- `poll` lets meta-data events with an unknown sensor handle through, and drops ones whose `sensor` field
  is -1 (`DroppedExactly`).
- Device and module lists of the multi-HAL are parallel only if every module before an opened one opened too;
  calls for a sensor are routed right, and its events carry its handle, only when that holds up to its
  module (`DevicesParallel`, `HandleRoundTrip`, `Misrouted`). Calls with the handle of an event reach the device it
  came from all the same (`EventAnswered`).
- A message more than 24 days ahead sets no alarm for a caller that waits without limit; the thread then
  sleeps until something wakes it (`AlarmSet`, `SleepsForever`).
- `addAdapter` opens the engine with the new adapter's mask alone, excluded events included;
  `removeAdapter` with the joint mask less the excluded events (`AddAdapter`, `RemoveAdapter`).
- `msg_q_snd` signals a receiver even when the message could not be added (`Send`).
- `unflatten` forgets an owned handle when the counts are too large, and a new one that cannot be
  registered (`Unflatten`).

Files are verified together: `dafny verify dfyconfig.toml`.

## Model

| member | source | states |
|---|---|---|
| VectorRuns.Run | device/sony/nicki/libshims/utils/VectorImpl.cpp:50-514 | Value semantics: after any run of create, copy, assign, insert, replace, remove, resize, setCapacity, sort, editArray and finish calls over any number of vectors that share buffers, every vector reads as the independent sequence `RunEffect` computes, and the aliasing invariant holds; only a call that asked for memory in vain may be without effect. |
| VectorRuns.Perform | device/sony/nicki/libshims/utils/VectorImpl.cpp:50-514 | One call of such a run: the invariant is kept and exactly one vector changes, as an independent sequence would; it takes effect whenever memory is there. |
| VectorMemory.ReleasedValid | device/sony/nicki/libshims/utils/VectorImpl.cpp:364-373 | `release_storage` keeps the aliasing invariant: the count of the buffer drops, or, for the last holder, the items are destroyed and the buffer is freed; every other vector reads as before. |
| VectorMemory.SharedWithValid | device/sony/nicki/libshims/utils/VectorImpl.cpp:50-57 | Acquiring another vector's buffer keeps the invariant: the count equals the number of holders, and all of them agree on `mCount`. |
| VectorMemory.AttachedValid | device/sony/nicki/libshims/utils/VectorImpl.cpp:332-352 | Installing a newly allocated buffer keeps the invariant and changes one vector only. |
| VectorMemory.RewrittenValid | device/sony/nicki/libshims/utils/VectorImpl.cpp:438-443 | A sole owner may rewrite its buffer in place: no other vector changes, and the buffer stays constructed exactly up to `mCount`. |
| VectorMemory.SoleHolder | device/sony/nicki/libshims/utils/VectorImpl.cpp:86-105 | A reference count of one means that no other vector points to the buffer. |
| VectorMemory.HoldersMove | device/sony/nicki/libshims/utils/VectorImpl.cpp:364-373 | Redirecting a vector moves it from one set of holders to another and changes the two numbers of holders by one. |
| Vectors.VectorHeap.CopyConstruct | device/sony/nicki/libshims/utils/VectorImpl.cpp:50-57 | The copy reads as its original, and shares its buffer and count; no other vector changes. |
| Vectors.VectorHeap.Assign | device/sony/nicki/libshims/utils/VectorImpl.cpp:68-84 | The left side reads as the right side did, self-assignment included; its old buffer is released. |
| Vectors.VectorHeap.ReleaseStorage | device/sony/nicki/libshims/utils/VectorImpl.cpp:364-373 | The vector lets go of its buffer: `Released`, which `ReleasedValid` is about. The last holder, and no other, gives the memory back, with no object left in it. |
| Vectors.VectorHeap.Finish | device/sony/nicki/libshims/utils/VectorImpl.cpp:290-295 | The vector is empty afterwards, no other vector changes. |
| Vectors.VectorHeap.EditArrayImpl | device/sony/nicki/libshims/utils/VectorImpl.cpp:86-105 | Afterwards the vector is the sole owner of a buffer with the same items and the same capacity; what every vector reads is unchanged, and a copy is made only when the buffer was shared. |
| Vectors.VectorHeap.EditResize | device/sony/nicki/libshims/utils/VectorImpl.cpp:407-418 | Afterwards the vector is the sole owner of a buffer of the new capacity with the same items, moved or copied; nothing changes without memory. |
| Vectors.VectorHeap.Grow | device/sony/nicki/libshims/utils/VectorImpl.cpp:375-448 | On success the items are intact around a raw gap at `where` in a buffer of which the vector is the sole owner; the capacity and the number of items copied are exact; on failure nothing a reader sees has changed. |
| Vectors.VectorHeap.GrowStorage | device/sony/nicki/libshims/utils/VectorImpl.cpp:395-436 | The growing path of `_grow`: by resizing when appending to trivially copied items, else through a new buffer. |
| Vectors.VectorHeap.OpenGap | device/sony/nicki/libshims/utils/VectorImpl.cpp:437-445 | The in-place path of `_grow`: items from `where` on move up within the buffer. |
| Vectors.GapInNewStorage | device/sony/nicki/libshims/utils/VectorImpl.cpp:419-436 | Constructing both parts in new storage leaves exactly the gap unconstructed; no slot is constructed twice. |
| Vectors.GapByMoving | device/sony/nicki/libshims/utils/VectorImpl.cpp:437-445 | Moving the tail up in place leaves exactly the gap unconstructed, for overlapping ranges too. |
| Vectors.GapFilled | device/sony/nicki/libshims/utils/VectorImpl.cpp:125-159 | Constructing the new items in the gap makes exactly the first `mCount` slots live, holding front, items and tail in that order. |
| Vectors.VectorHeap.InsertArrayAt | device/sony/nicki/libshims/utils/VectorImpl.cpp:125-134 | Status for every argument; on success the items stand at `index`, else nothing changed; other vectors are untouched; at most `mCount` items are copied. |
| Vectors.VectorHeap.InsertAt | device/sony/nicki/libshims/utils/VectorImpl.cpp:146-159 | The same for copies of one item, with the exact new capacity, sole ownership, and the exact number of existing items copied. |
| Vectors.VectorHeap.InsertVectorAt | device/sony/nicki/libshims/utils/VectorImpl.cpp:115-118 | The same for the items of another vector, which may share the buffer that is about to be left or rewritten, or of the vector itself in every case in which its old buffer can still be read (`CanReadItself`). |
| Vectors.VectorHeap.InsertDefaultAt | device/sony/nicki/libshims/utils/VectorImpl.cpp:141-159 | The same for default-constructed items, or for what the memory held when the constructor is trivial, item by item. |
| Vectors.InsertStatusExact | device/sony/nicki/libshims/utils/VectorImpl.cpp:125-159 | Insertion reports BAD_INDEX exactly for an index behind the end, and NO_MEMORY exactly when growing was needed and failed, or when nothing was to be inserted at the end of a full buffer. |
| Vectors.VectorHeap.ReplaceAt | device/sony/nicki/libshims/utils/VectorImpl.cpp:255-276 | A valid index is overwritten in a private copy: other vectors sharing the buffer keep the old item; an index out of range changes nothing. |
| Vectors.VectorHeap.Shrink | device/sony/nicki/libshims/utils/VectorImpl.cpp:450-514 | The range is gone and the rest is in order; it is exactly the reallocating path without memory that leaves everything as it was. The capacity afterwards is exact, and a reallocation has reduced it if and only if it was above 4. |
| Vectors.VectorHeap.ShrinkStorage | device/sony/nicki/libshims/utils/VectorImpl.cpp:464-503 | The reallocating path of `_shrink`: the kept items in a buffer of the new capacity of which the vector is the sole owner. |
| Vectors.VectorHeap.CloseGap | device/sony/nicki/libshims/utils/VectorImpl.cpp:504-513 | The in-place path of `_shrink`: the removed items are destroyed once, the tail moves down, and buffer ownership and capacity stay. |
| Vectors.ShrunkInPlace | device/sony/nicki/libshims/utils/VectorImpl.cpp:504-513 | Destroying the range and moving the tail down leaves exactly the remaining slots live, holding the remaining items. |
| Vectors.ShrunkInNewStorage | device/sony/nicki/libshims/utils/VectorImpl.cpp:486-503 | Copying the parts before and behind the range leaves exactly those slots of the new buffer live. |
| Vectors.ShrinkReducesCapacity | device/sony/nicki/libshims/utils/VectorImpl.cpp:464-475 | The comment "always reducing the capacity" is true of the capacity that `_shrink` leaves exactly for capacities above 4; the items that stay always fit. |
| Vectors.ShrinkExact | device/sony/nicki/libshims/utils/VectorImpl.cpp:464-475 | A buffer stays exactly while more than half of it (less one slot) is in use; then it takes no memory to remove items. Otherwise the new capacity is twice the number of items, or 4. |
| Vectors.GrownCapacityExact | device/sony/nicki/libshims/utils/VectorImpl.cpp:395-400 | Growing leaves room for half as many items again, and 4 at least. |
| Vectors.ResizedItems | device/sony/nicki/libshims/utils/VectorImpl.cpp:354-362 | A resized vector keeps its first items in their places. |
| Vectors.SurprisingInputs | device/sony/nicki/libshims/utils/VectorImpl.cpp:125-514 | Inputs: a reallocation that keeps the capacity of 4, a removal given up for want of memory, and an insertion of nothing that reports NO_MEMORY. |
| Vectors.VectorHeap.RemoveItemsAt | device/sony/nicki/libshims/utils/VectorImpl.cpp:278-288 | A range that fits is removed, unless shrinking ran out of memory, which the result does not tell; the capacity afterwards is exact. |
| Vectors.VectorHeap.SetCapacity | device/sony/nicki/libshims/utils/VectorImpl.cpp:332-352 | Contents stay; the capacity is what was asked for when that exceeds the number of items, else unchanged. |
| Vectors.VectorHeap.Resize | device/sony/nicki/libshims/utils/VectorImpl.cpp:354-362 | Afterwards the vector has `size` items: item k is the old item k, or a default-constructed one behind the old ones; the failures of insertion and removal are exact. |
| Vectors.AppendCostBound | device/sony/nicki/libshims/utils/VectorImpl.cpp:384-400 | Amortised growth: n appends to an empty vector copy at most 3n items under the 3/2 + 1 policy. |
| Vectors.VectorHeap.AppendAll | device/sony/nicki/libshims/utils/VectorImpl.cpp:235-248 | n pushes onto an empty vector, whatever buffer it still holds, leave its n items in order and copy at most 3n existing items in all, as counted at each copy and reallocation. |
| Vectors.VectorHeap.Sort | device/sony/nicki/libshims/utils/VectorImpl.cpp:171-222 | The vector reads as the stable insertion sort of its items, or is unchanged when the temporary item could not be allocated, which happens exactly when something is out of order and there is no memory; other vectors keep their order; the temporary slot is constructed and destroyed in step, and given back exactly when it was used. |
| Vectors.InsertIntoPrefix | device/sony/nicki/libshims/utils/VectorImpl.cpp:171-222 | The inner loop on the slots: never constructs over a live slot nor destroys a raw one, and ends with the item inserted behind its equals. |
| Vectors.SortTurn | device/sony/nicki/libshims/utils/VectorImpl.cpp:171-222 | One turn of the outer loop extends the sorted prefix by one item. |
| StableSort.InsertionSortStable | device/sony/nicki/libshims/utils/VectorImpl.cpp:171-222 | Insertion sort is ordered and keeps, for every key, the equal items in their original order. |
| StableSort.StablySortedUnique | device/sony/nicki/libshims/utils/VectorImpl.cpp:171-222 | Order and stability determine the result: no other sequence is a stable sort of the input. |
| StableSort.InsertionSortPermutes | device/sony/nicki/libshims/utils/VectorImpl.cpp:171-222 | The result is a permutation of the input. |
| StableSort.InsertRightStable | device/sony/nicki/libshims/utils/VectorImpl.cpp:171-222 | Inserting an item to the right of its equals keeps order and stability. |
| StableSort.NothingToSort | device/sony/nicki/libshims/utils/VectorImpl.cpp:171-222 | A vector without an inversion is left alone: sorting it is the identity. |
| StableSort.ChangedWhenInverted | device/sony/nicki/libshims/utils/VectorImpl.cpp:171-222 | Sorting changes a vector if and only if some item is greater than its successor. |
| SortedVectors.IndexOrderOf | device/sony/nicki/libshims/utils/VectorImpl.cpp:597-621 | Binary search: the index of the item that compares equal, or -1 and the one place where the item belongs. |
| SortedVectors.Add | device/sony/nicki/libshims/utils/VectorImpl.cpp:623-633 | `add` inserts the item or replaces its equal, as `Added` says, and returns the index at which it now is; nothing changes without memory. |
| SortedVectors.Remove | device/sony/nicki/libshims/utils/VectorImpl.cpp:670-677 | `remove` takes out the item that compares equal, as `Removed` says, and returns the index at which it was, or -1 if there was none. |
| SortedVectors.MergeNaive | device/sony/nicki/libshims/utils/VectorImpl.cpp:635-650 | The element-by-element merge adds every item of the other vector; a vector merged into itself stays as it is. |
| SortedVectors.Merge | device/sony/nicki/libshims/utils/VectorImpl.cpp:652-668 | `merge` into a vector with items: one insertion when the ranges do not overlap, else the element-by-element merge; without memory it stops with the items merged so far. |
| SortedSeq.AddedStrict | device/sony/nicki/libshims/utils/VectorImpl.cpp:623-633 | `add` keeps strict order. |
| SortedSeq.LookupAdded | device/sony/nicki/libshims/utils/VectorImpl.cpp:623-633 | `add` is a map update: the added key gives the added item, every other key what it gave before. |
| SortedSeq.RemovedStrict | device/sony/nicki/libshims/utils/VectorImpl.cpp:670-677 | `remove` keeps strict order. |
| SortedSeq.LookupRemoved | device/sony/nicki/libshims/utils/VectorImpl.cpp:670-677 | `remove` is a map removal: the key is gone, every other key gives what it gave before. |
| SortedSeq.AddedAt | device/sony/nicki/libshims/utils/VectorImpl.cpp:623-633 | Inserting at the place found by the search, or replacing there, is adding. |
| SortedSeq.LookupExtensional | device/sony/nicki/libshims/utils/VectorImpl.cpp:597-621 | Two strictly ordered vectors that answer every lookup alike are equal: the vector is the map. |
| SortedSeq.LookupAddedAll | device/sony/nicki/libshims/utils/VectorImpl.cpp:635-650 | The element-by-element merge is a map union in which the merged-in vector wins. |
| SortedSeq.ApartMerge | device/sony/nicki/libshims/utils/VectorImpl.cpp:652-668 | When the key ranges are strictly separated, joining the vectors equals merging them item by item. |
| SortedSeq.MergeExact | device/sony/nicki/libshims/utils/VectorImpl.cpp:652-668 | The shortcut agrees with the element-by-element merge if and only if no boundary key is shared. |
| SortedSeq.MergeStrict | device/sony/nicki/libshims/utils/VectorImpl.cpp:652-668 | The result of `merge` is strictly ordered, so that `add`, `remove` and `merge` may follow, if and only if no boundary key is shared; with a shared one, two neighbours compare equal. |
| SortedSeq.BoundaryKeptTwice | device/sony/nicki/libshims/utils/VectorImpl.cpp:658-661 | An input: merging [2, 3] into [1, 2] gives [1, 2, 2, 3]. |
| SortedSeq.MergeKeepsKeys | device/sony/nicki/libshims/utils/VectorImpl.cpp:652-668 | In every case `merge` leaves an ordered vector with exactly the keys of both. |
| LooperProtocol.NoLostWakeUp | device/sony/nicki/libshims/utils/Looper.cpp:200-223 | In every interleaving, whenever the thread is outside the locked part of pollInner or asleep, the queue is empty, or the alarm is no later than its head, or a byte is in the pipe, or a sender still owes a wake(). |
| LooperProtocol.SleepsNoLonger | device/sony/nicki/libshims/utils/Looper.cpp:200-223 | Asleep with a message waiting and no wake-up on its way, the thread sleeps no longer than its caller asked for, and has an alarm less than a millisecond after the head's time (or after the time of going to sleep, if that is later), provided that the head is at most 2147483646 milliseconds away. |
| LooperProtocol.AlarmSet | device/sony/nicki/libshims/utils/Looper.cpp:200-212 | A thread asked to sleep without limit has an alarm if and only if mNextMessageUptime is set and at most 2147483646 milliseconds away; an alarm other than the caller's own limit is for the time of a message that was sent, shorter than that limit, and never early. |
| LooperProtocol.SleepsForever | device/sony/nicki/libshims/utils/Looper.cpp:200-212 | A run that ends asleep without an alarm while a message, 25 days ahead, waits. |
| LooperProtocol.DeliversTheFirst | device/sony/nicki/libshims/utils/Looper.cpp:282-313 | In every run a turn of the delivery loop hands a message over exactly when one is due, and then the one that comes before all others by time, then by arrival; otherwise the alarm is set for the head, or for never. |
| LooperProtocol.DueIsDelivered | device/sony/nicki/libshims/utils/Looper.cpp:280-316 | In every run, whenever the thread is outside the locked part of pollInner or asleep, no message is left that was due when it last looked, unless a wake-up is in the pipe or owed; and it has looked since epoll_wait last returned. |
| LooperProtocol.PollAnswers | device/sony/nicki/libshims/utils/Looper.cpp:159-193 | Every pollOnce returns once: a non-negative ident of a response, or POLL_CALLBACK exactly if a handler or callback ran, or else POLL_WAKE, POLL_TIMEOUT or POLL_ERROR as epoll_wait ended. |
| LooperProtocol.CallbackUnregisters | device/sony/nicki/libshims/utils/Looper.cpp:319-338 | A callback that returns 0 takes its own request with it, and no other does. |
| LooperProtocol.EventBitsExactly | device/sony/nicki/libshims/utils/Looper.cpp:266-271 | The four bits of a response's events are those of the epoll event. |
| LooperProtocol.MessagesConserved | device/sony/nicki/libshims/utils/Looper.cpp:282-313 | Sent = delivered + removed + waiting, as multisets, over every run, sends from handlers included; no message is delivered before its time. |
| LooperProtocol.ResponsesExactlyOnce | device/sony/nicki/libshims/utils/Looper.cpp:159-193 | Before every sleep each event that epoll_wait reported has been dealt with, once and in order; each one on a registered fd has pushed one response with the request of that fd; and each of these responses, none excepted, has been handled by its callback or returned by one pollOnce, and not both, once and in order. A pollOnce calls pollInner at most once. |
| LooperProtocol.InvStep | device/sony/nicki/libshims/utils/Looper.cpp:195-340 | Every step of the polling thread, a sender, a remover or a caller of addFd and removeFd keeps the whole invariant. |
| LooperProtocol.QueueStep | device/sony/nicki/libshims/utils/Looper.cpp:500-567 | Every step keeps the queue sorted by time with first-come ties, and the account of messages. |
| LooperProtocol.WakeStep | device/sony/nicki/libshims/utils/Looper.cpp:500-532 | Every step keeps the wake-up covered, the skipped wake() while a handler runs included. |
| LooperProtocol.ResponseStep | device/sony/nicki/libshims/utils/Looper.cpp:159-193 | Every step keeps the account of responses: pushed = returned + waiting to be returned, and likewise for callbacks. |
| LooperProtocol.EventStep | device/sony/nicki/libshims/utils/Looper.cpp:255-278 | Every step keeps the account of events: reported = dealt with, then still to be dealt with; pushed = the responses these ask for. |
| LooperProtocol.RequestStep | device/sony/nicki/libshims/utils/Looper.cpp:255-278 | Every step keeps requests under their own fds, so that an event meets the request of its fd. |
| LooperProtocol.IdentStep | device/sony/nicki/libshims/utils/Looper.cpp:408-464 | Every step keeps what addFd checks: whatever is registered or pushed has an ident to return or a callback to invoke. |
| LooperProtocol.ProperSplit | device/sony/nicki/libshims/utils/Looper.cpp:159-193 | So the responses to be returned and those to be handled make up all responses. |
| LooperProtocol.PollStep | device/sony/nicki/libshims/utils/Looper.cpp:159-193 | Every step keeps at one the number of pollInner calls in a pollOnce. |
| MessageQueue.InsertedTimed | device/sony/nicki/libshims/utils/Looper.cpp:507-517 | Insertion behind all messages not later adds that one message, keeps the queue sorted by (time, arrival), and displaces the head exactly when the message is earlier. |
| MessageQueue.InsertedArrivals | device/sony/nicki/libshims/utils/Looper.cpp:507-517 | A message sent last has the highest arrival number in the queue. |
| MessageQueue.KeptTimed | device/sony/nicki/libshims/utils/Looper.cpp:534-567 | Removal keeps the order of the messages that stay. |
| MessageQueue.KeptMember | device/sony/nicki/libshims/utils/Looper.cpp:534-567 | A message stays exactly when it was there and is of another handler, or of another `what` if one is given. |
| MessageQueue.KeptMultiset | device/sony/nicki/libshims/utils/Looper.cpp:534-567 | Messages that stay and messages that match make up the queue. |
| MessageQueue.KeptHead | device/sony/nicki/libshims/utils/Looper.cpp:534-567 | Removal never brings the head forward, so the alarm stays early enough. |
| Loopers.Looper.Enqueue | device/sony/nicki/libshims/utils/Looper.cpp:507-527 | The loop of sendMessageAtTime inserts at the one right place, and asks for a wake-up exactly for a new head while no message is being sent. |
| Loopers.Looper.SendMessageAtTime | device/sony/nicki/libshims/utils/Looper.cpp:500-532 | The whole of sendMessageAtTime: insertion, then a byte in the pipe when one is due; it is the protocol's sending step, followed by its wake() exactly when that is owed. |
| Loopers.Looper.RemoveMessages | device/sony/nicki/libshims/utils/Looper.cpp:534-567 | The backward removal loop leaves exactly the messages that do not match, in order, as in the protocol's step. |
| Loopers.Looper.Awoken | device/sony/nicki/libshims/utils/Looper.cpp:385-395 | The read loop empties the pipe. |
| Loopers.Looper.HandleEvents | device/sony/nicki/libshims/utils/Looper.cpp:255-278 | The event loop pushes one response for each event on a registered fd, in order, and empties the pipe exactly when its input was reported. |
| Loopers.DrainedIsHandleEvents | device/sony/nicki/libshims/utils/Looper.cpp:255-278 | That loop does what the protocol's steps from the end of epoll_wait do. |
| Loopers.Looper.NextIdent | device/sony/nicki/libshims/utils/Looper.cpp:162-179 | pollOnce returns the next response with an ident and skips the ones handled by callbacks. |
| Loopers.Looper.AddFd | device/sony/nicki/libshims/utils/Looper.cpp:408-464 | Exactly the valid registrations succeed, with the caller's ident or POLL_CALLBACK, as in the protocol's step. |
| Loopers.Looper.RemoveFd | device/sony/nicki/libshims/utils/Looper.cpp:466-487 | The request goes exactly when it was there and epoll_ctl succeeded, as in the protocol's step. |
| SensorEventQueues.SensorEventQueue.GetWritableRegion | device/sony/nicki/sensors/SensorEventQueue.cpp:39-59 | The region handed out lies inside the array, holds only unused slots, and starts behind the newest event; there is none when the queue is full; it is as long as it can be. |
| SensorEventQueues.SensorEventQueue.Dequeue | device/sony/nicki/sensors/SensorEventQueue.cpp:74-81 | The oldest event goes, and a writer is woken exactly when the queue was full. |
| SensorEventQueues.SensorEventQueue.Peek | device/sony/nicki/sensors/SensorEventQueue.cpp:69-72 | The oldest event, if there is one. |
| SensorEventQueues.SensorEventQueue.MarkAsWritten | device/sony/nicki/sensors/SensorEventQueue.cpp:61-63 | The size grows by the number of events written; `MarkedContents` says what that means. |
| SensorEventQueues.SensorEventQueue.GetSize | device/sony/nicki/sensors/SensorEventQueue.cpp:65-67 | The number of events that can be read. |
| SensorEventQueues.HeldUnreadable | device/sony/nicki/sensors/SensorEventQueue.cpp:39-59 | No slot of a region handed out is readable. |
| SensorEventQueues.HeldAfterDequeue | device/sony/nicki/sensors/SensorEventQueue.cpp:74-81 | Dequeuing leaves a region handed out still the writer's, so it does after any number of them. |
| SensorEventQueues.DequeuedContents | device/sony/nicki/sensors/SensorEventQueue.cpp:74-81 | Dequeuing takes the first event of the queue and keeps the rest in order. |
| SensorEventQueues.StoredUnread | device/sony/nicki/sensors/SensorEventQueue.cpp:39-59 | Writing into the region changes nothing a reader sees. |
| SensorEventQueues.MarkedContents | device/sony/nicki/sensors/SensorEventQueue.cpp:61-63 | Marking appends exactly the first events of the region to the queue, in order, across the wrap-around. |
| MultiHalProtocol.NoStuckThreads | device/sony/nicki/sensors/multihal.cpp:142-179 | In every run, with writers woken only by the broadcast of `dequeue`: a poller that waits unsignalled has only empty queues, a writer that does has a full one, and there is never one of each. |
| MultiHalPoll.FullQueueSignals | device/sony/nicki/sensors/SensorEventQueue.cpp:74-81 | The guard of that broadcast is good enough: no scan takes an event out of a full queue without signalling its writer. |
| MultiHalProtocol.RoundRobin | device/sony/nicki/sensors/multihal.cpp:345-363 | In every run, however many calls of `poll` it takes: between two visits to a queue every other queue is visited exactly once. |
| MultiHalProtocol.UnlockedWriterSafe | device/sony/nicki/sensors/multihal.cpp:142-179 | While a device fills its region without the mutex, whatever the poller does, no slot of the region is readable, and all are inside the array. |
| MultiHalProtocol.EventsInOrder | device/sony/nicki/sensors/multihal.cpp:337-377 | For every queue: marked as written = taken by poll, then still inside, in order; and poll returned exactly the taken events that are not dropped, remapped, in order. |
| MultiHalProtocol.PollAnswers | device/sony/nicki/sensors/multihal.cpp:343-376 | Every call of `poll` that has returned has returned at least one event and at most maxReads, in turn, and together they have returned what was delivered; the one other call, if any, waits. |
| MultiHalProtocol.ReturnMarks | device/sony/nicki/sensors/multihal.cpp:159-175 | When a device returns, exactly the events it reports join its queue, and no other queue changes. |
| MultiHalProtocol.StoreWrites | device/sony/nicki/sensors/multihal.cpp:156-160 | What a device stores goes into the next slot of its region, and nothing else changes. |
| MultiHalProtocol.LockAnswers | device/sony/nicki/sensors/multihal.cpp:150-156 | A writer waits exactly when its queue is full, and otherwise gets the region behind the events. |
| MultiHalProtocol.InvStep | device/sony/nicki/sensors/multihal.cpp:142-179 | Every step of a writer or the poller keeps the invariant behind these. |
| MultiHalProtocol.ScanKeepsRegion | device/sony/nicki/sensors/multihal.cpp:337-377 | A whole scan leaves every region handed out unreadable and its contents as they were. |
| MultiHalPoll.ScanConserves | device/sony/nicki/sensors/multihal.cpp:345-363 | Nothing is lost or invented in a scan: what a queue held is what was taken from it, then what it holds. |
| MultiHalPoll.ScanDelivers | device/sony/nicki/sensors/multihal.cpp:345-363 | The caller gets the events taken that are not dropped, in that order, and no more than asked for. |
| MultiHalPoll.ScanExhausts | device/sony/nicki/sensors/multihal.cpp:345-363 | The scan stops short of maxReads only when every queue is empty. |
| MultiHalPoll.TurnShrinks | device/sony/nicki/sensors/multihal.cpp:345-363 | Every turn takes an event, or counts one more empty queue: the scan terminates. |
| MultiHalPoll.ScanInTurn | device/sony/nicki/sensors/multihal.cpp:345-363 | The scan looks at the queues cyclically, starting where the last one stopped. |
| MultiHalPoll.OncePerRound | device/sony/nicki/sensors/multihal.cpp:345-363 | Visits that go round all queues visit every other queue exactly once between two visits to one. |
| MultiHalPoll.InTurnConcat | device/sony/nicki/sensors/multihal.cpp:347-362 | Visits of a later poll go on where those of the earlier ones stopped. |
| MultiHalPoll.DroppedExactly | device/sony/nicki/sensors/multihal.cpp:315-335 | Which events are dropped: those without a global handle, except that a meta-data event is judged by the field that was not rewritten, so that bad handles pass exactly there. |
| MultiHalPoll.RemappedExactly | device/sony/nicki/sensors/multihal.cpp:315-335 | A delivered event, or the subject of a meta-data event, carries the handle of the last sensor listed with its local handle in the module of the queue's number; calls with that handle reach the device the event came from; all its other fields are as the device wrote them. |
| MultiHalPoll.BadHandlePasses | device/sony/nicki/sensors/multihal.cpp:315-335 | Inputs: a meta-data event with an unknown handle that passes, and one with a known handle that is dropped. |
| MultiHalPoll.PollContext.ScanQueues | device/sony/nicki/sensors/multihal.cpp:345-363 | The loop over the real ring buffers and the caller's array is the scan these lemmas are about. |
| MultiHalPoll.PollContext.Look | device/sony/nicki/sensors/multihal.cpp:347-362 | One turn of that loop is one turn of the scan. |
| MultiHalHandles.HandleRoundTrip | device/sony/nicki/sensors/multihal.cpp:286-356 | For each list entry: the events that its module's queue delivers carry its handle if and only if its module and all modules before it were opened and its module does not list its local handle again behind it; and calls with its handle reach its own device and local handle if and only if that is no error code and, again, its module and all modules before it were opened. |
| MultiHalHandles.EventAnswered | device/sony/nicki/sensors/multihal.cpp:220-356 | Whatever was opened: calls with the handle of a delivered event reach the very device and local handle it came from, if and only if the sensor list has a sensor with the queue's number as its module and that local handle, and the local handle is no error code. |
| MultiHalHandles.RouteExactly | device/sony/nicki/sensors/multihal.cpp:237-299 | For every handle: the device and local handle that calls go to, and that they go nowhere otherwise. |
| MultiHalHandles.Misrouted | device/sony/nicki/sensors/multihal.cpp:220-356 | Inputs on which the round trip fails: with the first of two modules not opened, calls for its sensor reach the second module's device, that module's own calls reach none, and its events carry no handle or the first module's; and with both opened, a handle listed twice loses its first entry's events. |
| MultiHalHandles.DevicesParallel | device/sony/nicki/sensors/multihal.cpp:784-797 | The device list is parallel to the module list if and only if no module that opened comes behind one that did not. |
| MultiHalHandles.OpenedAt | device/sony/nicki/sensors/multihal.cpp:784-797 | A module's device stands at the module's place if and only if all modules up to it were opened. |
| MultiHalHandles.OpenedExactly | device/sony/nicki/sensors/multihal.cpp:784-797 | The device list holds exactly the modules that opened, in the order of the module list. |
| MultiHalHandles.MapsInverse | device/sony/nicki/sensors/multihal.cpp:87-133 | The two handle maps are inverse to each other if and only if no module lists a local handle twice. |
| MultiHalHandles.LocalRoundTrip | device/sony/nicki/sensors/multihal.cpp:87-133 | From a pair of module and local handle to a global handle and back, always. |
| MultiHalHandles.GlobalHandles | device/sony/nicki/sensors/multihal.cpp:91-99 | Global handles are 1 to n, handle i + 1 for the i-th sensor listed. |
| MultiHalHandles.LocalHandles | device/sony/nicki/sensors/multihal.cpp:124-133 | A pair listed more than once stands for the last sensor that has it. |
| MultiHalHandles.HandleMaps.AssignGlobalHandle | device/sony/nicki/sensors/multihal.cpp:91-99 | The handle given out is a new one; it and the sensor stand for each other afterwards, and handles given out before keep their sensors. |
| MultiHalHandles.HandleMaps.ListSensors | device/sony/nicki/sensors/multihal.cpp:672-716 | The loops over all modules' lists build the maps of the flattened list, and a list whose entries are the sensors with global handles. |
| MultiHalHandles.SensorListed | device/sony/nicki/sensors/multihal.cpp:672-716 | Sensor k of module m is the list entry behind those of all modules before it and of k sensors of its own; entry p has handle p + 1, is otherwise what the module lists, and its handle stands for the module and the module's own handle. |
| MultiHalHandles.HandleMaps.Activate | device/sony/nicki/sensors/multihal.cpp:286-299 | A call is routed as `Route` says, unknown handles and unopened modules being errors. |
| MultiHalHandles.BatchPeriod | device/sony/nicki/sensors/multihal.cpp:408-420 | The search and the clamp arrive at the clamped period of the sensor that has the handle. |
| MultiHalHandles.ClampedPeriodInRange | device/sony/nicki/sensors/multihal.cpp:408-420 | The clamped period respects both limits when they are consistent, is the period itself when that lies within them, and never turns a rate into none. |
| MultiHalHandles.ClampedPeriodNearest | device/sony/nicki/sensors/multihal.cpp:408-420 | If there is a period within the limits, the clamped one is within them and as near to the one asked for as any. |
| MultiHalHandles.ClampedPeriodContradictory | device/sony/nicki/sensors/multihal.cpp:408-420 | Which limit wins when they contradict each other. |
| LinkedLists.Add | device/sony/nicki/gps/utils/linked_list.c:110-155 | The new element is the head of the list; every error leaves the list as it was. |
| LinkedLists.Remove | device/sony/nicki/gps/utils/linked_list.c:162-204 | The oldest element goes and its data is returned; every error leaves the list as it was. |
| LinkedLists.Flush | device/sony/nicki/gps/utils/linked_list.c:230-260 | The list is empty, and exactly the elements with a dealloc function were given to it, once each. |
| LinkedLists.DisposedExactly | device/sony/nicki/gps/utils/linked_list.c:230-260 | An element is passed to its dealloc function as often as it is thrown away if it has one, and else never. |
| LinkedLists.FreeElements | device/sony/nicki/gps/utils/linked_list.c:230-260 | The loop frees every element once, never one already freed. |
| LinkedLists.Search | device/sony/nicki/gps/utils/linked_list.c:267-327 | The newest match is found and, if asked, removed; its dealloc function is called exactly when its data is not handed back. |
| LinkedLists.Find | device/sony/nicki/gps/utils/linked_list.c:285-297 | The loop stops at the first match from the head. |
| LinkedLists.Empty | device/sony/nicki/gps/utils/linked_list.c:211-223 | Whether the list is empty, or the error code of a null list. |
| LinkedLists.ListState.ReplaceHead | device/sony/nicki/gps/utils/linked_list.c:139-152 | Linking a new head keeps head, tail, next and prev consistent. |
| LinkedLists.ListState.ReplaceTail | device/sony/nicki/gps/utils/linked_list.c:183-201 | Unlinking the tail keeps them consistent. |
| LinkedLists.ListState.Unlink | device/sony/nicki/gps/utils/linked_list.c:298-317 | Unlinking an element anywhere keeps them consistent. |
| LinkedLists.ListState.Acyclic | device/sony/nicki/gps/utils/linked_list.c:110-155 | Consistent links visit no element twice. |
| LinkedLists.LinksConcat | device/sony/nicki/gps/utils/linked_list.c:110-155 | Two chains joined at their ends are one chain, and conversely. |
| MessageQueueProtocol.MessagesInOrder | device/sony/nicki/gps/utils/msg_q.c:185-299 | In every run of many senders, receivers and flushes: messages leave in sending order, received ones are those not flushed, in order, each leaves once, and exactly the flushed ones with a dealloc function were given to it. |
| MessageQueueProtocol.MessagesConserved | device/sony/nicki/gps/utils/msg_q.c:185-299 | Counted, in every run: sent = received + flushed + still queued. |
| MessageQueueProtocol.DestroyedIsEmpty | device/sony/nicki/gps/utils/msg_q.c:158-178 | A destroyed queue holds nothing; what it held was flushed. |
| MessageQueueProtocol.NoReceiverForgotten | device/sony/nicki/gps/utils/msg_q.c:228-269 | In every run, while a receiver sleeps unsignalled there are at least as many woken receivers as messages, and nobody sleeps on an unblocked queue. |
| MessageQueueProtocol.UnblockedStays | device/sony/nicki/gps/utils/msg_q.c:306-336 | After unblock nothing is sent successfully and nobody waits, whatever follows. |
| MessageQueueProtocol.HistoryStep | device/sony/nicki/gps/utils/msg_q.c:185-299 | Every step keeps the account of messages. |
| MessageQueueProtocol.ThreadsStep | device/sony/nicki/gps/utils/msg_q.c:185-336 | Every step keeps the relation of waiting and woken receivers to the messages. |
| MsgQs.Send | device/sony/nicki/gps/utils/msg_q.c:185-221 | Every result code; on success the message is the newest; the signal is sent even when the list had no memory; in all cases it is the protocol's step, in which a message counts as sent exactly on success. |
| MsgQs.Receive | device/sony/nicki/gps/utils/msg_q.c:228-269 | Every result code; the oldest message, or waiting; it is the protocol's step, in which the thread waits, or receives that message, exactly when the call does. |
| MsgQs.Resume | device/sony/nicki/gps/utils/msg_q.c:254-269 | The same for a receiver that was woken, rightly or not. |
| MsgQs.Retest | device/sony/nicki/gps/utils/msg_q.c:254-269 | What a receiver finds when it tests the wait condition, first or again: a message, an unblocked queue, or reason to wait. |
| MsgQs.FlushQueue | device/sony/nicki/gps/utils/msg_q.c:276-299 | The queue is empty, and its messages with a dealloc function were given to it, as in the protocol's step. |
| MsgQs.Unblock | device/sony/nicki/gps/utils/msg_q.c:306-336 | The queue is unblocked with its messages in place; only the first call succeeds, and wakes everybody, as in the protocol's step. |
| LocApis.Run | device/sony/nicki/gps/core/LocApiBase.cpp:156-202 | Over any run of additions and removals the used slots are a duplicate-free prefix holding exactly the registered adapters, additions to a full table being dropped; and the messages posted are, in order, the mask of each adapter added, the joint mask of those left after each removal less the excluded events, and a close when none is left. |
| LocApis.LocApiBase.AddAdapter | device/sony/nicki/gps/core/LocApiBase.cpp:156-166 | A new adapter takes the first free slot, and the engine is asked to open with its mask; a known one, or one without a slot, has no effect. |
| LocApis.LocApiBase.RemoveAdapter | device/sony/nicki/gps/core/LocApiBase.cpp:168-202 | The adapter goes and the table stays compact; the engine is asked to open with the joint mask of the others less the excluded events, or to close when none is left; an unknown adapter has no effect. |
| LocApis.LocApiBase.GetEvtMask | device/sony/nicki/gps/core/LocApiBase.cpp:134-141 | The joint mask of the table less the excluded events. |
| LocApis.AllMasksBits | device/sony/nicki/gps/core/LocApiBase.cpp:134-141 | An event is in the joint mask exactly when some adapter wants it. |
| LocApis.WithLastMembers | device/sony/nicki/gps/core/LocApiBase.cpp:168-202 | Moving the last adapter into the vacated slot removes exactly that adapter, and leaves no duplicates. |
| GraphicBuffers.Transfer | device/sony/nicki/libshims/ui/GraphicBuffer.cpp:221-332 | Round trip: flatten succeeds exactly when there is room; unflatten into another object then succeeds exactly below the limits on fds and ints, and restores geometry, format, usage, fds and ints exactly when the handle has an fd or an int or nothing is set, all zero without a handle; both reduce size and count alike. |
| GraphicBuffers.RoundTrip | device/sony/nicki/libshims/ui/GraphicBuffer.cpp:213-332 | What flatten writes is accepted exactly when the handle has fewer than 4096 fds and 4086 ints, and is read as the same buffer exactly when the handle has an fd or an int, or nothing is set. |
| GraphicBuffers.GeometryLost | device/sony/nicki/libshims/ui/GraphicBuffer.cpp:290-311 | An input that is read back as another buffer: geometry without a handle. |
| GraphicBuffers.StatusExactly | device/sony/nicki/libshims/ui/GraphicBuffer.cpp:257-284 | The status for every buffer, size and count, from the words themselves. |
| GraphicBuffers.Layout | device/sony/nicki/libshims/ui/GraphicBuffer.cpp:228-240 | Which word of a flattened buffer holds what, for the writer and for the reader. |
| GraphicBuffers.GraphicBuffer.Flatten | device/sony/nicki/libshims/ui/GraphicBuffer.cpp:221-255 | Enough room: the words and fds are written, and nothing behind them; not enough: NO_MEMORY and nothing written. |
| GraphicBuffers.GraphicBuffer.Unflatten | device/sony/nicki/libshims/ui/GraphicBuffer.cpp:257-332 | The status for every input, the resulting fields, and the account of handles by kind: every handle ever taken over is held, was given back once and in the way right for its owner, or was lost; the old one is closed if unflatten created it and freed if the allocator gave it out; it is lost exactly when the counts are too large, a new one exactly when it fails to register. |
| GraphicBuffers.GraphicBuffer.Adopt | device/sony/nicki/libshims/ui/GraphicBuffer.cpp:286-324 | The part behind the checks: the old handle is given back once, the new one holds the fds and ints of the buffer, and every failure leaves all fields zero. |
| GraphicBuffers.GraphicBuffer.FreeHandle | device/sony/nicki/libshims/ui/GraphicBuffer.cpp:98-110 | A handle of unflatten's is unregistered, closed and deleted; one of the allocator's is freed by it; one of nobody's is left alone. Afterwards everything ever taken over is accounted for without it. |

## Left out

Vectors
- `SharedBuffer` and the `do_*` hooks of `Vector<T>`: only their effects are stated, which do not tell a buffer that was resized in place from one that was moved.
- Buffers and vectors are kept in maps by address and number, so that memory can be freed and shared explicitly; they are not Dafny objects.
- Inserted items and arrays inside the receiver's own buffer.
- Vectors.VectorHeap.InsertVectorAt: not for a vector inserted into itself whose old buffer is gone or rearranged when it is read, which the program leaves undefined. It is defined when somebody shares the buffer, when the items are appended and there is room for them, and when nothing is read; these cases are covered.
- Overflow of `size_t`, which ends the program, and the wrap-around of `index + count` in `removeItemsAt`; `editArrayImpl` running out of memory, which ends the program too.
- `push`, `pop`, `add`, `appendVector`, `appendArray`, `clear` and the other forwarding members.
- SortedVectors.Merge: for a receiver with items only, as the code reads item 0 of an empty one; and not for a vector of one item merged into itself where that is an undefined insertion of the kind just named.
- VectorRuns.Run: a vector is not inserted into itself, as whether it may be depends on who shares its buffer; and a call that found no memory may take effect or not; the contracts of the methods say exactly when it does.

Looper
- Real clocks, epoll and pipes: a nondeterministic monotone clock, the set of registered descriptors and a byte counter stand for them. `toMillisecondTimeoutDelay` is declared outside the repository; the model takes it to round up to milliseconds, to give 0 for times past and a negative number for delays that do not fit into an `int`.
- `pollAll`, `prepare`, thread-local storage and reference counting of handlers; handlers that poll again; `sendMessage` and `sendMessageDelayed`, which only compute a time.

Multi-HAL
- The sub-HALs' own behaviour: a device fills its region from the front and returns at most its length.
- Overflow of `int` in `getWritableRegion` for lengths near the largest `int`.
- `dlopen` of sub-HALs, `fix_sensor_flags`, `flush`, `inject_sensor_data`, `setDelay` (routed like `activate`), and the version test in front of the clamp of `batch`.
- `waitForSpace`: a step of the protocol, not a method, because it waits.

Message queue and linked list
- Failures of initialisation; `msg_q_destroy` only when no thread is inside or waiting.
- Side effects of the callbacks passed to the list.

Adapters and buffers
- Masks as numbers (sets of bits here), `hexcode`, `decodeAddress` and the fan-out of reports: easy members without state.
- `GraphicBuffers.Transfer`: contents, `size` and `count` are claimed, not the cursors, which the code advances by a number of bytes as if it were a number of ints. Words are mathematical integers, not 32 bits wide.
- gralloc: allocation, locking, mapping.

Elsewhere
- `pn544_fw.c`, `CameraWrapper.cpp`, `lights.cpp`, `init_nicki.cpp`, `service.cpp`, the RIL, `Parcel.cpp`: data, or forwarding to vendor code.
- `loc_eng.cpp`, `loc_timer.c`, `loc_cfg.cpp`, `loc_log.cpp`, `loc_target.cpp`, `sensortest`, `SensorManager.cpp`: message plumbing, races of thread destruction, file reading, logging and probes.
