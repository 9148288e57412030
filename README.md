# tensor-bus broker core in Dafny

This project models the in-memory coordination engine of the tensor-bus
shared-memory publish/subscribe broker, and proves properties of that model.
The engine has three layers, plus the request handlers that join them:

- **Delivery queues** (`topic_queue.dfy`, `topic_queue_types.dfy`). Each
  independent subscriber of a topic owns a queue. A queue is a sequence of
  envelopes (buffer name, metadata, timestamp), a maximum size (0 means
  unbounded) and a map from subscriber name to read cursor. A dependent
  subscriber owns no queue. It reads its parent's queue through a cursor of
  its own.
  - `post` appends the envelope to every owned queue. On a full queue it
    instead evicts the entry just past the largest cursor, and releases that
    entry's buffer once per cursor.
  - `pull` reads at the caller's cursor and advances it.
  - `decIdx` rewinds the cursor by one.
  - `clearProcessedPosts` discards the prefix that every cursor has passed.
- **Topic registry** (`topic_manager.dfy`). A map from topic name to topic.
  Every call looks up one topic and forwards to it. An unknown topic is
  reported, never created, except by `addTopic`.
- **Buffer registry** (`shm_manager.dfy`). A map from buffer name to a buffer
  with a size and a reference count floored at zero. `release` erases a
  buffer when its count reaches zero.
- **Service handlers** (`shm_server.dfy`). These are `CreateBuffer`,
  `GetBuffer`, `ReleaseBuffer`, `RegisterTopic`, `Publish`,
  `GetSubscriberCount`, `Subscribe` and `Pull`, as methods over the three
  registries. The request fields are parameters and the reply fields are
  results.

The form follows the source:
- Objects whose fields the C++ updates in place are classes with `modifies`
  clauses: `ShmBuffer`, `ShmManager`, `Topic`, `TopicManager`, and the
  service. Loops over cursor maps and queue maps are `while` loops with
  invariants.
- Each state-changing method is tied to a specification function on values.
  For example, `Topic.Pull` ensures `(State(), r) == PullTopic(old(State()), …)`.
  Lemmas then state what those functions preserve and how they relate:
  - a pull followed by a rewind restores the topic;
  - collection keeps every subscriber's unread entries;
  - eviction never touches an entry that some cursor has reached;
  - successive pulls deliver the queue in order;
  - a publish that reaches nobody erases the buffer.
- The C++ iterates over an `unordered_map` in an unspecified order. `post`'s
  visiting order is therefore a ghost result, proved to visit every queue
  exactly once. The buffer registry's final state is stated as the releases
  applied in that order.
- A call that would block on a condition variable returns `Waits` and
  leaves the state as it was when it started to wait.

Where the documented intent of the service, or the source's own comments,
and the code differ, the model follows the code:
- **Pull errors.** The reply is preset to -1 and only a delivery sets it to
  0, so a failed pull, a timed-out one included, replies -1; no separate
  timeout code is produced (`server/shm_server.cpp:164-174`,
  `ShmServer.PullStep`).
- **Publish with no subscriber.** The buffer's count is set to 0 and then
  released by 0, which erases the buffer from the registry, although the
  comment at `server/shm_server.cpp:112-114` says the handler should not
  assume that a buffer needs releasing (`ShmServer.UnreceivedPublishErasesBuffer`).
- **No drop-or-block policy.** A post appends while there is room and
  otherwise replaces the oldest entry no subscriber holds, or does nothing.
  There is no policy switch and the publisher never blocks
  (`server/topic_queue.cpp:56-91`).
- **Eviction bound.** The comment at `server/topic_queue.cpp:216-220`
  replaces an entry when the largest cursor is below the queue size. The
  code evicts only when the largest cursor plus one is below the maximum
  (`server/topic_queue.cpp:81-82`). On a full queue whose fastest cursor is
  at the maximum minus one, the comment would evict and the code drops the
  new item (`Topics.PostOnCaughtUpFullQueueDrops`).
- **Dropped items.** When a full queue's eviction candidate lies at or
  beyond the maximum, the new item is silently not appended, and no
  reference is released for it (`server/topic_queue.cpp:81-89`).
- **Size-1 queues.** With one subscriber at cursor 0, posting `m0` then `m1`
  keeps `m0`, not `m1` (`Topics.SizeOneQueueKeepsOldest`).
- **Owner and dependent at once.** A name can own a queue and also be a
  dependent, and it is then counted twice by the subscriber count
  (`Topics.NameCanOwnAndDepend`).
- **Collection.** Collection releases no buffer (the release is commented
  out at `server/topic_queue.cpp:191`). An unbounded queue never collects
  anything, because the minimum starts at the maximum size, 0.
- **`release` with a count.** `release` is declared with a count `n`
  defaulting to 1 (`server/shm_manager.h:49`), and the callers pass counts
  (`server/topic_queue.cpp:86`, `server/shm_server.cpp:118`). The only body
  shown drops exactly one reference (`server/shm_manager.cpp:60-68`). The
  model follows the declaration and its callers: `release(name, n)` is
  `decRefCount(n)` followed by the same erase-at-zero step. On the publish
  failure path `n` is 0, so both readings erase the buffer.

## Model

| member | source | states |
|---|---|---|
| Common.Floor0 | server/shm_manager.h:27 | `std::max(0, x)`: never negative, equal to `x` when `x` is positive and 0 otherwise |
| ShmBuffers.Released | server/shm_manager.cpp:60-68 | release on the registry as values: an absent name changes nothing; the count drops by `n`; the entry is erased exactly when `count - n <= 0`; a kept entry has a positive count; every other entry is unchanged |
| ShmBuffers.ApplyReleasesOnlyTouchesNamed | server/topic_queue.cpp:86 | a series of releases never adds a buffer, and a buffer that none of them names keeps its presence and its state |
| ShmBuffers.ApplyReleasesAppend | server/topic_queue.cpp:59-90 | applying two series of releases one after the other is applying their concatenation, so the releases of successive queue posts compose |
| ShmBuffers.ShmBuffer.constructor | server/shm_manager.cpp:10-16 | a new buffer carries its name, is unallocated, and has size 0 and count 0 |
| ShmBuffers.ShmBuffer.Allocate | server/shm_manager.cpp:23-40 | succeeds exactly when the buffer was unallocated and the OS calls succeed; only then is the size recorded; allocated afterwards iff before or on success; the count is untouched |
| ShmBuffers.ShmBuffer.Deallocate | server/shm_manager.cpp:42-47 | the buffer is unallocated afterwards; size and count are unchanged |
| ShmBuffers.ShmBuffer.GetName | server/shm_manager.h:24 | returns the name and changes nothing |
| ShmBuffers.ShmBuffer.GetSize | server/shm_manager.h:29 | returns the size and changes nothing |
| ShmBuffers.ShmBuffer.GetRefCount | server/shm_manager.h:25 | returns the count and changes nothing |
| ShmBuffers.ShmBuffer.IncRefCount | server/shm_manager.h:26 | the count grows by exactly one; nothing else changes |
| ShmBuffers.ShmBuffer.DecRefCount | server/shm_manager.h:27 | the count drops by `n`, or becomes 0 if that would go negative, so it is never negative; nothing else changes |
| ShmBuffers.ShmBuffer.SetRefCount | server/shm_manager.h:28 | the count becomes exactly `count`; nothing else changes |
| ShmBuffers.ShmManager.constructor | server/shm_manager.h:38 | the registry starts empty |
| ShmBuffers.ShmManager.GetBuffer | server/shm_manager.cpp:49-53 | returns null exactly for an absent name, else the registered buffer; the registry is not modified |
| ShmBuffers.ShmManager.Add | server/shm_manager.cpp:55-58 | files the buffer under its own name, inserting or overwriting; every other entry is unchanged |
| ShmBuffers.ShmManager.Release | server/shm_manager.cpp:60-68 | the registry afterwards is `Released(old, name, n)`: no-op for an absent name, erased exactly at count 0; no other buffer object changes |
| ShmBuffers.ShmManager.ReleaseComplete | server/shm_manager.cpp:70-77 | the named entry is erased whatever its count, after its count is zeroed; its allocation flag and size are kept, and its name is constant; all other buffers are untouched |
| ShmBuffers.ShmManager.ReleaseAll | server/shm_manager.cpp:79-85 | every buffer that was registered has count 0 and keeps its allocation flag and size, and the registry is empty |
| TopicQueueTypes.DefaultItem | server/topic_queue.h:15-20 | a default envelope has an empty buffer name and empty metadata |
| TopicQueueTypes.NewTopicQueue | server/topic_queue.cpp:13-16 | a new queue is empty, has no cursor, keeps the given maximum, is not full and satisfies the queue invariant |
| TopicQueueTypes.TopicQueue.Size | server/topic_queue.h:32 | the queue's size is the number of envelopes it holds, 0 exactly when it is empty |
| TopicQueueTypes.TopicQueue.IsUnlimited | server/topic_queue.h:33 | a queue is unlimited exactly when its maximum size is 0 |
| TopicQueueTypes.TopicQueue.IsFull | server/topic_queue.h:34 | a full queue is bounded and holds at least its maximum; a queue that is not full is unbounded or below its maximum |
| TopicQueueTypes.FullExactlyAtCapacity | server/topic_queue.h:32-34 | unlimited iff the maximum is 0; an unlimited queue is never full; a limited queue is full iff its length is at least the maximum |
| TopicQueueTypes.AppendConditionIsNotFull | server/topic_queue.cpp:63 | `post`'s test `max == 0 \|\| size < max` is exactly "not full" |
| Topics.MaxCursor | server/topic_queue.cpp:74-78 | the largest cursor on the queue, 0 when there is none: at least every cursor, and 0 or one of them |
| Topics.GcBound | server/topic_queue.cpp:180-184 | the smallest cursor capped by the maximum size: at most the maximum and every cursor, and the maximum or one of them |
| Topics.PostOne | server/topic_queue.cpp:63-89 | a post on one queue makes at most one release (the eviction's); `PostPreservesWellFormed`, `PostKeepsReadPrefix` and `PostEvictsUnreadEntry` state what it does to the queue |
| Topics.AfterPull | server/topic_queue.cpp:116-147 | a pull keeps the entries, the maximum and the subscribers; only the caller's cursor can move, by one, exactly when the pull delivers |
| Topics.Rewound | server/topic_queue.cpp:158-166 | `decIdx` keeps the entries, the maximum and the subscribers, moves the caller's cursor back by exactly one and no other cursor |
| Topics.GcCount | server/topic_queue.cpp:180-195 | the number of entries collection discards is at most the length, and is the length, the maximum or some cursor |
| Topics.Collected | server/topic_queue.cpp:189-203 | collection keeps the maximum and the subscribers, drops exactly `GcCount` entries and keeps the rest as a suffix of the queue |
| Topics.Subscribed | server/topic_queue.cpp:26-54 | never returns false; waits exactly when a dependent subscription finds no listed dependency owning a queue, and then changes nothing; a name already a dependent, or (without dependencies) already owning a queue, returns true and changes nothing; a new own queue is empty, has the given maximum and holds only the subscriber's cursor at 0, with every other queue and the dependents unchanged; an attach adds the dependent under the first owning dependency, whose cursor map alone gains the subscriber at 0 |
| Topics.PullTopic | server/topic_queue.cpp:97-147 | a topic pull keeps the dependency map and the set of queues, and delivers exactly when the caller has an unread entry in the queue it resolves to, returning that entry |
| Topics.RewindTopic | server/topic_queue.cpp:151-167 | a topic rewind returns true exactly when the caller has a cursor in the queue it resolves to; true moves that cursor back by one (`Rewound`) and changes no other queue; false changes nothing; the dependency map and the set of queues are kept |
| Topics.CollectTopic | server/topic_queue.cpp:172-207 | topic collection keeps the dependency map and the set of queues, and the resolved queue shrinks by exactly the reported count |
| Topics.MaxCursorOf | server/topic_queue.cpp:74-78 | the loop's result is at least every cursor and is either 0 or one of the cursors |
| Topics.MinCursorOf | server/topic_queue.cpp:180-184 | the loop's result is at most the maximum size and every cursor, and is either the maximum size or one of the cursors |
| Topics.EraseAt | server/topic_queue.cpp:87 | erasing index `i` shortens the sequence by one, keeps the entries before `i` and shifts the later ones down by one |
| Topics.PostPreservesWellFormed | server/topic_queue.cpp:56-91 | a post on one queue keeps the length bound and cursors within length, and leaves the maximum and every cursor unchanged |
| Topics.PostKeepsReadPrefix | server/topic_queue.cpp:74-89 | a post never shortens a queue and never moves an entry at or below the largest cursor |
| Topics.PostKeepsNextItems | server/topic_queue.cpp:74-89 | each subscriber's next entry is the same after a post, eviction included |
| Topics.PostEvictsUnreadEntry | server/topic_queue.cpp:81-89 | on a full queue with room past the largest cursor, the length stays at the maximum, the new item is last, and exactly one entry lying beyond every cursor is erased, with its buffer released once per cursor |
| Topics.PostOnCaughtUpFullQueueDrops | server/topic_queue.cpp:81-82 | on a full queue where some cursor sits at the last slot or beyond, a post changes nothing and releases nothing |
| Topics.SizeOneQueueKeepsOldest | server/topic_queue.cpp:63-89 | with maximum 1 and one subscriber at 0, posting `m0` then `m1` leaves exactly `[m0]` |
| Topics.PostThenPullDelivers | server/topic_queue.cpp:63-67 | a subscriber that has read everything pulls the posted item next, when the queue had room |
| Topics.PullOutcome | server/topic_queue.cpp:116-148 | delivers iff the caller has a cursor below the length, and then returns the entry at the cursor; waits iff nothing is left and the timeout is negative; never reports an unregistered topic |
| Topics.PullPreservesWellFormed | server/topic_queue.cpp:128-147 | a pull keeps the queue invariant and never changes the entries |
| Topics.CancelledPullIsUndone | server/topic_queue.cpp:151-167 | after a delivering pull the cursor is positive, the rewind restores the exact queue, and the next pull returns the same outcome |
| Topics.PullsDeliverInOrder | server/topic_queue.cpp:128-147 | `n` successive pulls by one subscriber return the `n` entries from its cursor on, in order, each once |
| Topics.GcDiscardsOnlyPassedEntries | server/topic_queue.cpp:180-195 | collection discards no more than the length, the maximum, or any subscriber's cursor |
| Topics.GcKeepsUnreadEntries | server/topic_queue.cpp:189-203 | collection keeps the queue invariant, the subscribers and the maximum, moves each cursor down by exactly the number discarded, and leaves each subscriber's unread entries unchanged |
| Topics.GcLeavesUnboundedQueue | server/topic_queue.cpp:180-184 | an unbounded queue is never collected |
| Topics.FirstOwned | server/topic_queue.cpp:35-42 | finds the first listed dependency that owns a queue, or none exactly when no listed dependency owns one |
| Topics.AttachKeepsInvariants | server/topic_queue.cpp:45-46 | attaching a dependent keeps the topic invariants, adds only the new dependent, and removes no cursor |
| Topics.SubscribePreservesInvariants | server/topic_queue.cpp:26-54 | subscribing keeps the topic invariants, never reports false, and removes no queue, dependent or cursor |
| Topics.SubscribeIsIdempotent | server/topic_queue.cpp:26-54 | repeating a subscription that returned changes nothing and returns true |
| Topics.DependentReadsParentQueue | server/topic_queue.cpp:33-46 | a new dependent's parent is the first listed dependency owning a queue; it resolves to that queue, its cursor there is 0, and the queue's entries are unchanged |
| Topics.NameCanOwnAndDepend | server/topic_queue.h:67 | a name can be both an owner and a dependent, and the subscriber count then exceeds the number of distinct names |
| Topics.PostAllPreservesInvariants | server/topic_queue.cpp:56-91 | a post on a topic keeps the topic invariants and every cursor of every queue |
| Topics.TopicPullThenRewindRestores | server/topic_queue.cpp:151-167 | on a topic, a delivering pull followed by `decIdx` is allowed, succeeds, restores the topic exactly, and the next pull delivers the same entry |
| Topics.PullPreservesInvariants | server/topic_queue.cpp:97-149 | a pull keeps the topic invariants, the dependency map and the set of queues, and touches only the caller's queue |
| Topics.RewindPreservesInvariants | server/topic_queue.cpp:151-167 | a rewind keeps the topic invariants and touches only the caller's queue |
| Topics.CollectPreservesInvariants | server/topic_queue.cpp:172-207 | collection keeps the topic invariants and touches only the caller's queue |
| Topics.KnownSubscriberIsSubscribed | server/topic_queue.cpp:116-122 | when every subscriber has a cursor, a pull by a resolvable name never reports "not subscribed" |
| Topics.Topic.Size | server/topic_queue.h:67 | the subscriber count is 0 exactly when the topic has no queue and no dependent, and otherwise counts every subscribed name at least once |
| Topics.Topic.constructor | server/topic_queue.cpp:18-21 | a new topic has its name, no queue and no dependent |
| Topics.Topic.Subscribe | server/topic_queue.cpp:26-54 | the topic and the result are `Subscribed` of the old topic; the invariant is kept |
| Topics.Topic.Post | server/topic_queue.cpp:56-91 | every owned queue becomes its one-queue post; the dependents are unchanged; the registry receives the evictions' releases in a visiting order that covers every queue once |
| Topics.Topic.Pull | server/topic_queue.cpp:97-149 | the topic and the result are `PullTopic` of the old topic; the invariant is kept |
| Topics.Topic.DecIdx | server/topic_queue.cpp:151-167 | the topic and the result are `RewindTopic` of the old topic: false without a cursor, else that cursor alone moves back by one |
| Topics.Topic.ClearProcessedPosts | server/topic_queue.cpp:172-207 | the topic and the popped count are `CollectTopic` of the old topic; the invariant is kept |
| Topics.FindOwned | server/topic_queue.cpp:35-42 | the search loop returns exactly `FirstOwned`: the first listed dependency owning a queue, or none |
| Topics.PopFront | server/topic_queue.cpp:189-195 | the pop loop removes `min(bound, length)` entries from the front and keeps the rest in order |
| Topics.PostToEveryQueue | server/topic_queue.cpp:59-90 | the loop posts to every queue exactly once; the registry is the releases applied in the visiting order |
| Topics.PostToQueue | server/topic_queue.cpp:61-89 | one pass of the loop yields the one-queue post and applies its releases to the registry |
| Topics.PostToFullQueue | server/topic_queue.cpp:74-89 | the full-queue pass yields the one-queue post and applies its releases |
| Topics.EvictAfter | server/topic_queue.cpp:81-89 | below the maximum, the entry at `removeIdx` is released by the number of cursors, erased, and the item appended; otherwise nothing changes |
| Topics.PostOneHasRoom | server/topic_queue.cpp:63-68 | with room, a post appends and releases nothing |
| Topics.PostOneFull | server/topic_queue.cpp:74-89 | on a full queue, a post evicts past the largest cursor when that is below the maximum, and otherwise changes nothing |
| Topics.ShiftCursors | server/topic_queue.cpp:199-203 | the rewrite loop moves every cursor down by `k`, stopping at 0 |
| TopicManagers.CountIn | server/topic_manager.cpp:33-39 | the count is 0 exactly for an unknown topic or one with no subscriber, and counts every subscribed name at least once |
| TopicManagers.TopicManager.SubscriberCount | server/topic_manager.cpp:33-39 | the topic's `size()`, or 0 for an unknown topic |
| TopicManagers.TopicManager.constructor | server/topic_manager.cpp:7-9 | the registry starts with no topic |
| TopicManagers.TopicManager.AddTopic | server/topic_manager.cpp:11-22 | always true; an existing topic is kept untouched; an absent one is created fresh with no subscriber; no other topic changes |
| TopicManagers.TopicManager.Publish | server/topic_manager.cpp:24-31 | true exactly when the topic is known and has a subscriber; false changes nothing; true posts on that topic alone |
| TopicManagers.TopicManager.PostOnTopic | server/topic_manager.cpp:29 | the named topic posts the item; every other topic is unchanged |
| TopicManagers.TopicManager.Subscribe | server/topic_manager.cpp:41-54 | an unknown topic returns false and changes nothing; otherwise the topic is `Subscribed` and no other topic changes |
| TopicManagers.TopicManager.Pull | server/topic_manager.cpp:56-69 | an unknown topic reports that and changes nothing; otherwise the topic is `PullTopic` and no other topic changes |
| TopicManagers.TopicManager.CancelPull | server/topic_manager.cpp:71-77 | an unknown topic returns false and changes nothing; otherwise the topic is `RewindTopic` and no other topic changes |
| TopicManagers.TopicManager.ClearOldPosts | server/topic_manager.cpp:79-86 | true exactly for a known topic, whatever was collected; that topic alone is collected |
| ShmServer.NatToString | server/shm_server.cpp:47 | the decimal spelling is non-empty, all digits, and has two or more digits from 10 on |
| ShmServer.NatToStringInjective | server/shm_server.cpp:47 | distinct numbers have distinct decimal spellings |
| ShmServer.BufferNamesDistinct | server/shm_server.cpp:46-47 | two counter values give the same buffer name exactly when they are equal |
| ShmServer.BufferName | server/shm_server.cpp:47 | a created buffer's name is `/shmsvr_` followed by one or more decimal digits |
| ShmServer.Published | server/shm_server.cpp:94-121 | publish replies 0 or -1; 0 exactly when the buffer is known and the topic has a subscriber; -1 leaves the topics unchanged, and an unknown buffer leaves the registry unchanged; no topic is added |
| ShmServer.PullStep | server/shm_server.cpp:167-192 | after collection a pull adds no topic, waits only with a negative timeout, replies only 0 or -1, replies 0 only when not cancelled and with status OK, and a cancelled reply is -1 |
| ShmServer.PublishedWhenReceived | server/shm_server.cpp:104-111 | a publish to a topic with a subscriber sets the buffer's count to that number, posts, applies the evictions' releases and replies 0 |
| ShmServer.UnreceivedPublishErasesBuffer | server/shm_server.cpp:115-119 | a publish that reaches no subscriber replies -1, leaves the topics alone and erases the buffer from the registry |
| ShmServer.ReceivedPublishCountsSubscribers | server/shm_server.cpp:104-111 | a received publish keeps every buffer that no eviction names with its state, except that the published buffer's count becomes the subscriber count |
| ShmServer.DeliveryReply | server/shm_server.cpp:183-191 | replies 0 with the envelope's fields exactly when the buffer name is non-empty, else -1 with empty fields |
| ShmServer.PullStepChangesOnlyOnDelivery | server/shm_server.cpp:167-182 | after collection, the topics change only when an entry is delivered and not cancelled; a cancelled pull is undone |
| ShmServer.PullReplyCarriesNextEntry | server/shm_server.cpp:168-191 | a pull replies 0 exactly when the call is not cancelled and the subscriber's next entry exists with a non-empty name; the reply then carries that entry |
| ShmServer.ShmService.constructor | server/shm_server.cpp:46 | the counter starts at 0 with both registries empty |
| ShmServer.ShmService.CreateBuffer | server/shm_server.cpp:41-60 | the counter moves on modulo 2^32 whatever happens; on OS success the buffer is filed under `/shmsvr_<old counter>`, allocated with the size and count 0, and the reply is 0 with that name; on failure the call is cancelled, the reply is -1 and the registry is unchanged |
| ShmServer.ShmService.AllocateBuffer | server/shm_server.cpp:50-58 | allocation success files the buffer and replies 0 with its name; failure changes nothing and replies -1 |
| ShmServer.ShmService.GetBuffer | server/shm_server.cpp:62-74 | 0 with the size cast to 32 bits exactly for a registered buffer, else -1 |
| ShmServer.ShmService.ReleaseBuffer | server/shm_server.cpp:76-83 | the registry drops one reference to the name; always replies 0 |
| ShmServer.ShmService.RegisterTopic | server/shm_server.cpp:85-92 | the topic exists afterwards, and an existing one is untouched; always replies 0 |
| ShmServer.ShmService.Publish | server/shm_server.cpp:94-121 | an unknown buffer replies -1 and changes nothing; otherwise topics, registry and reply are `Published` of the old state |
| ShmServer.ShmService.PublishBuffer | server/shm_server.cpp:104-120 | with the buffer found, topics, registry and reply are `Published` of the old state |
| ShmServer.ShmService.ReleaseBy | server/shm_server.cpp:118 | the registry is released by `n`; the topics are unchanged |
| ShmServer.ShmService.SetCount | server/shm_server.cpp:106 | only the buffer's count changes, to `n`; the topics are unchanged |
| ShmServer.ShmService.GetSubscriberCount | server/shm_server.cpp:123-131 | replies 0 with the topic's subscriber count (0 for an unknown topic) |
| ShmServer.ShmService.Subscribe | server/shm_server.cpp:138-156 | an unknown topic replies -1 and changes nothing; a known topic is `Subscribed`, and the handler waits exactly when the subscription waits and otherwise replies 0 |
| ShmServer.ShmService.Pull | server/shm_server.cpp:158-193 | topics and reply are `PullStep` after `clearOldPosts` has collected the subscriber's queue |
| ShmServer.ShmService.PullCollected | server/shm_server.cpp:168-192 | the pull, its cancellation and its reply follow `PullStep` |
| ShmServer.ShmService.UndoPull | server/shm_server.cpp:180 | `cancelPull` right after a delivering pull gives back the topic as it was before the pull |

## Left out

- The gRPC transport: `RunServer`, the JSON configuration, log levels, `file_exists`, `get_json_param` and the SIGINT handler (`server/shm_server.cpp:196-269`). Console and spdlog tracing is left out throughout.
- Mutexes and condition variables. A call that would block is reported as `Waits`, with the state as it was when it began to wait. The wake-ups from other threads, the unlocked reads of the maps, and the extra wait after a dependency has been found (`server/topic_queue.cpp:43`) are not modelled.
- The operating-system calls in `allocate`/`deallocate` (`shm_open`, `ftruncate`, `close`, `shm_unlink`). They are reduced to one boolean input saying whether creation succeeded.
- Destructors and `shared_ptr` lifetimes, including `ShmBuffer`'s destructor-driven deallocation. The registry of the model holds object references, and nothing is freed.
- Queues are values inside their topic's map. Two handles to one queue (the C++ `shared_ptr` aliasing) are not modelled.
- The iteration order of `unordered_map` is not modelled; `post`'s visiting order is a ghost result that ranges over every order.
- Integer widths. Cursors and sizes are unbounded naturals. Reference counts
  (`ShmBuffer.refCount`, `BufferState.refCount`, `Release.count`) are
  unbounded integers, so the overflow of the C++ `int` count is not modelled. A 64-bit timestamp is a natural. Only the buffer-name counter (32-bit, wrapping) and `GetBuffer`'s cast of the size to 32 bits are written out.
- Undefined behaviour becomes a precondition:
  - `Topics.Topic.Pull`, `Topics.Topic.ClearProcessedPosts`, `Topics.Topic.DecIdx`, `TopicManagers.TopicManager.Pull`, `TopicManagers.TopicManager.ClearOldPosts`, `TopicManagers.TopicManager.CancelPull` and the handlers that reach them require that the subscriber resolves to a queue (`Resolves`, and for `DecIdx` and `CancelPull` through `CanRewind`). Otherwise the C++ dereferences the null pointer that `mQueueMap[...]` inserts (`server/topic_queue.cpp:104-114` in `pull`, `:154-158` in `decIdx`, `:175-179` in `clearProcessedPosts`).
  - `Topics.Topic.DecIdx` and `TopicManagers.TopicManager.CancelPull` require the cursor to be positive (`CanRewind`), since the unsigned cursor would otherwise wrap at `server/topic_queue.cpp:165`.
- `server/topic_manager.h` is not part of this model. It declares `createID`, `SubscriberID` and `QUEUE_SIZE` and stale signatures that do not match the definitions.
- Methods declared in `server/topic_queue.h` without a body are not part of this model: `push_replace_oldest`, `clear_old`, `init_index`, and the drop flag of `Topic`. The deque helpers used by the definitions are taken as append at the back, pop at the front, erase at an index and read at an index.
- The client library and the end-to-end tests are not part of this model.
- `ShmBuffers.ShmManager.Release`: modelled with a count `n` (default 1) as the declaration and the callers use it, not with the fixed count of 1 of the only definition shown.
