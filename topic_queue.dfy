/**
 * A topic and its delivery queues.  Every independent subscriber owns a
 * queue; a dependent subscriber owns none and reads its parent's queue
 * through a cursor of its own.  `post` fans a message out to every owned
 * queue, evicting one unread entry from a full queue; `pull` reads at the
 * caller's cursor and advances it; `decIdx` rewinds it; `clearProcessedPosts`
 * discards the prefix every cursor has passed.
 *
 * The queues are values inside the topic's map; the topic is an object whose
 * methods reassign that map.  The functions below specify each operation on
 * those values and the lemmas state what the operations preserve.
 */
module Topics {
  import opened Common
  import opened TopicQueueTypes
  import opened ShmBuffers

  // ---------------------------------------------------------------------
  // Largest and smallest cursor
  // ---------------------------------------------------------------------

  /** `m` is what a running maximum that starts at 0 ends with over `s`. */
  ghost predicate IsMaxOf(s: set<nat>, m: nat)
  {
    (forall x :: x in s ==> x <= m) && (m == 0 || m in s)
  }

  /** `m` is what a running minimum that starts at `bound` ends with over `s`. */
  ghost predicate IsMinOf(s: set<nat>, bound: nat, m: nat)
  {
    m <= bound && (forall x :: x in s ==> m <= x) && (m == bound || m in s)
  }

  lemma {:induction false} MaxOfExists(s: set<nat>)
    ensures exists m :: IsMaxOf(s, m)
    decreases s
  {
    if s == {} {
      assert IsMaxOf(s, 0);
    } else {
      var x :| x in s;
      MaxOfExists(s - {x});
      var m :| IsMaxOf(s - {x}, m);
      var r := if x <= m then m else x;
      forall y | y in s
        ensures y <= r
      {
        if y != x {
          assert y in s - {x};
        }
      }
      assert IsMaxOf(s, r);
    }
  }

  lemma {:induction false} MinOfExists(s: set<nat>, bound: nat)
    ensures exists m :: IsMinOf(s, bound, m)
    decreases s
  {
    if s == {} {
      assert IsMinOf(s, bound, bound);
    } else {
      var x :| x in s;
      MinOfExists(s - {x}, bound);
      var m :| IsMinOf(s - {x}, bound, m);
      var r := if m <= x then m else x;
      forall y | y in s
        ensures r <= y
      {
        if y != x {
          assert y in s - {x};
        }
      }
      assert IsMinOf(s, bound, r);
    }
  }

  lemma MaxOfUnique(s: set<nat>, m1: nat, m2: nat)
    requires IsMaxOf(s, m1) && IsMaxOf(s, m2)
    ensures m1 == m2
  {
  }

  lemma MinOfUnique(s: set<nat>, bound: nat, m1: nat, m2: nat)
    requires IsMinOf(s, bound, m1) && IsMinOf(s, bound, m2)
    ensures m1 == m2
  {
  }

  /** The largest cursor on the queue, or 0 when it has none. */
  ghost function MaxCursor(q: TopicQueue): (m: nat)
    ensures IsMaxOf(q.cursors.Values, m)
  {
    MaxOfExists(q.cursors.Values);
    var m :| IsMaxOf(q.cursors.Values, m);
    m
  }

  /** The smallest cursor on the queue, capped by the queue's maximum size. */
  ghost function GcBound(q: TopicQueue): (m: nat)
    ensures IsMinOf(q.cursors.Values, q.maxSize, m)
  {
    MinOfExists(q.cursors.Values, q.maxSize);
    var m :| IsMinOf(q.cursors.Values, q.maxSize, m);
    m
  }

  /** The running maximum over the cursors, starting at 0. */
  method MaxCursorOf(cursors: map<string, nat>) returns (m: nat)
    ensures IsMaxOf(cursors.Values, m)
  {
    m := 0;
    var pending := cursors.Keys;
    while pending != {}
      invariant pending <= cursors.Keys
      invariant forall s :: s in cursors && s !in pending ==> cursors[s] <= m
      invariant m == 0 || m in cursors.Values
      decreases pending
    {
      var s :| s in pending;
      if cursors[s] > m {
        m := cursors[s];
      }
      pending := pending - {s};
    }
  }

  /** The running minimum over the cursors, starting at `bound`. */
  method MinCursorOf(cursors: map<string, nat>, bound: nat) returns (m: nat)
    ensures IsMinOf(cursors.Values, bound, m)
  {
    m := bound;
    var pending := cursors.Keys;
    while pending != {}
      invariant pending <= cursors.Keys
      invariant m <= bound
      invariant forall s :: s in cursors && s !in pending ==> m <= cursors[s]
      invariant m == bound || m in cursors.Values
      decreases pending
    {
      var s :| s in pending;
      if cursors[s] < m {
        m := cursors[s];
      }
      pending := pending - {s};
    }
  }

  // ---------------------------------------------------------------------
  // One queue: post, pull, rewind, collect
  // ---------------------------------------------------------------------

  /** The deque's `erase` at index `i`. */
  function EraseAt(s: seq<Item>, i: nat): (r: seq<Item>)
    requires i < |s|
    ensures |r| == |s| - 1
    ensures forall j :: 0 <= j < i ==> r[j] == s[j]
    ensures forall j :: i <= j < |r| ==> r[j] == s[j + 1]
  {
    s[..i] + s[i + 1..]
  }

  /** A queue after one post, and the buffer releases the post made on the registry. */
  datatype PostEffect = PostEffect(queue: TopicQueue, releases: seq<Release>)

  /**
   * `post` on one queue: append when there is room; on a full queue evict
   * the entry just past the largest cursor, releasing its buffer once per
   * cursor on the queue, and append; when that entry lies beyond the
   * maximum, leave the queue as it is.
   */
  ghost function PostOne(q: TopicQueue, item: Item): (e: PostEffect)
    ensures |e.releases| <= 1
  {
    if !q.IsFull() then
      PostEffect(q.(items := q.items + [item]), [])
    else if MaxCursor(q) + 1 < q.maxSize then
      var victim := MaxCursor(q) + 1;
      PostEffect(q.(items := EraseAt(q.items, victim) + [item]),
                 [Release(q.items[victim].bufferName, |q.cursors|)])
    else
      PostEffect(q, [])
  }

  /** Posting keeps the queue invariant, the maximum size and every cursor. */
  lemma PostPreservesWellFormed(q: TopicQueue, item: Item)
    requires q.WellFormed()
    ensures PostOne(q, item).queue.WellFormed()
    ensures PostOne(q, item).queue.cursors == q.cursors
    ensures PostOne(q, item).queue.maxSize == q.maxSize
  {
  }

  /**
   * Posting never disturbs any entry up to the largest cursor: every entry a
   * subscriber has read, and every subscriber's next entry, keep their places.
   */
  lemma PostKeepsReadPrefix(q: TopicQueue, item: Item)
    requires q.WellFormed()
    ensures var r := PostOne(q, item).queue;
      |r.items| >= |q.items| &&
      forall i :: 0 <= i <= MaxCursor(q) && i < |q.items| ==> r.items[i] == q.items[i]
  {
  }

  /** Every subscriber's next entry is the same after a post as before it. */
  lemma PostKeepsNextItems(q: TopicQueue, item: Item, s: string)
    requires q.WellFormed() && s in q.cursors && q.cursors[s] < |q.items|
    ensures PostOne(q, item).queue.items[q.cursors[s]] == q.items[q.cursors[s]]
  {
    assert q.cursors[s] in q.cursors.Values;
    PostKeepsReadPrefix(q, item);
  }

  /**
   * On a full queue with room past the largest cursor, a post keeps the
   * length, puts the new item last, and releases the buffer of an entry that
   * lies strictly beyond every cursor, once per cursor.
   */
  lemma PostEvictsUnreadEntry(q: TopicQueue, item: Item)
    requires q.WellFormed() && q.IsFull() && MaxCursor(q) + 1 < q.maxSize
    ensures var e := PostOne(q, item);
      && |e.queue.items| == |q.items| == q.maxSize
      && e.queue.items[|e.queue.items| - 1] == item
      && exists v :: 0 <= v < |q.items|
           && (forall s :: s in q.cursors ==> q.cursors[s] < v)
           && e.releases == [Release(q.items[v].bufferName, |q.cursors|)]
           && e.queue.items == q.items[..v] + q.items[v + 1..] + [item]
  {
    var v := MaxCursor(q) + 1;
    assert forall s :: s in q.cursors ==> q.cursors[s] in q.cursors.Values;
  }

  /** A subscriber that has read everything pulls the posted item next, when the queue had room for it. */
  lemma PostThenPullDelivers(q: TopicQueue, item: Item, s: string, timeout: int)
    requires !q.IsFull() && s in q.cursors && q.cursors[s] == |q.items|
    ensures PullOutcome(PostOne(q, item).queue, s, timeout) == Returns(Pulled(item))
  {
  }

  /** When some cursor sits at the last slot or beyond, a full queue drops the new item. */
  lemma PostOnCaughtUpFullQueueDrops(q: TopicQueue, item: Item)
    requires q.IsFull() && exists s :: s in q.cursors && q.cursors[s] + 1 >= q.maxSize
    ensures PostOne(q, item) == PostEffect(q, [])
  {
    var s :| s in q.cursors && q.cursors[s] + 1 >= q.maxSize;
    assert q.cursors[s] in q.cursors.Values;
  }

  /**
   * A queue of size 1 with its one subscriber at position 0: posting m0 and
   * then m1 without a pull keeps m0 and drops m1, since the eviction
   * candidate, index 1, is not below the maximum.
   */
  lemma SizeOneQueueKeepsOldest(m0: Item, m1: Item)
    ensures var q := NewTopicQueue(1).(cursors := map["s1" := 0]);
      PostOne(PostOne(q, m0).queue, m1).queue.items == [m0]
  {
    var q := NewTopicQueue(1).(cursors := map["s1" := 0]);
    var q1 := PostOne(q, m0).queue;
    assert q1.items == [m0] && q1.cursors == q.cursors;
    forall v | v in q1.cursors.Values
      ensures v == 0
    {
      var k :| k in q1.cursors && q1.cursors[k] == v;
    }
    assert MaxCursor(q1) == 0;
  }

  /** The outcome of a pull. */
  datatype PullResult = Pulled(item: Item) | NotSubscribed | TimedOut | Unregistered

  /**
   * What `pull` reports on a queue: no cursor for `s`; nothing left to read
   * (a negative timeout waits, any other times out); or the entry at the cursor.
   */
  function PullOutcome(q: TopicQueue, s: string, timeout: int): (r: Blocking<PullResult>)
    ensures r.Returns? && r.value.Pulled? <==> s in q.cursors && q.cursors[s] < |q.items|
    ensures r.Returns? && r.value.Pulled? ==> r.value.item == q.items[q.cursors[s]]
    ensures r.Waits? <==> s in q.cursors && q.cursors[s] >= |q.items| && timeout < 0
    ensures r.Returns? ==> !r.value.Unregistered?
  {
    if s !in q.cursors then Returns(NotSubscribed)
    else if q.cursors[s] >= |q.items| then (if timeout < 0 then Waits else Returns(TimedOut))
    else Returns(Pulled(q.items[q.cursors[s]]))
  }

  /** The queue after a pull: only the caller's cursor moves, and only on success. */
  function AfterPull(q: TopicQueue, s: string, timeout: int): (r: TopicQueue)
    ensures r.items == q.items && r.maxSize == q.maxSize && r.cursors.Keys == q.cursors.Keys
    ensures forall t :: t in q.cursors && t != s ==> r.cursors[t] == q.cursors[t]
    ensures s in q.cursors ==>
      r.cursors[s] == if PullOutcome(q, s, timeout).Returns? && PullOutcome(q, s, timeout).value.Pulled?
                      then q.cursors[s] + 1 else q.cursors[s]
  {
    if s in q.cursors && q.cursors[s] < |q.items| then
      q.(cursors := q.cursors[s := q.cursors[s] + 1])
    else q
  }

  /** The queue after `decIdx`: the caller's cursor moves back by one. */
  function Rewound(q: TopicQueue, s: string): (r: TopicQueue)
    requires s in q.cursors ==> q.cursors[s] > 0
    ensures r.items == q.items && r.maxSize == q.maxSize && r.cursors.Keys == q.cursors.Keys
    ensures forall t :: t in q.cursors && t != s ==> r.cursors[t] == q.cursors[t]
    ensures s in q.cursors ==> r.cursors[s] + 1 == q.cursors[s]
  {
    if s in q.cursors then q.(cursors := q.cursors[s := q.cursors[s] - 1]) else q
  }

  lemma PullPreservesWellFormed(q: TopicQueue, s: string, timeout: int)
    requires q.WellFormed()
    ensures AfterPull(q, s, timeout).WellFormed()
    ensures AfterPull(q, s, timeout).items == q.items
  {
  }

  /**
   * A pull that was cancelled and rewound leaves the queue as it was, and
   * the next pull returns the same item again.
   */
  lemma CancelledPullIsUndone(q: TopicQueue, s: string, timeout: int, timeout': int)
    requires PullOutcome(q, s, timeout).Returns? && PullOutcome(q, s, timeout).value.Pulled?
    ensures s in AfterPull(q, s, timeout).cursors && AfterPull(q, s, timeout).cursors[s] > 0
    ensures Rewound(AfterPull(q, s, timeout), s) == q
    ensures PullOutcome(Rewound(AfterPull(q, s, timeout), s), s, timeout') == PullOutcome(q, s, timeout)
  {
    var q' := AfterPull(q, s, timeout);
    assert q'.cursors[s := q'.cursors[s] - 1] == q.cursors;
  }

  /** The items `n` successive non-blocking pulls by `s` return, in order. */
  function PullMany(q: TopicQueue, s: string, n: nat): seq<Item>
    decreases n
  {
    if n == 0 then []
    else
      match PullOutcome(q, s, 0)
      case Returns(Pulled(item)) => [item] + PullMany(AfterPull(q, s, 0), s, n - 1)
      case _ => []
  }

  /**
   * Successive pulls by one subscriber deliver the queue's entries from its
   * cursor on, in order, each exactly once.
   */
  lemma {:induction false} PullsDeliverInOrder(q: TopicQueue, s: string, n: nat)
    requires s in q.cursors && q.cursors[s] + n <= |q.items|
    ensures PullMany(q, s, n) == q.items[q.cursors[s]..q.cursors[s] + n]
    decreases n
  {
    if n > 0 {
      var c := q.cursors[s];
      PullsDeliverInOrder(AfterPull(q, s, 0), s, n - 1);
      assert q.items[c..c + n] == [q.items[c]] + q.items[c + 1..c + n];
    }
  }

  /** Every cursor moved down by `k`, stopping at 0. */
  function Shifted(c: map<string, nat>, k: nat): map<string, nat>
  {
    map s | s in c :: if c[s] > k then c[s] - k else 0
  }

  /** How many entries `clearProcessedPosts` discards. */
  ghost function GcCount(q: TopicQueue): (k: nat)
    ensures k <= |q.items|
    ensures k == |q.items| || k == q.maxSize || k in q.cursors.Values
  {
    if GcBound(q) < |q.items| then GcBound(q) else |q.items|
  }

  /** The queue after `clearProcessedPosts`. */
  ghost function Collected(q: TopicQueue): (r: TopicQueue)
    ensures r.maxSize == q.maxSize && r.cursors.Keys == q.cursors.Keys
    ensures |r.items| + GcCount(q) == |q.items|
    ensures r.items == q.items[|q.items| - |r.items|..]
  {
    var k := GcCount(q);
    q.(items := q.items[k..], cursors := Shifted(q.cursors, k))
  }

  /**
   * Collection never discards an entry some cursor has not passed, nor more
   * than the queue's maximum size or its length.
   */
  lemma GcDiscardsOnlyPassedEntries(q: TopicQueue)
    ensures GcCount(q) <= |q.items| && GcCount(q) <= q.maxSize
    ensures forall s :: s in q.cursors ==> GcCount(q) <= q.cursors[s]
  {
    assert forall s :: s in q.cursors ==> q.cursors[s] in q.cursors.Values;
  }

  /**
   * Collection keeps the queue invariant, moves every cursor down by exactly
   * the number discarded, and leaves each subscriber's unread entries, its
   * next one first, exactly as they were.
   */
  lemma GcKeepsUnreadEntries(q: TopicQueue)
    requires q.WellFormed()
    ensures Collected(q).WellFormed()
    ensures Collected(q).cursors.Keys == q.cursors.Keys && Collected(q).maxSize == q.maxSize
    ensures forall s :: s in q.cursors ==>
      && Collected(q).cursors[s] == q.cursors[s] - GcCount(q)
      && Collected(q).items[Collected(q).cursors[s]..] == q.items[q.cursors[s]..]
  {
    GcDiscardsOnlyPassedEntries(q);
    var k := GcCount(q);
    var r := Collected(q);
    assert r.items == q.items[k..] && r.cursors == Shifted(q.cursors, k);
    forall s | s in q.cursors
      ensures r.cursors[s] == q.cursors[s] - k <= |r.items|
      ensures r.items[r.cursors[s]..] == q.items[q.cursors[s]..]
    {
      var c := q.cursors[s];
      assert k <= c <= |q.items|;
      assert q.items[k..][c - k..] == q.items[c..];
    }
  }

  /** An unbounded queue never loses an entry to collection. */
  lemma GcLeavesUnboundedQueue(q: TopicQueue)
    requires q.IsUnlimited()
    ensures GcCount(q) == 0 && Collected(q) == q
  {
    var c := Shifted(q.cursors, 0);
    assert c == q.cursors;
  }

  // ---------------------------------------------------------------------
  // A topic: its queues and its dependency map
  // ---------------------------------------------------------------------

  datatype TopicState = TopicState(queues: map<string, TopicQueue>, deps: map<string, string>)

  /** The queue a subscriber reads: its parent's when it is a dependent, else its own. */
  function Owner(st: TopicState, name: string): string
  {
    if name in st.deps then st.deps[name] else name
  }

  /** The subscriber's queue exists (otherwise the source dereferences a null pointer). */
  predicate Resolves(st: TopicState, name: string)
  {
    Owner(st, name) in st.queues
  }

  /** Every queue keeps its invariant and every dependent's parent owns a queue. */
  ghost predicate TopicValid(st: TopicState)
  {
    && (forall k :: k in st.queues ==> st.queues[k].WellFormed())
    && (forall d :: d in st.deps ==> st.deps[d] in st.queues)
  }

  /** Every known subscriber has a cursor on the queue it reads. */
  ghost predicate AllHaveCursors(st: TopicState)
  {
    && (forall k :: k in st.queues ==> k in st.queues[k].cursors)
    && (forall d :: d in st.deps ==> st.deps[d] in st.queues && d in st.queues[st.deps[d]].cursors)
  }

  /** The first listed dependency that owns a queue. */
  function FirstOwned(dl: seq<string>, queues: map<string, TopicQueue>): (r: Option<nat>)
    ensures r.Some? ==> r.value < |dl| && dl[r.value] in queues
    ensures r.Some? ==> forall j :: 0 <= j < r.value ==> dl[j] !in queues
    ensures r.None? ==> forall j :: 0 <= j < |dl| ==> dl[j] !in queues
    decreases |dl|
  {
    if dl == [] then None
    else if dl[0] in queues then Some(0)
    else
      match FirstOwned(dl[1..], queues)
      case None => None
      case Some(i) => Some(i + 1)
  }

  /** A queue of `maxSize` holding only `name`'s cursor, at 0. */
  function OwnQueue(name: string, maxSize: nat): TopicQueue
  {
    NewTopicQueue(maxSize).(cursors := map[name := 0])
  }

  /** `name` made a dependent of `parent`, with a cursor at 0 on the parent's queue. */
  function Attached(st: TopicState, name: string, parent: string): TopicState
    requires parent in st.queues
  {
    var q := st.queues[parent];
    TopicState(st.queues[parent := q.(cursors := q.cursors[name := 0])], st.deps[name := parent])
  }

  /**
   * Attaching a dependent keeps the topic invariant and the
   * cursors-for-everyone invariant and only adds.
   */
  lemma AttachKeepsInvariants(st: TopicState, name: string, parent: string)
    requires TopicValid(st) && parent in st.queues
    ensures var st' := Attached(st, name, parent);
      && TopicValid(st')
      && (AllHaveCursors(st) ==> AllHaveCursors(st'))
      && st'.queues.Keys == st.queues.Keys && st'.deps.Keys == st.deps.Keys + {name}
      && (forall k :: k in st.queues ==> st.queues[k].cursors.Keys <= st'.queues[k].cursors.Keys)
  {
    var st' := Attached(st, name, parent);
    assert st'.queues[parent].WellFormed();
    if AllHaveCursors(st) {
      forall d | d in st'.deps
        ensures st'.deps[d] in st'.queues && d in st'.queues[st'.deps[d]].cursors
      {
        if d != name {
          assert st'.deps[d] == st.deps[d];
        }
      }
    }
  }

  /**
   * `subscribe`: with no dependencies, a name without a queue gets its own;
   * with dependencies, a name not yet a dependent is attached, with a cursor
   * at 0, to the first listed dependency that owns a queue, and waits when
   * none does.  Every call that returns returns true.
   */
  function Subscribed(st: TopicState, name: string, dl: seq<string>, maxSize: nat): (r: (TopicState, Blocking<bool>))
    ensures r.1 != Returns(false)
    ensures r.1.Waits? <==> |dl| > 0 && name !in st.deps && forall j :: 0 <= j < |dl| ==> dl[j] !in st.queues
    ensures r.1.Waits? ==> r.0 == st
    ensures r.1.Returns? ==> if |dl| > 0 then name in r.0.deps else name in r.0.queues
    ensures |dl| > 0 && name in st.deps ==> r == (st, Returns(true))
    ensures |dl| == 0 && name in st.queues ==> r == (st, Returns(true))
    ensures |dl| == 0 && name !in st.queues ==>
      && r.0.deps == st.deps && r.0.queues.Keys == st.queues.Keys + {name}
      && r.0.queues[name].items == [] && r.0.queues[name].maxSize == maxSize
      && r.0.queues[name].cursors == map[name := 0]
      && forall k :: k in st.queues ==> r.0.queues[k] == st.queues[k]
    ensures |dl| > 0 && name !in st.deps && FirstOwned(dl, st.queues).Some? ==>
      var p := dl[FirstOwned(dl, st.queues).value];
      && r.0.deps == st.deps[name := p] && r.0.queues.Keys == st.queues.Keys
      && r.0.queues[p] == st.queues[p].(cursors := st.queues[p].cursors[name := 0])
      && forall k :: k in st.queues && k != p ==> r.0.queues[k] == st.queues[k]
  {
    if |dl| > 0 then
      if name in st.deps then (st, Returns(true))
      else
        match FirstOwned(dl, st.queues)
        case None => (st, Waits)
        case Some(i) => (Attached(st, name, dl[i]), Returns(true))
    else if name !in st.queues then
      (TopicState(st.queues[name := OwnQueue(name, maxSize)], st.deps), Returns(true))
    else
      (st, Returns(true))
  }

  /**
   * Subscribing keeps the topic invariant and the cursors-for-everyone
   * invariant, never reports false, and only adds: no queue, dependent or
   * cursor disappears.
   */
  lemma SubscribePreservesInvariants(st: TopicState, name: string, dl: seq<string>, maxSize: nat)
    requires TopicValid(st)
    ensures var (st', r) := Subscribed(st, name, dl, maxSize);
      && TopicValid(st')
      && (AllHaveCursors(st) ==> AllHaveCursors(st'))
      && r != Returns(false)
      && st.queues.Keys <= st'.queues.Keys && st.deps.Keys <= st'.deps.Keys
      && (forall k :: k in st.queues ==> st.queues[k].cursors.Keys <= st'.queues[k].cursors.Keys)
  {
    if |dl| > 0 && name !in st.deps {
      match FirstOwned(dl, st.queues)
      case None =>
      case Some(i) => AttachKeepsInvariants(st, name, dl[i]);
    } else if |dl| == 0 && name !in st.queues {
      assert OwnQueue(name, maxSize).WellFormed();
    }
  }

  /** Repeating a subscription that returned changes nothing more. */
  lemma SubscribeIsIdempotent(st: TopicState, name: string, dl: seq<string>, maxSize: nat)
    requires Subscribed(st, name, dl, maxSize).1.Returns?
    ensures var st' := Subscribed(st, name, dl, maxSize).0;
      Subscribed(st', name, dl, maxSize) == (st', Returns(true))
  {
  }

  /**
   * A dependent subscription names the first listed dependency that owns a
   * queue as its parent and resolves to that queue, where its cursor is 0.
   */
  lemma DependentReadsParentQueue(st: TopicState, name: string, dl: seq<string>, maxSize: nat)
    requires |dl| > 0 && name !in st.deps && FirstOwned(dl, st.queues).Some?
    ensures var st' := Subscribed(st, name, dl, maxSize).0;
      var i := FirstOwned(dl, st.queues).value;
      && Owner(st', name) == dl[i]
      && (forall j :: 0 <= j < i ==> dl[j] !in st.queues)
      && Resolves(st', name)
      && st'.queues[dl[i]].cursors[name] == 0
      && st'.queues[dl[i]].items == st.queues[dl[i]].items
  {
  }

  /**
   * The subscriber count adds owners and dependents, so a name that is both
   * is counted twice.  Subscribing "B", then "A", then "A" as a dependent of
   * "B" leaves two names and a count of three.
   */
  lemma NameCanOwnAndDepend()
    ensures var st0 := TopicState(map[], map[]);
      var st1 := Subscribed(st0, "B", [], 0).0;
      var st2 := Subscribed(st1, "A", [], 0).0;
      var st3 := Subscribed(st2, "A", ["B"], 0).0;
      && "A" in st3.queues && "A" in st3.deps
      && |st3.queues.Keys + st3.deps.Keys| == 2
      && |st3.queues| + |st3.deps| == 3
  {
    var st0 := TopicState(map[], map[]);
    var st1 := Subscribed(st0, "B", [], 0).0;
    var st2 := Subscribed(st1, "A", [], 0).0;
    assert st2.queues.Keys == {"A", "B"};
    assert FirstOwned(["B"], st2.queues) == Some(0);
    var st3 := Subscribed(st2, "A", ["B"], 0).0;
    assert st3.queues.Keys == {"A", "B"} && st3.deps.Keys == {"A"};
    assert st3.queues.Keys + st3.deps.Keys == {"A", "B"};
  }

  /** `post` on a topic: every owned queue posts the item. */
  ghost function PostedAll(queues: map<string, TopicQueue>, item: Item): map<string, TopicQueue>
  {
    map k | k in queues :: PostOne(queues[k], item).queue
  }

  /** A topic post part-way through: the queues in `pending` have not been visited yet. */
  ghost function PostedExcept(queues: map<string, TopicQueue>, item: Item, pending: set<string>): map<string, TopicQueue>
  {
    map k | k in queues :: if k in pending then queues[k] else PostOne(queues[k], item).queue
  }

  lemma PostedExceptStep(queues: map<string, TopicQueue>, item: Item, pending: set<string>, k: string)
    requires k in pending && k in queues
    ensures PostedExcept(queues, item, pending)[k := PostOne(queues[k], item).queue]
         == PostedExcept(queues, item, pending - {k})
  {
  }

  /**
   * One visit of `post`'s loop: the queue `k` posted and its releases
   * applied after those of `order` give the state for `order + [k]`.
   */
  lemma PostLoopStep(queues: map<string, TopicQueue>, item: Item, pending: set<string>, order: seq<string>,
                     k: string, v0: map<string, BufferState>, v1: map<string, BufferState>)
    requires k in pending && pending <= queues.Keys
    requires forall i :: 0 <= i < |order| ==> order[i] in queues
    requires v1 == ApplyReleases(v0, PostReleases(queues, order, item))
    ensures forall i :: 0 <= i < |order + [k]| ==> (order + [k])[i] in queues
    ensures ApplyReleases(v1, PostOne(queues[k], item).releases)
         == ApplyReleases(v0, PostReleases(queues, order + [k], item))
    ensures PostedExcept(queues, item, pending)[k := PostOne(queues[k], item).queue]
         == PostedExcept(queues, item, pending - {k})
  {
    ApplyReleasesAppend(v0, PostReleases(queues, order, item), PostOne(queues[k], item).releases);
    PostReleasesSnoc(queues, order, k, item);
    PostedExceptStep(queues, item, pending, k);
  }

  /** The releases a topic post makes, visiting the queues in `order`. */
  ghost function PostReleases(queues: map<string, TopicQueue>, order: seq<string>, item: Item): seq<Release>
    requires forall i :: 0 <= i < |order| ==> order[i] in queues
    decreases |order|
  {
    if order == [] then []
    else
      PostReleases(queues, order[..|order| - 1], item) + PostOne(queues[order[|order| - 1]], item).releases
  }

  lemma PostReleasesSnoc(queues: map<string, TopicQueue>, order: seq<string>, k: string, item: Item)
    requires forall i :: 0 <= i < |order| ==> order[i] in queues
    requires k in queues
    ensures forall i :: 0 <= i < |order + [k]| ==> (order + [k])[i] in queues
    ensures PostReleases(queues, order + [k], item) == PostReleases(queues, order, item) + PostOne(queues[k], item).releases
  {
    assert (order + [k])[..|order|] == order;
  }

  /** `order` visits every key of `keys` exactly once. */
  ghost predicate IsOrdering(order: seq<string>, keys: set<string>)
  {
    && (forall x :: x in order <==> x in keys)
    && (forall i, j :: 0 <= i < j < |order| ==> order[i] != order[j])
  }

  /** A topic post keeps the topic invariant and every subscriber's cursor. */
  lemma PostAllPreservesInvariants(st: TopicState, item: Item)
    requires TopicValid(st)
    ensures var st' := TopicState(PostedAll(st.queues, item), st.deps);
      && TopicValid(st')
      && (AllHaveCursors(st) ==> AllHaveCursors(st'))
      && forall k :: k in st.queues ==> st'.queues[k].cursors == st.queues[k].cursors
  {
    forall k | k in st.queues
      ensures PostOne(st.queues[k], item).queue.WellFormed()
      ensures PostOne(st.queues[k], item).queue.cursors == st.queues[k].cursors
    {
      PostPreservesWellFormed(st.queues[k], item);
    }
  }

  /** `pull` on a topic: resolve the subscriber's queue and pull there. */
  function PullTopic(st: TopicState, name: string, timeout: int): (r: (TopicState, Blocking<PullResult>))
    requires Resolves(st, name)
    ensures r.0.deps == st.deps && r.0.queues.Keys == st.queues.Keys
    ensures var q := st.queues[Owner(st, name)];
      (r.1.Returns? && r.1.value.Pulled? <==> name in q.cursors && q.cursors[name] < |q.items|)
      && (r.1.Returns? && r.1.value.Pulled? ==> r.1.value.item == q.items[q.cursors[name]])
  {
    var o := Owner(st, name);
    (st.(queues := st.queues[o := AfterPull(st.queues[o], name, timeout)]),
     PullOutcome(st.queues[o], name, timeout))
  }

  /** `decIdx` may only rewind a cursor that is above 0 (the source's counter is unsigned). */
  predicate CanRewind(st: TopicState, name: string)
  {
    Resolves(st, name) &&
    var q := st.queues[Owner(st, name)];
    name in q.cursors ==> q.cursors[name] > 0
  }

  /** `decIdx` on a topic. */
  function RewindTopic(st: TopicState, name: string): (r: (TopicState, bool))
    requires CanRewind(st, name)
    ensures r.0.deps == st.deps && r.0.queues.Keys == st.queues.Keys
    ensures r.1 <==> name in st.queues[Owner(st, name)].cursors
    ensures !r.1 ==> r.0 == st
    ensures r.1 ==>
      && r.0.queues[Owner(st, name)] == Rewound(st.queues[Owner(st, name)], name)
      && forall k :: k in st.queues && k != Owner(st, name) ==> r.0.queues[k] == st.queues[k]
  {
    var o := Owner(st, name);
    assert st.queues[o := st.queues[o]] == st.queues;
    (st.(queues := st.queues[o := Rewound(st.queues[o], name)]), name in st.queues[o].cursors)
  }

  /** `clearProcessedPosts` on a topic. */
  ghost function CollectTopic(st: TopicState, name: string): (r: (TopicState, nat))
    requires Resolves(st, name)
    ensures r.0.deps == st.deps && r.0.queues.Keys == st.queues.Keys
    ensures var o := Owner(st, name);
      |r.0.queues[o].items| + r.1 == |st.queues[o].items|
  {
    var o := Owner(st, name);
    (st.(queues := st.queues[o := Collected(st.queues[o])]), GcCount(st.queues[o]))
  }

  /**
   * On a topic, a pull followed by its rewind restores the topic, and the
   * next pull returns the same item.
   */
  lemma TopicPullThenRewindRestores(st: TopicState, name: string, timeout: int)
    requires Resolves(st, name)
    requires PullTopic(st, name, timeout).1.Returns? && PullTopic(st, name, timeout).1.value.Pulled?
    ensures var st' := PullTopic(st, name, timeout).0;
      && CanRewind(st', name)
      && RewindTopic(st', name) == (st, true)
      && PullTopic(RewindTopic(st', name).0, name, timeout).1 == PullTopic(st, name, timeout).1
  {
    var o := Owner(st, name);
    var q := st.queues[o];
    CancelledPullIsUndone(q, name, timeout, timeout);
    var st' := PullTopic(st, name, timeout).0;
    assert Owner(st', name) == o;
    assert st'.queues[o := Rewound(st'.queues[o], name)] == st.queues;
  }

  /** Pulling keeps the topic invariants and touches only the caller's queue. */
  lemma PullPreservesInvariants(st: TopicState, name: string, timeout: int)
    requires TopicValid(st) && Resolves(st, name)
    ensures var st' := PullTopic(st, name, timeout).0;
      && TopicValid(st')
      && (AllHaveCursors(st) ==> AllHaveCursors(st'))
      && st'.deps == st.deps && st'.queues.Keys == st.queues.Keys
      && forall k :: k in st.queues && k != Owner(st, name) ==> st'.queues[k] == st.queues[k]
  {
    PullPreservesWellFormed(st.queues[Owner(st, name)], name, timeout);
  }

  /** Rewinding keeps the topic invariants and touches only the caller's queue. */
  lemma RewindPreservesInvariants(st: TopicState, name: string)
    requires TopicValid(st) && CanRewind(st, name)
    ensures var st' := RewindTopic(st, name).0;
      && TopicValid(st')
      && (AllHaveCursors(st) ==> AllHaveCursors(st'))
      && st'.deps == st.deps && st'.queues.Keys == st.queues.Keys
      && forall k :: k in st.queues && k != Owner(st, name) ==> st'.queues[k] == st.queues[k]
  {
  }

  /** Collecting keeps the topic invariants and touches only the caller's queue. */
  lemma CollectPreservesInvariants(st: TopicState, name: string)
    requires TopicValid(st) && Resolves(st, name)
    ensures var st' := CollectTopic(st, name).0;
      && TopicValid(st')
      && (AllHaveCursors(st) ==> AllHaveCursors(st'))
      && st'.deps == st.deps && st'.queues.Keys == st.queues.Keys
      && forall k :: k in st.queues && k != Owner(st, name) ==> st'.queues[k] == st.queues[k]
  {
    GcKeepsUnreadEntries(st.queues[Owner(st, name)]);
  }

  /** With every subscriber holding a cursor, a pull on a resolvable name never reports "not subscribed". */
  lemma KnownSubscriberIsSubscribed(st: TopicState, name: string, timeout: int)
    requires AllHaveCursors(st) && Resolves(st, name)
    ensures PullTopic(st, name, timeout).1 != Returns(NotSubscribed)
  {
  }

  /** Adding the sizes of two sets counts every element of their union at least once. */
  lemma {:induction false} CountBoundsNames(a: set<string>, b: set<string>)
    ensures |a + b| <= |a| + |b|
    decreases |b|
  {
    if b != {} {
      var x :| x in b;
      CountBoundsNames(a, b - {x});
      assert a + b == (a + (b - {x})) + {x};
    }
  }

  class Topic {
    const name: string
    var queues: map<string, TopicQueue>
    var deps: map<string, string>

    function State(): TopicState
      reads this
    {
      TopicState(queues, deps)
    }

    ghost predicate Valid()
      reads this
    {
      TopicValid(State())
    }

    /** The subscriber count: owned queues plus dependents. */
    function Size(): (n: nat)
      reads this
      ensures n == 0 <==> queues == map[] && deps == map[]
      ensures n >= |queues.Keys + deps.Keys|
    {
      CountBoundsNames(queues.Keys, deps.Keys);
      |queues| + |deps|
    }

    constructor (name: string)
      ensures this.name == name && queues == map[] && deps == map[]
      ensures Valid() && AllHaveCursors(State())
    {
      this.name := name;
      queues := map[];
      deps := map[];
    }

    method Subscribe(subscriber: string, dl: seq<string>, maxSize: nat) returns (r: Blocking<bool>)
      requires Valid()
      modifies this
      ensures Valid()
      ensures (State(), r) == Subscribed(old(State()), subscriber, dl, maxSize)
    {
      SubscribePreservesInvariants(State(), subscriber, dl, maxSize);
      if |dl| > 0 {
        if subscriber in deps {
          return Returns(true);
        }
        var found := FindOwned(dl, queues);
        if found.None? {
          return Waits;
        }
        var parent := dl[found.value];
        deps := deps[subscriber := parent];
        var q := queues[parent];
        queues := queues[parent := q.(cursors := q.cursors[subscriber := 0])];
        r := Returns(true);
      } else if subscriber !in queues {
        queues := queues[subscriber := OwnQueue(subscriber, maxSize)];
        r := Returns(true);
      } else {
        r := Returns(true);
      }
    }

    /**
     * Posts the item to every owned queue, in the map's (unspecified) order;
     * an eviction releases the evicted entry's buffer on the registry.
     */
    method Post(item: Item, shm: ShmManager) returns (ghost order: seq<string>)
      requires Valid() && shm.Valid()
      modifies this, shm, shm.buffers.Values
      ensures Valid() && shm.Valid() && shm.buffers.Values <= old(shm.buffers.Values)
      ensures deps == old(deps)
      ensures queues == PostedAll(old(queues), item)
      ensures IsOrdering(order, old(queues).Keys)
      ensures shm.View() == ApplyReleases(old(shm.View()), PostReleases(old(queues), order, item))
    {
      PostAllPreservesInvariants(State(), item);
      var posted;
      posted, order := PostToEveryQueue(queues, item, shm);
      ghost var v := shm.View();
      queues := posted;
      assert shm.View() == v;
    }

    /** Reads the entry at the subscriber's cursor and advances the cursor. */
    method Pull(subscriber: string, timeout: int) returns (r: Blocking<PullResult>)
      requires Valid() && Resolves(State(), subscriber)
      modifies this
      ensures Valid()
      ensures (State(), r) == PullTopic(old(State()), subscriber, timeout)
    {
      PullPreservesInvariants(State(), subscriber, timeout);
      var owner := if subscriber in deps then deps[subscriber] else subscriber;
      var q := queues[owner];
      assert queues[owner := q] == queues;
      assert PullTopic(State(), subscriber, timeout)
          == (State().(queues := queues[owner := AfterPull(q, subscriber, timeout)]), PullOutcome(q, subscriber, timeout));
      if subscriber !in q.cursors {
        assert AfterPull(q, subscriber, timeout) == q;
        return Returns(NotSubscribed);
      }
      var c := q.cursors[subscriber];
      if c >= |q.items| {
        assert AfterPull(q, subscriber, timeout) == q;
        if timeout < 0 {
          return Waits;
        }
        return Returns(TimedOut);
      }
      r := Returns(Pulled(q.items[c]));
      queues := queues[owner := q.(cursors := q.cursors[subscriber := c + 1])];
    }

    /** Moves the subscriber's cursor back by one. */
    method DecIdx(subscriber: string) returns (ok: bool)
      requires Valid() && CanRewind(State(), subscriber)
      modifies this
      ensures Valid()
      ensures (State(), ok) == RewindTopic(old(State()), subscriber)
    {
      RewindPreservesInvariants(State(), subscriber);
      var owner := if subscriber in deps then deps[subscriber] else subscriber;
      var q := queues[owner];
      assert queues[owner := q] == queues;
      assert RewindTopic(State(), subscriber)
          == (State().(queues := queues[owner := Rewound(q, subscriber)]), subscriber in q.cursors);
      if subscriber !in q.cursors {
        return false;
      }
      queues := queues[owner := q.(cursors := q.cursors[subscriber := q.cursors[subscriber] - 1])];
      ok := true;
    }

    /**
     * Pops the entries every cursor has passed (at most the maximum size)
     * and moves every cursor down by the number popped.
     */
    method ClearProcessedPosts(subscriber: string) returns (popped: nat)
      requires Valid() && Resolves(State(), subscriber)
      modifies this
      ensures Valid()
      ensures (State(), popped) == CollectTopic(old(State()), subscriber)
    {
      CollectPreservesInvariants(State(), subscriber);
      var owner := if subscriber in deps then deps[subscriber] else subscriber;
      var q := queues[owner];
      var minIdx := MinCursorOf(q.cursors, q.maxSize);
      MinOfUnique(q.cursors.Values, q.maxSize, minIdx, GcBound(q));
      var items;
      items, popped := PopFront(q.items, minIdx);
      var cursors := q.cursors;
      if popped > 0 {
        cursors := ShiftCursors(cursors, popped);
      }
      assert popped == 0 ==> Shifted(q.cursors, 0) == q.cursors;
      assert popped == GcCount(q) && q.(items := items, cursors := cursors) == Collected(q);
      queues := queues[owner := q.(items := items, cursors := cursors)];
    }
  }

  /**
   * The dependency search of `subscribe`: scans the list in order and stops
   * at the first name that owns a queue.
   */
  method FindOwned(dl: seq<string>, queues: map<string, TopicQueue>) returns (found: Option<nat>)
    ensures found == FirstOwned(dl, queues)
  {
    found := None;
    var i := 0;
    while i < |dl| && found.None?
      invariant 0 <= i <= |dl|
      invariant found.None? ==> forall j :: 0 <= j < i ==> dl[j] !in queues
      invariant found.Some? ==> found.value < |dl| && dl[found.value] in queues
      invariant found.Some? ==> forall j :: 0 <= j < found.value ==> dl[j] !in queues
    {
      if dl[i] in queues {
        found := Some(i);
      }
      i := i + 1;
    }
    ghost var expected := FirstOwned(dl, queues);
    if found.None? {
      assert expected.None?;
    } else {
      assert expected == found;
    }
  }

  /**
   * The pop loop of `clearProcessedPosts`: pops the front entry `bound`
   * times, stopping early once the queue is empty.
   */
  method PopFront(items: seq<Item>, bound: nat) returns (rest: seq<Item>, popped: nat)
    ensures popped == if bound < |items| then bound else |items|
    ensures rest == items[popped..]
  {
    rest := items;
    popped := 0;
    var i := 0;
    while i < bound
      invariant 0 <= i <= bound
      invariant popped == if i < |items| then i else |items|
      invariant rest == items[popped..]
    {
      if rest != [] {
        rest := rest[1..];
        popped := popped + 1;
      }
      i := i + 1;
    }
  }

  /**
   * The loop of `post`: visits every queue once, in an unspecified order,
   * and posts the item to it.
   */
  method PostToEveryQueue(queues: map<string, TopicQueue>, item: Item, shm: ShmManager)
    returns (queues': map<string, TopicQueue>, ghost order: seq<string>)
    requires shm.Valid()
    modifies shm, shm.buffers.Values
    ensures shm.Valid() && shm.buffers.Values <= old(shm.buffers.Values)
    ensures queues' == PostedAll(queues, item)
    ensures IsOrdering(order, queues.Keys)
    ensures shm.View() == ApplyReleases(old(shm.View()), PostReleases(queues, order, item))
  {
    ghost var v0 := shm.View();
    queues' := queues;
    var pending := queues.Keys;
    order := [];
    while pending != {}
      invariant pending <= queues.Keys
      invariant queues' == PostedExcept(queues, item, pending)
      invariant forall x :: x in order <==> x in queues && x !in pending
      invariant forall i, j :: 0 <= i < j < |order| ==> order[i] != order[j]
      invariant shm.Valid() && shm.buffers.Values <= old(shm.buffers.Values)
      invariant shm.View() == ApplyReleases(v0, PostReleases(queues, order, item))
      decreases pending
    {
      var k :| k in pending;
      assert queues'[k] == queues[k];
      ghost var v1 := shm.View();
      var q' := PostToQueue(queues'[k], item, shm);
      PostLoopStep(queues, item, pending, order, k, v0, v1);
      queues' := queues'[k := q'];
      order := order + [k];
      pending := pending - {k};
    }
    assert PostedExcept(queues, item, {}) == PostedAll(queues, item);
  }

  /**
   * One pass of `post`'s loop: append when the queue has room; otherwise
   * find the largest cursor and, when the entry after it is below the
   * maximum, release that entry's buffer once per cursor, erase it and append.
   */
  method PostToQueue(q: TopicQueue, item: Item, shm: ShmManager) returns (q': TopicQueue)
    requires shm.Valid()
    modifies shm, shm.buffers.Values
    ensures shm.Valid() && shm.buffers.Values <= old(shm.buffers.Values)
    ensures q' == PostOne(q, item).queue
    ensures shm.View() == ApplyReleases(old(shm.View()), PostOne(q, item).releases)
  {
    ghost var v0 := shm.View();
    if q.maxSize == 0 || |q.items| < q.maxSize {
      PostOneHasRoom(q, item, v0);
      assert shm.View() == v0;
      return q.(items := q.items + [item]);
    }
    q' := PostToFullQueue(q, item, shm);
  }

  /** `post` on a full queue: find the largest cursor, then evict past it. */
  method PostToFullQueue(q: TopicQueue, item: Item, shm: ShmManager) returns (q': TopicQueue)
    requires shm.Valid() && q.maxSize != 0 && |q.items| >= q.maxSize
    modifies shm, shm.buffers.Values
    ensures shm.Valid() && shm.buffers.Values <= old(shm.buffers.Values)
    ensures q' == PostOne(q, item).queue
    ensures shm.View() == ApplyReleases(old(shm.View()), PostOne(q, item).releases)
  {
    ghost var v0 := shm.View();
    var maxIdx := MaxCursorOf(q.cursors);
    MaxOfUnique(q.cursors.Values, maxIdx, MaxCursor(q));
    PostOneFull(q, item, v0, maxIdx + 1);
    assert shm.View() == v0;
    q' := EvictAfter(q, item, shm, maxIdx + 1);
  }

  /**
   * The full-queue half of `post`'s loop body: when `removeIdx` is below the
   * maximum, release that entry's buffer once per cursor, erase it and append.
   */
  method EvictAfter(q: TopicQueue, item: Item, shm: ShmManager, removeIdx: nat) returns (q': TopicQueue)
    requires shm.Valid() && q.maxSize <= |q.items|
    modifies shm, shm.buffers.Values
    ensures shm.Valid() && shm.buffers.Values <= old(shm.buffers.Values)
    ensures q' == if removeIdx < q.maxSize then q.(items := EraseAt(q.items, removeIdx) + [item]) else q
    ensures shm.View() == if removeIdx < q.maxSize then Released(old(shm.View()), q.items[removeIdx].bufferName, |q.cursors|) else old(shm.View())
  {
    if removeIdx < q.maxSize {
      var removed := q.items[removeIdx];
      shm.Release(removed.bufferName, |q.cursors|);
      q' := q.(items := EraseAt(q.items, removeIdx) + [item]);
    } else {
      q' := q;
    }
  }

  /** On a queue with room, a post appends and releases nothing. */
  lemma PostOneHasRoom(q: TopicQueue, item: Item, v: map<string, BufferState>)
    requires q.maxSize == 0 || |q.items| < q.maxSize
    ensures PostOne(q, item).queue == q.(items := q.items + [item])
    ensures ApplyReleases(v, PostOne(q, item).releases) == v
  {
    assert PostOne(q, item).releases == [];
  }

  /** On a full queue, a post evicts past the largest cursor when that is below the maximum, else changes nothing. */
  lemma PostOneFull(q: TopicQueue, item: Item, v: map<string, BufferState>, removeIdx: nat)
    requires q.maxSize != 0 && |q.items| >= q.maxSize && removeIdx == MaxCursor(q) + 1
    ensures PostOne(q, item).queue
         == if removeIdx < q.maxSize then q.(items := EraseAt(q.items, removeIdx) + [item]) else q
    ensures ApplyReleases(v, PostOne(q, item).releases)
         == if removeIdx < q.maxSize then Released(v, q.items[removeIdx].bufferName, |q.cursors|) else v
  {
    if removeIdx < q.maxSize {
      var rel := Release(q.items[removeIdx].bufferName, |q.cursors|);
      assert PostOne(q, item).releases == [rel];
      ApplyReleasesSnoc(v, [], rel);
      assert [] + [rel] == [rel];
    } else {
      assert PostOne(q, item).releases == [];
    }
  }

  /** Rewrites every cursor in place to `c > k ? c - k : 0`. */
  method ShiftCursors(c: map<string, nat>, k: nat) returns (r: map<string, nat>)
    ensures r == Shifted(c, k)
  {
    r := c;
    var pending := c.Keys;
    while pending != {}
      invariant pending <= c.Keys && r.Keys == c.Keys
      invariant forall s :: s in pending ==> r[s] == c[s]
      invariant forall s :: s in c && s !in pending ==> r[s] == if c[s] > k then c[s] - k else 0
      decreases pending
    {
      var s :| s in pending;
      r := r[s := if r[s] > k then r[s] - k else 0];
      pending := pending - {s};
    }
  }
}
