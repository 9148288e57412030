/**
 * The request handlers of the broker's service: buffer creation, lookup and
 * release, topic registration, publish, subscriber count, subscribe and pull.
 * The transport is left out: a handler takes the request's fields as
 * parameters and returns the reply's fields; whether the client cancelled its
 * call is a parameter too.
 */
module ShmServer {
  import opened Common
  import opened TopicQueueTypes
  import opened ShmBuffers
  import opened Topics
  import opened TopicManagers

  /** 2^32: the range of the service's unsigned 32-bit counters and casts. */
  const Uint32Range: nat := 0x1_0000_0000

  /** The status a handler returns besides its reply. */
  datatype Status = Ok | Cancelled

  datatype CreateBufferReply = CreateBufferReply(result: int, name: string)

  datatype GetBufferReply = GetBufferReply(result: int, size: nat)

  datatype PullReply = PullReply(status: Status, result: int, bufferName: string, metadata: string, timestamp: nat)

  /** The reply of a pull that delivers nothing. */
  const NoItem := PullReply(Ok, -1, "", "", 0)

  // ---------------------------------------------------------------------
  // Buffer names
  // ---------------------------------------------------------------------

  function DigitChar(d: nat): (c: char)
    requires d < 10
    ensures '0' <= c <= '9' && c as int - '0' as int == d
  {
    ['0', '1', '2', '3', '4', '5', '6', '7', '8', '9'][d]
  }

  /** `std::to_string` on an unsigned value: decimal digits, most significant first. */
  function NatToString(n: nat): (s: string)
    ensures |s| >= 1
    ensures n >= 10 ==> |s| >= 2
    ensures forall i :: 0 <= i < |s| ==> '0' <= s[i] <= '9'
    decreases n
  {
    if n < 10 then [DigitChar(n)] else NatToString(n / 10) + [DigitChar(n % 10)]
  }

  /** Distinct numbers have distinct decimal spellings. */
  lemma {:induction false} NatToStringInjective(a: nat, b: nat)
    ensures NatToString(a) == NatToString(b) ==> a == b
    decreases a
  {
    var sa, sb := NatToString(a), NatToString(b);
    if sa == sb {
      if a < 10 && b < 10 {
        assert DigitChar(a) == sa[0] == DigitChar(b);
      } else if a >= 10 && b >= 10 {
        assert DigitChar(a % 10) == sa[|sa| - 1] == DigitChar(b % 10);
        assert NatToString(a / 10) == sa[..|sa| - 1] == NatToString(b / 10);
        NatToStringInjective(a / 10, b / 10);
      }
    }
  }

  /** The name `CreateBuffer` gives the buffer made when the counter reads `i`. */
  function BufferName(i: nat): (s: string)
    ensures |s| > 8 && s[..8] == "/shmsvr_"
    ensures forall k :: 8 <= k < |s| ==> '0' <= s[k] <= '9'
  {
    "/shmsvr_" + NatToString(i)
  }

  /**
   * Two counter values give the same buffer name exactly when they are equal,
   * so names repeat only once the 32-bit counter wraps.
   */
  lemma BufferNamesDistinct(i: nat, j: nat)
    ensures BufferName(i) == BufferName(j) <==> i == j
  {
    if BufferName(i) == BufferName(j) {
      assert NatToString(i) == BufferName(i)[8..];
      assert NatToString(j) == BufferName(j)[8..];
      NatToStringInjective(i, j);
    }
  }

  // ---------------------------------------------------------------------
  // What publish and pull do, over the registries as values
  // ---------------------------------------------------------------------

  /**
   * `Publish` on the topics `tv` and the buffer registry `sv`, the topic's
   * queues visited in `order`: an unknown buffer fails and changes nothing;
   * otherwise the buffer's count becomes the topic's subscriber count, and
   * either the topic posts the envelope or the buffer is released by that
   * count.  Returns the new topics, the new registry and the reply's result.
   */
  ghost function Published(tv: map<string, TopicState>, sv: map<string, BufferState>, topicName: string,
                           item: Item, order: seq<string>): (r: (map<string, TopicState>, map<string, BufferState>, int))
    requires item.bufferName in sv && CountIn(tv, topicName) > 0 ==> IsOrdering(order, tv[topicName].queues.Keys)
    ensures r.2 == 0 || r.2 == -1
    ensures r.2 == 0 <==> item.bufferName in sv && CountIn(tv, topicName) > 0
    ensures r.2 == -1 ==> r.0 == tv
    ensures item.bufferName !in sv ==> r.1 == sv
    ensures r.0.Keys == tv.Keys
  {
    var name := item.bufferName;
    if name !in sv then (tv, sv, -1)
    else
      var n := CountIn(tv, topicName);
      var counted := sv[name := sv[name].(refCount := n)];
      if n > 0 then
        var st := tv[topicName];
        (tv[topicName := TopicState(PostedAll(st.queues, item), st.deps)],
         ApplyReleases(counted, PostReleases(st.queues, order, item)), 0)
      else
        (tv, Released(counted, name, n), -1)
  }

  lemma PublishedWhenReceived(tv: map<string, TopicState>, sv: map<string, BufferState>, topicName: string,
                              item: Item, order: seq<string>)
    requires item.bufferName in sv && CountIn(tv, topicName) > 0
    requires IsOrdering(order, tv[topicName].queues.Keys)
    ensures var st := tv[topicName];
      var counted := sv[item.bufferName := sv[item.bufferName].(refCount := CountIn(tv, topicName))];
      Published(tv, sv, topicName, item, order)
        == (tv[topicName := TopicState(PostedAll(st.queues, item), st.deps)],
            ApplyReleases(counted, PostReleases(st.queues, order, item)), 0)
  {
  }

  /**
   * A publish that reaches no subscriber (unknown topic or none subscribed)
   * reports failure, leaves the topics alone and erases the buffer from the
   * registry.
   */
  lemma UnreceivedPublishErasesBuffer(tv: map<string, TopicState>, sv: map<string, BufferState>, topicName: string,
                                      item: Item, order: seq<string>)
    requires item.bufferName in sv && CountIn(tv, topicName) == 0
    ensures Published(tv, sv, topicName, item, order) == (tv, sv - {item.bufferName}, -1)
    ensures Released(sv[item.bufferName := sv[item.bufferName].(refCount := 0)], item.bufferName, 0) == sv - {item.bufferName}
  {
    var counted := sv[item.bufferName := sv[item.bufferName].(refCount := 0)];
    assert Released(counted, item.bufferName, 0) == sv - {item.bufferName};
  }

  /**
   * A publish that reaches a subscriber keeps every buffer that no eviction
   * names, with its state, except that the published buffer's count becomes
   * the subscriber count.
   */
  lemma ReceivedPublishCountsSubscribers(tv: map<string, TopicState>, sv: map<string, BufferState>, topicName: string,
                                         item: Item, order: seq<string>, b: string)
    requires item.bufferName in sv && CountIn(tv, topicName) > 0
    requires IsOrdering(order, tv[topicName].queues.Keys)
    requires b in sv
    requires forall r :: r in PostReleases(tv[topicName].queues, order, item) ==> r.bufferName != b
    ensures var sv' := Published(tv, sv, topicName, item, order).1;
      b in sv' && sv'[b] == if b == item.bufferName then sv[b].(refCount := CountIn(tv, topicName)) else sv[b]
  {
    var counted := sv[item.bufferName := sv[item.bufferName].(refCount := CountIn(tv, topicName))];
    var rs := PostReleases(tv[topicName].queues, order, item);
    PublishedWhenReceived(tv, sv, topicName, item, order);
    assert Published(tv, sv, topicName, item, order).1 == ApplyReleases(counted, rs);
    forall i | 0 <= i < |rs|
      ensures rs[i].bufferName != b
    {
      assert rs[i] in rs;
    }
    ApplyReleasesOnlyTouchesNamed(counted, rs, b);
  }

  /** The reply of a pull that delivered `item`: a failure when its buffer name is empty. */
  function DeliveryReply(item: Item): (r: PullReply)
    ensures r.result == 0 <==> item.bufferName != []
    ensures r.result == 0 ==> r == PullReply(Ok, 0, item.bufferName, item.metadata, item.timestamp)
    ensures r.result != 0 ==> r == NoItem
  {
    if item.bufferName != [] then PullReply(Ok, 0, item.bufferName, item.metadata, item.timestamp) else NoItem
  }

  /** The topics after `clearOldPosts`: the subscriber's queue is collected. */
  ghost function CollectedView(tv: map<string, TopicState>, topicName: string, subscriber: string): map<string, TopicState>
    requires topicName in tv ==> Resolves(tv[topicName], subscriber)
  {
    if topicName in tv then tv[topicName := CollectTopic(tv[topicName], subscriber).0] else tv
  }

  /**
   * The pull step of `Pull`, after collection: an unknown topic or a pull
   * that delivers nothing fails; a delivery that the client has cancelled is
   * rewound and reported as cancelled; any other delivery is replied.
   */
  function PullStep(tv: map<string, TopicState>, topicName: string, subscriber: string, timeout: int,
                    cancelled: bool): (r: (map<string, TopicState>, Blocking<PullReply>))
    requires topicName in tv ==> Resolves(tv[topicName], subscriber)
    ensures r.0.Keys == tv.Keys
    ensures r.1.Waits? ==> timeout < 0
    ensures r.1.Returns? ==> r.1.value.result == 0 || r.1.value.result == -1
    ensures r.1.Returns? && r.1.value.result == 0 ==> !cancelled && r.1.value.status == Ok
    ensures r.1.Returns? && r.1.value.status == Cancelled ==> cancelled && r.1.value.result == -1
  {
    if topicName !in tv then (tv, Returns(NoItem))
    else
      var pulled := PullTopic(tv[topicName], subscriber, timeout);
      var st', p := pulled.0, pulled.1;
      if p.Waits? then (tv[topicName := st'], Waits)
      else if !p.value.Pulled? then (tv[topicName := st'], Returns(NoItem))
      else if cancelled then
        TopicPullThenRewindRestores(tv[topicName], subscriber, timeout);
        (tv[topicName := RewindTopic(st', subscriber).0], Returns(PullReply(Cancelled, -1, "", "", 0)))
      else (tv[topicName := st'], Returns(DeliveryReply(p.value.item)))
  }

  /**
   * Only a delivery the client keeps changes the topics: a cancelled pull is
   * undone and a pull that delivers nothing moves no cursor.
   */
  lemma PullStepChangesOnlyOnDelivery(tv: map<string, TopicState>, topicName: string, subscriber: string,
                                      timeout: int, cancelled: bool)
    requires topicName in tv ==> Resolves(tv[topicName], subscriber)
    ensures var delivered := topicName in tv && PullTopic(tv[topicName], subscriber, timeout).1.Returns?
                             && PullTopic(tv[topicName], subscriber, timeout).1.value.Pulled?;
      PullStep(tv, topicName, subscriber, timeout, cancelled).0
        == if delivered && !cancelled then tv[topicName := PullTopic(tv[topicName], subscriber, timeout).0] else tv
  {
    if topicName in tv {
      var st := tv[topicName];
      var (st', p) := PullTopic(st, subscriber, timeout);
      if p.Returns? && p.value.Pulled? {
        if cancelled {
          TopicPullThenRewindRestores(st, subscriber, timeout);
        }
      } else {
        var o := Owner(st, subscriber);
        assert st.queues[o := st.queues[o]] == st.queues;
      }
    }
  }

  /**
   * A pull replies 0 exactly when the client has not cancelled and the
   * subscriber's next entry, which carries a buffer name, is delivered; the
   * reply then carries that entry.
   */
  lemma PullReplyCarriesNextEntry(tv: map<string, TopicState>, topicName: string, subscriber: string,
                                  timeout: int, cancelled: bool)
    requires topicName in tv && Resolves(tv[topicName], subscriber)
    ensures var st := tv[topicName];
      var q := st.queues[Owner(st, subscriber)];
      var r := PullStep(tv, topicName, subscriber, timeout, cancelled).1;
      (r.Returns? && r.value.result == 0) <==>
        (!cancelled && subscriber in q.cursors && q.cursors[subscriber] < |q.items|
         && q.items[q.cursors[subscriber]].bufferName != [])
    ensures var st := tv[topicName];
      var q := st.queues[Owner(st, subscriber)];
      var r := PullStep(tv, topicName, subscriber, timeout, cancelled).1;
      r.Returns? && r.value.result == 0 ==>
        var item := q.items[q.cursors[subscriber]];
        r.value == PullReply(Ok, 0, item.bufferName, item.metadata, item.timestamp)
  {
  }

  // ---------------------------------------------------------------------
  // The service
  // ---------------------------------------------------------------------

  /** Writing an entry back over a change to it gives back the map. */
  lemma RestoredEntry<V>(m: map<string, V>, k: string, x: V)
    requires k in m
    ensures m[k := x][k := m[k]] == m && m[k := m[k]] == m
  {
  }

  class ShmService {
    const topics: TopicManager
    const shm: ShmManager
    /** The counter `CreateBuffer` names its buffers with (unsigned 32-bit). */
    var count: nat

    ghost predicate Valid()
      reads this, topics, topics.topics.Values, shm
    {
      topics.Valid() && shm.Valid() && count < Uint32Range
    }

    constructor ()
      ensures Valid() && count == 0
      ensures topics.View() == map[] && shm.View() == map[]
    {
      topics := new TopicManager();
      shm := new ShmManager();
      count := 0;
    }

    /**
     * Names a new buffer after the counter, which moves on whatever happens,
     * and allocates it; on success the registry files it with no reference.
     */
    method CreateBuffer(size: nat, osSucceeds: bool) returns (status: Status, reply: CreateBufferReply)
      requires Valid()
      modifies this, shm
      ensures Valid()
      ensures count == (old(count) + 1) % Uint32Range
      ensures status == Ok <==> osSucceeds
      ensures osSucceeds ==>
        reply == CreateBufferReply(0, BufferName(old(count))) &&
        shm.View() == old(shm.View())[BufferName(old(count)) := BufferState(true, size, 0)]
      ensures !osSucceeds ==> reply == CreateBufferReply(-1, "") && shm.View() == old(shm.View())
    {
      var name := BufferName(count);
      count := (count + 1) % Uint32Range;
      status, reply := AllocateBuffer(name, size, osSucceeds);
    }

    /** The part of `CreateBuffer` after naming: allocate the buffer and file it. */
    method AllocateBuffer(name: string, size: nat, osSucceeds: bool) returns (status: Status, reply: CreateBufferReply)
      requires Valid()
      modifies shm
      ensures Valid()
      ensures status == Ok <==> osSucceeds
      ensures osSucceeds ==>
        reply == CreateBufferReply(0, name) && shm.View() == old(shm.View())[name := BufferState(true, size, 0)]
      ensures !osSucceeds ==> reply == CreateBufferReply(-1, "") && shm.View() == old(shm.View())
    {
      var buffer := new ShmBuffer(name);
      var ok := buffer.Allocate(size, osSucceeds);
      if !ok {
        return Cancelled, CreateBufferReply(-1, "");
      }
      shm.Add(buffer);
      status, reply := Ok, CreateBufferReply(0, name);
    }

    /** Reports a buffer's size, cast to 32 bits, or -1 for an unknown name. */
    method GetBuffer(name: string) returns (reply: GetBufferReply)
      requires Valid()
      ensures reply.result == 0 <==> name in shm.View()
      ensures name in shm.View() ==> reply.size == shm.View()[name].size % Uint32Range
      ensures name !in shm.View() ==> reply == GetBufferReply(-1, 0)
    {
      var buffer := shm.GetBuffer(name);
      if buffer != null {
        var size := buffer.GetSize();
        reply := GetBufferReply(0, size % Uint32Range);
      } else {
        reply := GetBufferReply(-1, 0);
      }
    }

    /** Drops one reference to the named buffer; always reports success. */
    method ReleaseBuffer(name: string) returns (result: int)
      requires Valid()
      modifies shm, shm.buffers.Values
      ensures Valid()
      ensures result == 0
      ensures shm.View() == Released(old(shm.View()), name, 1)
    {
      shm.Release(name);
      result := 0;
    }

    /** Registers the topic (an existing one is kept); always reports success. */
    method RegisterTopic(name: string) returns (result: int)
      requires Valid()
      modifies topics
      ensures Valid()
      ensures result == 0
      ensures topics.View() == if name in old(topics.View()) then old(topics.View())
                               else old(topics.View())[name := TopicState(map[], map[])]
    {
      result := 0;
      var _ := topics.AddTopic(name);
    }

    /**
     * Publishes an existing buffer: its count is set to the topic's
     * subscriber count and the envelope is posted; when nobody receives it
     * the buffer is released by that count.
     */
    method Publish(topicName: string, bufferName: string, metadata: string, timestamp: nat)
      returns (result: int, ghost order: seq<string>)
      requires Valid()
      modifies shm, shm.buffers.Values, topics.topics.Values
      ensures Valid()
      ensures bufferName in old(shm.View()) && CountIn(old(topics.View()), topicName) > 0 ==>
        IsOrdering(order, old(topics.View())[topicName].queues.Keys)
      ensures (topics.View(), shm.View(), result)
           == Published(old(topics.View()), old(shm.View()), topicName, Item(bufferName, metadata, timestamp), order)
    {
      var buffer := shm.GetBuffer(bufferName);
      if buffer == null {
        assert bufferName !in shm.View();
        return -1, [];
      }
      result, order := PublishBuffer(topicName, buffer, Item(bufferName, metadata, timestamp));
    }

    /** `Publish` once the buffer is found in the registry. */
    method PublishBuffer(topicName: string, buffer: ShmBuffer, msg: Item) returns (result: int, ghost order: seq<string>)
      requires Valid() && msg.bufferName in shm.buffers && shm.buffers[msg.bufferName] == buffer
      modifies shm, shm.buffers.Values, topics.topics.Values
      ensures Valid()
      ensures CountIn(old(topics.View()), topicName) > 0 ==> IsOrdering(order, old(topics.View())[topicName].queues.Keys)
      ensures (topics.View(), shm.View(), result) == Published(old(topics.View()), old(shm.View()), topicName, msg, order)
    {
      ghost var tv0, sv0 := topics.View(), shm.View();
      var subCount := topics.SubscriberCount(topicName);
      SetCount(buffer, subCount);
      ghost var counted := shm.View();
      assert counted == sv0[msg.bufferName := sv0[msg.bufferName].(refCount := subCount)];
      assert topics.View() == tv0 && subCount == CountIn(tv0, topicName);
      var ok: bool;
      ok, order := topics.Publish(topicName, msg, shm);
      if ok {
        PublishedWhenReceived(tv0, sv0, topicName, msg, order);
        result := 0;
      } else {
        assert shm.View() == counted && topics.View() == tv0 && subCount == 0;
        ReleaseBy(msg.bufferName, subCount);
        UnreceivedPublishErasesBuffer(tv0, sv0, topicName, msg, order);
        assert shm.View() == sv0 - {msg.bufferName};
        result := -1;
      }
    }

    /** `release(name, n)` on the registry, which leaves the topics alone. */
    method ReleaseBy(name: string, n: int)
      requires Valid()
      modifies shm, shm.buffers.Values
      ensures Valid() && topics.View() == old(topics.View())
      ensures shm.View() == Released(old(shm.View()), name, n)
    {
      ghost var tv := topics.View();
      shm.Release(name, n);
      assert topics.View() == tv && topics.Valid();
    }

    /** `setRefCount` on a registered buffer, seen from the registry; the topics are left alone. */
    method SetCount(buffer: ShmBuffer, n: nat)
      requires Valid() && buffer.name in shm.buffers && shm.buffers[buffer.name] == buffer
      modifies buffer
      ensures Valid() && topics.View() == old(topics.View())
      ensures shm.View() == old(shm.View())[buffer.name := old(buffer.State()).(refCount := n)]
    {
      buffer.SetRefCount(n);
      assert shm.View() == old(shm.View())[buffer.name := buffer.State()];
    }

    /** Reports the topic's subscriber count (0 for an unknown topic); always succeeds. */
    method GetSubscriberCount(topicName: string) returns (result: int, numSubs: nat)
      requires Valid()
      ensures result == 0
      ensures numSubs == topics.SubscriberCount(topicName)
    {
      numSubs := topics.SubscriberCount(topicName);
      result := 0;
    }

    /**
     * Subscribes on the topic: 0 on success, -1 when the topic is unknown; a
     * dependent subscriber whose dependencies own no queue yet waits.
     */
    method Subscribe(topicName: string, subscriber: string, dl: seq<string>, maxSize: nat) returns (r: Blocking<int>)
      requires Valid()
      modifies topics.topics.Values
      ensures Valid()
      ensures topicName !in old(topics.View()) ==> r == Returns(-1) && topics.View() == old(topics.View())
      ensures topicName in old(topics.View()) ==>
        var (st', s) := Subscribed(old(topics.View())[topicName], subscriber, dl, maxSize);
        && topics.View() == old(topics.View())[topicName := st']
        && r == if s.Waits? then Waits else Returns(0)
    {
      if topicName in topics.topics {
        SubscribePreservesInvariants(topics.View()[topicName], subscriber, dl, maxSize);
      }
      var s := topics.Subscribe(topicName, subscriber, dl, maxSize);
      match s
      case Waits => r := Waits;
      case Returns(ok) => r := Returns(if ok then 0 else -1);
    }

    /**
     * Collects the subscriber's passed entries, then pulls; a delivery is
     * undone when the client has cancelled.
     */
    method Pull(topicName: string, subscriber: string, timeout: int, cancelled: bool) returns (r: Blocking<PullReply>)
      requires Valid()
      requires topicName in topics.View() ==> Resolves(topics.View()[topicName], subscriber)
      modifies topics.topics.Values
      ensures Valid()
      ensures (topics.View(), r) == PullStep(CollectedView(old(topics.View()), topicName, subscriber), topicName, subscriber, timeout, cancelled)
    {
      var _ := topics.ClearOldPosts(topicName, subscriber);
      r := PullCollected(topicName, subscriber, timeout, cancelled);
    }

    /** The second half of `Pull`: the pull itself and its cancellation. */
    method PullCollected(topicName: string, subscriber: string, timeout: int, cancelled: bool) returns (r: Blocking<PullReply>)
      requires topics.Valid()
      requires topicName in topics.View() ==> Resolves(topics.View()[topicName], subscriber)
      modifies topics.topics.Values
      ensures topics.Valid()
      ensures (topics.View(), r) == PullStep(old(topics.View()), topicName, subscriber, timeout, cancelled)
    {
      ghost var v0 := topics.View();
      var p := topics.Pull(topicName, subscriber, timeout);
      if p.Waits? {
        return Waits;
      }
      if !p.value.Pulled? {
        return Returns(NoItem);
      }
      if cancelled {
        TopicPullThenRewindRestores(v0[topicName], subscriber, timeout);
        UndoPull(topicName, subscriber, v0[topicName], timeout);
        RestoredEntry(v0, topicName, PullTopic(v0[topicName], subscriber, timeout).0);
        return Returns(PullReply(Cancelled, -1, "", "", 0));
      }
      r := Returns(DeliveryReply(p.value.item));
    }

    /** `cancelPull` right after a delivering pull from `st0` on the topic: the topic is `st0` again. */
    method UndoPull(topicName: string, subscriber: string, ghost st0: TopicState, timeout: int)
      requires topics.Valid() && topicName in topics.View() && Resolves(st0, subscriber)
      requires PullTopic(st0, subscriber, timeout).1.Returns? && PullTopic(st0, subscriber, timeout).1.value.Pulled?
      requires topics.View()[topicName] == PullTopic(st0, subscriber, timeout).0
      modifies topics.topics.Values
      ensures topics.Valid()
      ensures topics.View() == old(topics.View())[topicName := st0]
    {
      TopicPullThenRewindRestores(st0, subscriber, timeout);
      var _ := topics.CancelPull(topicName, subscriber);
    }
  }
}
