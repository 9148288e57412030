/**
 * The registry of topics: a map from topic name to `Topic`.  Every operation
 * looks the topic up and forwards to it; an unknown topic is reported, never
 * created, except by `AddTopic`.
 */
module TopicManagers {
  import opened Common
  import opened TopicQueueTypes
  import opened ShmBuffers
  import opened Topics

  /**
   * A topic's subscriber count over the topics as values: owned queues plus
   * dependents, or 0 for an unknown topic.  It is 0 exactly when nobody is
   * subscribed, and counts every subscribed name at least once.
   */
  function CountIn(v: map<string, TopicState>, topicName: string): (n: nat)
    ensures n == 0 <==> topicName !in v || (v[topicName].queues == map[] && v[topicName].deps == map[])
    ensures topicName in v ==> n >= |v[topicName].queues.Keys + v[topicName].deps.Keys|
  {
    if topicName in v then
      CountBoundsNames(v[topicName].queues.Keys, v[topicName].deps.Keys);
      |v[topicName].queues| + |v[topicName].deps|
    else 0
  }

  class TopicManager {
    var topics: map<string, Topic>

    /** Every topic is filed under its own name and keeps its invariant. */
    ghost predicate Valid()
      reads this, topics.Values
    {
      forall t :: t in topics ==> topics[t].name == t && topics[t].Valid()
    }

    /** The topics as values. */
    function View(): map<string, TopicState>
      reads this, topics.Values
    {
      map t | t in topics :: topics[t].State()
    }

    /** The subscriber count `getSubscriberCount` reports. */
    function SubscriberCount(topicName: string): (n: nat)
      reads this, topics.Values
      ensures n == CountIn(View(), topicName)
    {
      if topicName in topics then topics[topicName].Size() else 0
    }

    constructor ()
      ensures Valid() && topics == map[] && View() == map[]
    {
      topics := map[];
    }

    /** Registers a topic with no subscriber; an existing topic is kept.  Always succeeds. */
    method AddTopic(topicName: string) returns (ok: bool)
      requires Valid()
      modifies this
      ensures Valid() && ok
      ensures topicName in old(topics) ==> topics == old(topics)
      ensures topicName !in old(topics) ==> topicName in topics && topics == old(topics)[topicName := topics[topicName]] && fresh(topics[topicName])
      ensures View() == if topicName in old(View()) then old(View()) else old(View())[topicName := TopicState(map[], map[])]
    {
      if topicName in topics {
        return true;
      }
      var t := new Topic(topicName);
      forall u | u in topics
        ensures topics[u].State() == old(topics[u].State()) && topics[u].Valid()
      {
      }
      topics := topics[topicName := t];
      ok := true;
      assert View() == old(View())[topicName := t.State()];
    }

    /**
     * Posts the item on the topic.  Fails, changing nothing, when the topic is
     * unknown or has no subscriber.
     */
    method Publish(topicName: string, item: Item, shm: ShmManager) returns (ok: bool, ghost order: seq<string>)
      requires Valid() && shm.Valid()
      modifies topics.Values, shm, shm.buffers.Values
      ensures Valid() && shm.Valid() && topics == old(topics) && shm.buffers.Values <= old(shm.buffers.Values)
      ensures ok <==> old(SubscriberCount(topicName)) > 0
      ensures !ok ==> View() == old(View()) && shm.View() == old(shm.View())
      ensures ok ==> var st := old(View())[topicName];
        && IsOrdering(order, st.queues.Keys)
        && View() == old(View())[topicName := TopicState(PostedAll(st.queues, item), st.deps)]
        && shm.View() == ApplyReleases(old(shm.View()), PostReleases(st.queues, order, item))
    {
      if topicName !in topics || topics[topicName].Size() == 0 {
        return false, [];
      }
      order := PostOnTopic(topicName, item, shm);
      ok := true;
    }

    /** The successful half of `publish`: the known topic posts the item. */
    method PostOnTopic(topicName: string, item: Item, shm: ShmManager) returns (ghost order: seq<string>)
      requires Valid() && shm.Valid() && topicName in topics
      modifies topics[topicName], shm, shm.buffers.Values
      ensures Valid() && shm.Valid() && topics == old(topics) && shm.buffers.Values <= old(shm.buffers.Values)
      ensures var st := old(View())[topicName];
        && IsOrdering(order, st.queues.Keys)
        && View() == old(View())[topicName := TopicState(PostedAll(st.queues, item), st.deps)]
        && shm.View() == ApplyReleases(old(shm.View()), PostReleases(st.queues, order, item))
    {
      var t := topics[topicName];
      ghost var st := t.State();
      order := t.Post(item, shm);
      forall u | u in topics && u != topicName
        ensures topics[u].State() == old(topics[u].State()) && topics[u].Valid()
      {
        assert topics[u].name != t.name;
      }
      assert View() == old(View())[topicName := t.State()];
    }

    /**
     * Subscribes on the topic; an unknown topic returns false and changes
     * nothing.
     */
    method Subscribe(topicName: string, subscriber: string, dl: seq<string>, maxSize: nat) returns (r: Blocking<bool>)
      requires Valid()
      modifies topics.Values
      ensures Valid() && topics == old(topics)
      ensures topicName !in old(View()) ==> r == Returns(false) && View() == old(View())
      ensures topicName in old(View()) ==>
        var (st', r') := Subscribed(old(View())[topicName], subscriber, dl, maxSize);
        r == r' && View() == old(View())[topicName := st']
    {
      if topicName !in topics {
        return Returns(false);
      }
      var t := topics[topicName];
      r := t.Subscribe(subscriber, dl, maxSize);
      forall u | u in topics && u != topicName
        ensures topics[u].State() == old(topics[u].State()) && topics[u].Valid()
      {
        assert topics[u].name != t.name;
      }
      assert View() == old(View())[topicName := t.State()];
    }

    /** Pulls for the subscriber on the topic; an unknown topic is reported as such. */
    method Pull(topicName: string, subscriber: string, timeout: int) returns (r: Blocking<PullResult>)
      requires Valid()
      requires topicName in View() ==> Resolves(View()[topicName], subscriber)
      modifies topics.Values
      ensures Valid() && topics == old(topics)
      ensures topicName !in old(View()) ==> r == Returns(Unregistered) && View() == old(View())
      ensures topicName in old(View()) ==>
        var (st', r') := PullTopic(old(View())[topicName], subscriber, timeout);
        r == r' && View() == old(View())[topicName := st']
    {
      if topicName !in topics {
        return Returns(Unregistered);
      }
      var t := topics[topicName];
      r := t.Pull(subscriber, timeout);
      forall u | u in topics && u != topicName
        ensures topics[u].State() == old(topics[u].State()) && topics[u].Valid()
      {
        assert topics[u].name != t.name;
      }
      assert View() == old(View())[topicName := t.State()];
    }

    /** Rewinds the subscriber's cursor on the topic by one; false for an unknown topic or subscriber. */
    method CancelPull(topicName: string, subscriber: string) returns (ok: bool)
      requires Valid()
      requires topicName in View() ==> CanRewind(View()[topicName], subscriber)
      modifies topics.Values
      ensures Valid() && topics == old(topics)
      ensures topicName !in old(View()) ==> !ok && View() == old(View())
      ensures topicName in old(View()) ==>
        var (st', ok') := RewindTopic(old(View())[topicName], subscriber);
        ok == ok' && View() == old(View())[topicName := st']
    {
      if topicName !in topics {
        return false;
      }
      var t := topics[topicName];
      ok := t.DecIdx(subscriber);
      forall u | u in topics && u != topicName
        ensures topics[u].State() == old(topics[u].State()) && topics[u].Valid()
      {
        assert topics[u].name != t.name;
      }
      assert View() == old(View())[topicName := t.State()];
    }

    /**
     * Collects the entries every reader of the subscriber's queue has passed;
     * true whenever the topic exists, whatever was collected.
     */
    method ClearOldPosts(topicName: string, subscriber: string) returns (ok: bool)
      requires Valid()
      requires topicName in View() ==> Resolves(View()[topicName], subscriber)
      modifies topics.Values
      ensures Valid() && topics == old(topics)
      ensures ok <==> topicName in old(View())
      ensures !ok ==> View() == old(View())
      ensures ok ==> View() == old(View())[topicName := CollectTopic(old(View())[topicName], subscriber).0]
    {
      if topicName !in topics {
        return false;
      }
      var t := topics[topicName];
      var _ := t.ClearProcessedPosts(subscriber);
      ok := true;
      forall u | u in topics && u != topicName
        ensures topics[u].State() == old(topics[u].State()) && topics[u].Valid()
      {
        assert topics[u].name != t.name;
      }
      assert View() == old(View())[topicName := t.State()];
    }
  }
}
