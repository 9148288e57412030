/**
 * The message envelope and the delivery queue's representation with its
 * inline predicates: a queue is a sequence of envelopes, a maximum size
 * (0 means unbounded) and one read cursor per subscriber sharing it.
 */
module TopicQueueTypes {

  /** One published message: the buffer it refers to, opaque metadata and a timestamp. */
  datatype Item = Item(bufferName: string, metadata: string, timestamp: nat)

  /**
   * A default-constructed envelope.  Its name and metadata are empty strings;
   * its timestamp is left uninitialised by the source and is 0 here.
   */
  function DefaultItem(): (r: Item)
    ensures r.bufferName == [] && r.metadata == []
  {
    Item("", "", 0)
  }

  datatype TopicQueue = TopicQueue(items: seq<Item>, maxSize: nat, cursors: map<string, nat>)
  {
    /** The number of envelopes held. */
    function Size(): (n: nat)
      ensures n == |items|
      ensures n == 0 <==> items == []
    {
      |items|
    }

    /** A maximum size of 0 means the queue has no bound. */
    predicate IsUnlimited(): (b: bool)
      ensures b <==> maxSize == 0
    {
      maxSize == 0
    }

    /** Full: bounded, and holding its maximum or more. */
    predicate IsFull(): (b: bool)
      ensures b ==> maxSize > 0 && |items| >= maxSize
      ensures !b ==> maxSize == 0 || |items| < maxSize
    {
      !IsUnlimited() && Size() >= maxSize
    }

    /**
     * The queue invariant: a bounded queue holds at most its maximum, and no
     * cursor points beyond the end of the sequence.
     */
    predicate WellFormed()
    {
      && (!IsUnlimited() ==> Size() <= maxSize)
      && forall s :: s in cursors ==> cursors[s] <= Size()
    }
  }

  /** A freshly constructed queue: empty, with no cursor yet. */
  function NewTopicQueue(maxSize: nat): (q: TopicQueue)
    ensures q.items == [] && q.cursors == map[] && q.maxSize == maxSize
    ensures !q.IsFull() && q.WellFormed()
  {
    TopicQueue([], maxSize, map[])
  }

  /** An unbounded queue is never full; a bounded one is full exactly when it holds its maximum or more. */
  lemma FullExactlyAtCapacity(q: TopicQueue)
    ensures q.IsUnlimited() <==> q.maxSize == 0
    ensures q.IsUnlimited() ==> !q.IsFull()
    ensures !q.IsUnlimited() ==> (q.IsFull() <==> |q.items| >= q.maxSize)
  {
  }

  /** The test `post` uses before appending, `max == 0 || size < max`, is exactly "not full". */
  lemma AppendConditionIsNotFull(q: TopicQueue)
    ensures (q.maxSize == 0 || |q.items| < q.maxSize) <==> !q.IsFull()
  {
  }
}
