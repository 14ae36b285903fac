/**
 * The indexable min-priority queue that Dijkstra's algorithm drives, specified only by the
 * operations it offers: insert, pop-min, edit (decrease-key), membership and size. The heap
 * that implements it in the repository is not part of this model; its contents are a map
 * from key (a vertex) to priority.
 */
module PriorityQueues {

  /** A non-empty priority map has a key of least priority. */
  lemma {:induction false} MinPriorityExists(items: map<int, int>)
    requires items != map[]
    ensures exists k :: k in items && forall k' :: k' in items ==> items[k] <= items[k']
    decreases items.Keys
  {
    assert (forall k :: k !in items) ==> items == map[];
    var k0 :| k0 in items;
    var rest := items - {k0};
    assert forall k' :: k' in items ==> k' == k0 || k' in rest;
    if rest != map[] {
      MinPriorityExists(rest);
      var k1 :| k1 in rest && forall k' :: k' in rest ==> rest[k1] <= rest[k'];
      if items[k0] < items[k1] {
        assert forall k' :: k' in items ==> items[k0] <= items[k'];
      } else {
        assert forall k' :: k' in items ==> items[k1] <= items[k'];
      }
    }
  }

  class PQ {
    /** Each queued key with its priority; a key is queued at most once. */
    var items: map<int, int>

    constructor ()
      ensures items == map[]
    {
      items := map[];
    }

    /** `len(pq)`: the number of queued keys; zero exactly when the queue is empty. */
    function Len(): (n: nat)
      reads this
      ensures n == 0 <==> items == map[]
    {
      |items|
    }

    /** `key in pq`: whether the key is queued; a queue holding a key is not empty. */
    function Contains(key: int): (b: bool)
      reads this
      ensures b <==> key in items
      ensures b ==> Len() > 0
    {
      key in items
    }

    /** Queues a key that is not yet queued. */
    method Insert(key: int, priority: int)
      requires key !in items
      modifies this
      ensures items == old(items)[key := priority]
    {
      items := items[key := priority];
    }

    /** Decrease-key: gives a queued key a strictly lower priority. */
    method Edit(key: int, priority: int)
      requires key in items && priority < items[key]
      modifies this
      ensures items == old(items)[key := priority]
    {
      items := items[key := priority];
    }

    /** Removes and returns a key of least priority; which one among ties is unspecified. */
    method Pop() returns (key: int, priority: int)
      requires items != map[]
      modifies this
      ensures key in old(items) && priority == old(items)[key]
      ensures forall k :: k in old(items) ==> priority <= old(items)[k]
      ensures items == old(items) - {key}
    {
      MinPriorityExists(items);
      key :| key in items && forall k :: k in items ==> items[key] <= items[k];
      priority := items[key];
      items := items - {key};
    }
  }
}
