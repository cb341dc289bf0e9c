/** The LRU cache of fast nodes: a map and a recency queue updated together. */
module FastNodeCache {
  import opened ByteOrder
  import opened Tree
  import opened FastChanges

  /** A queue without one key; the order of the others stays. */
  function Without(queue: seq<Key>, key: Key): (rest: seq<Key>)
    ensures forall k :: k in rest <==> k in queue && k != key
    ensures key !in queue ==> rest == queue
  {
    if queue == [] then []
    else if queue[0] == key then Without(queue[1..], key)
    else [queue[0]] + Without(queue[1..], key)
  }

  /** Taking one key out leaves the others as they were, in order. */
  lemma {:induction false} WithoutOne(before: seq<Key>, key: Key, after: seq<Key>)
    requires key !in before && key !in after
    ensures Without(before + [key] + after, key) == before + after
  {
    var queue := before + [key] + after;
    if before == [] {
      assert queue[0] == key && queue[1..] == after && before + after == after;
    } else {
      assert queue[0] == before[0] && queue[1..] == before[1..] + [key] + after;
      WithoutOne(before[1..], key, after);
      assert before + after == [before[0]] + (before[1..] + after);
    }
  }

  ghost predicate Distinct(queue: seq<Key>) {
    forall i, j :: 0 <= i < j < |queue| ==> queue[i] != queue[j]
  }

  lemma {:induction false} WithoutKeepsDistinct(queue: seq<Key>, key: Key)
    requires Distinct(queue)
    ensures Distinct(Without(queue, key))
    ensures |Without(queue, key)| == |queue| - if key in queue then 1 else 0
  {
    if queue != [] {
      var tail := queue[1..];
      assert queue[0] !in tail;
      WithoutKeepsDistinct(tail, key);
      var rest := Without(tail, key);
      assert queue[0] !in rest;
      assert key in queue <==> key == queue[0] || key in tail;
    }
  }

  class FastNodeCache {
    var items: map<Key, FastNode>
    var queue: seq<Key>     // least recently used first

    /** The map and the queue name the same keys, each once. */
    ghost predicate Valid()
      reads this
    {
      Distinct(queue) && (forall k :: k in items <==> k in queue) && forall k :: k in items ==> items[k].key == k
    }

    constructor ()
      ensures Valid() && items == map[]
    {
      items, queue := map[], [];
    }

    method Uncache(key: Key)
      requires Valid()
      modifies this
      ensures Valid() && items == old(items) - {key} && queue == Without(old(queue), key)
    {
      if key in items {
        WithoutKeepsDistinct(queue, key);
        queue := Without(queue, key);
        items := items - {key};
      }
    }

    /** Caching a known key refreshes it; a new key pushes out the least recently used ones beyond the limit. */
    method Cache(node: FastNode, limit: nat)
      requires Valid()
      modifies this
      ensures Valid()
      ensures node.key in old(items) ==>
                queue == Without(old(queue), node.key) + [node.key] && items == old(items)[node.key := node]
      ensures node.key !in old(items) ==>
                && |queue| <= limit && (limit > 0 ==> node.key in items)
                && exists n: nat :: n <= |old(queue)| + 1 && queue == (old(queue) + [node.key])[n..]
                                    && (n > 0 ==> |queue| == limit)
      ensures forall k :: k in items ==>
                if k == node.key then items[k] == node else k in old(items) && items[k] == old(items)[k]
    {
      if node.key in items {
        WithoutKeepsDistinct(queue, node.key);
        queue := Without(queue, node.key) + [node.key];
        items := items[node.key := node];
      } else {
        queue := queue + [node.key];
        items := items[node.key := node];
        ghost var n := Evict(limit);
        assert limit > 0 ==> queue[|queue| - 1] == node.key;
      }
    }

    /**
     * The least recently used keys leave, no more than the limit asks for: every key that leaves was used before all
     * that stay.
     */
    method Evict(limit: nat) returns (ghost n: nat)
      requires Valid()
      modifies this
      ensures Valid() && n <= |old(queue)| && queue == old(queue)[n..]
      ensures |queue| <= limit && (n > 0 ==> |queue| == limit)
      ensures forall k :: k in items ==> k in old(items) && items[k] == old(items)[k]
    {
      n := 0;
      while |queue| > limit
        invariant Valid() && 0 <= n <= |old(queue)| && queue == old(queue)[n..]
        invariant n > 0 ==> |queue| >= limit
        invariant forall k :: k in items ==> k in old(items) && items[k] == old(items)[k]
        decreases |queue|
      {
        var key := queue[0];
        assert key !in queue[1..];
        queue := queue[1..];
        items := items - {key};
        n := n + 1;
      }
    }

    method Get(key: Key, promoteRecentNode: bool) returns (n: Option<FastNode>)
      requires Valid()
      modifies this
      ensures Valid() && items == old(items)
      ensures n == if key in old(items) then Some(old(items)[key]) else None
      ensures queue == if key in old(items) && promoteRecentNode then Without(old(queue), key) + [key] else old(queue)
    {
      n := None;
      if key in items {
        if promoteRecentNode {
          WithoutKeepsDistinct(queue, key);
          queue := Without(queue, key) + [key];
        }
        n := Some(items[key]);
      }
    }
  }
}
