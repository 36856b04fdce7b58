/** TinySTL's bucket array threaded through a single doubly linked list
    (Dobby-master/external/TINYSTL/hash_base.h).

    All entries sit on one list, ordered by bucket.  Slot `b` of the bucket array
    points at the first list node whose bucket is at least `b`; the extra last slot
    is a null sentinel.  The ghost sequence `nodes` is the list in link order, `ks`
    the bucket number of each node, and `start[b]` the list position slot `b` points at. */
module HashBase {
  import opened Bits

  // ---------------------------------------------------------------- bucket numbers

  /** Bucket counts are 8, 64, 512, ...: eight to start with, times eight at each rehash. */
  predicate BucketCount(n: nat) {
    n == 8 || (n > 8 && n % 8 == 0 && BucketCount(n / 8))
  }

  lemma {:induction false} BucketCountIsPowerOfTwo(n: nat)
    requires BucketCount(n)
    ensures PowerOfTwo(n)
  {
    if n == 8 {
      assert PowerOfTwo(1) && PowerOfTwo(2) && PowerOfTwo(4);
    } else {
      BucketCountIsPowerOfTwo(n / 8);
      var m := n / 8;
      assert n == 8 * m && n / 2 == 4 * m && n / 2 / 2 == 2 * m && n / 2 / 2 / 2 == m;
      assert PowerOfTwo(2 * m);
      assert PowerOfTwo(4 * m);
    }
  }

  /** The bucket `hash & (n - 1)` is a slot below the sentinel. */
  function Bucket(h: nat, n: nat): (b: nat)
    requires BucketCount(n)
    ensures b == h % n && b < n
  {
    BucketCountIsPowerOfTwo(n);
    MaskIsMod(h, n);
    BitAnd(h, n - 1)
  }

  // ---------------------------------------------------------------- slot positions

  /** `start[b]` is the position of the first of the bucket numbers `ks` that is at least `b`. */
  ghost predicate Placed(ks: seq<nat>, start: seq<nat>, n: nat) {
    && |start| == n + 1
    && start[n] == |ks|
    && (forall b :: 0 <= b <= n ==> start[b] <= |ks|)
    && (forall b, i :: 0 <= b <= n && 0 <= i < start[b] ==> ks[i] < b)
    && (forall b, i :: 0 <= b <= n && start[b] <= i < |ks| ==> b <= ks[i])
  }

  lemma PlacedMonotone(ks: seq<nat>, start: seq<nat>, n: nat, b: nat, c: nat)
    requires Placed(ks, start, n) && b <= c <= n
    ensures start[b] <= start[c]
  {
    if start[c] < |ks| {
      assert c <= ks[start[c]];
    }
  }

  lemma PlacedFirst(ks: seq<nat>, start: seq<nat>, n: nat, b: nat)
    requires Placed(ks, start, n) && b <= n
    ensures start[b] < |ks| ==> b <= ks[start[b]]
  {
  }

  lemma PlacedZero(ks: seq<nat>, start: seq<nat>, n: nat)
    requires Placed(ks, start, n)
    ensures start[0] == 0
  {
    if |ks| > 0 {
      assert 0 <= ks[0];
    }
  }

  ghost function Inserted<T>(s: seq<T>, p: nat, x: T): seq<T>
    requires p <= |s|
  {
    s[..p] + [x] + s[p..]
  }

  lemma InsertedLast<T>(s: seq<T>, x: T)
    ensures Inserted(s, |s|, x) == s + [x]
  {
  }

  ghost function Removed<T>(s: seq<T>, p: nat): seq<T>
    requires p < |s|
  {
    s[..p] + s[p + 1..]
  }

  ghost function ShiftedAt(p: nat, b: nat, k: nat, up: bool): nat {
    if b <= k then p else if up then p + 1 else if p == 0 then 0 else p - 1
  }

  /** Slots above `k` move by one when an entry of bucket `k` comes or goes. */
  ghost function Shifted(start: seq<nat>, k: nat, up: bool): (r: seq<nat>)
    ensures |r| == |start|
    ensures forall b :: 0 <= b < |start| ==> r[b] == ShiftedAt(start[b], b, k, up)
  {
    seq(|start|, b requires 0 <= b < |start| => ShiftedAt(start[b], b, k, up))
  }

  lemma PlacedInsert(ks: seq<nat>, start: seq<nat>, n: nat, k: nat)
    requires Placed(ks, start, n) && k < n
    ensures Placed(Inserted(ks, start[k + 1], k), Shifted(start, k, true), n)
  {
    var p := start[k + 1];
    forall b | k < b <= n
      ensures p <= start[b]
    {
      PlacedMonotone(ks, start, n, k + 1, b);
    }
    var ks', start' := Inserted(ks, p, k), Shifted(start, k, true);
    forall b, i | 0 <= b <= n && 0 <= i < start'[b]
      ensures ks'[i] < b
    {
      if b <= k {
        PlacedMonotone(ks, start, n, b, k + 1);
        assert ks'[i] == ks[i];
      } else if i < p {
        assert ks'[i] == ks[i];
        PlacedMonotone(ks, start, n, k + 1, b);
      } else if i > p {
        assert ks'[i] == ks[i - 1];
      }
    }
    forall b, i | 0 <= b <= n && start'[b] <= i < |ks'|
      ensures b <= ks'[i]
    {
      assert b > k ==> p < start'[b];
      if i < p {
        assert ks'[i] == ks[i];
      } else if i > p {
        assert ks'[i] == ks[i - 1];
        if b <= k { PlacedMonotone(ks, start, n, b, k + 1); }
      }
    }
  }

  lemma PlacedRemove(ks: seq<nat>, start: seq<nat>, n: nat, p: nat)
    requires Placed(ks, start, n) && p < |ks| && ks[p] < n
    ensures Placed(Removed(ks, p), Shifted(start, ks[p], false), n)
  {
    var k := ks[p];
    var ks', start' := Removed(ks, p), Shifted(start, k, false);
    assert forall b :: k < b <= n ==> start[b] > p;
    assert forall b :: 0 <= b <= k ==> start[b] <= p;
    forall b, i | 0 <= b <= n && 0 <= i < start'[b]
      ensures ks'[i] < b
    {
      assert ks'[i] == if i < p then ks[i] else ks[i + 1];
    }
    forall b, i | 0 <= b <= n && start'[b] <= i < |ks'|
      ensures b <= ks'[i]
    {
      assert ks'[i] == if i < p then ks[i] else ks[i + 1];
    }
  }

  // ---------------------------------------------------------------- the linked list

  class Node<K, V> {
    const first: K
    var second: V
    var next: Node?<K, V>
    var prev: Node?<K, V>

    constructor (key: K, value: V)
      ensures first == key && second == value && next == null && prev == null
    {
      first, second, next, prev := key, value, null, null;
    }
  }

  /** The node at list position `i`, null past either end. */
  ghost function NodeAt<K, V>(nodes: seq<Node<K, V>>, i: int): Node?<K, V> {
    if 0 <= i < |nodes| then nodes[i] else null
  }

  ghost predicate Linked<K, V>(nodes: seq<Node<K, V>>)
    reads nodes`next, nodes`prev
  {
    && (forall i, j :: 0 <= i < j < |nodes| ==> nodes[i] != nodes[j])
    && (forall i {:trigger nodes[i].next} :: 0 <= i < |nodes| ==> nodes[i].next == NodeAt(nodes, i + 1))
    && (forall i {:trigger nodes[i].prev} :: 0 <= i < |nodes| ==> nodes[i].prev == NodeAt(nodes, i - 1))
  }

  /** Every slot holds the node at its start position. */
  ghost predicate Slots<K, V>(slots: seq<Node?<K, V>>, nodes: seq<Node<K, V>>, start: seq<nat>) {
    && |slots| == |start|
    && forall b :: 0 <= b < |slots| ==> slots[b] == NodeAt(nodes, start[b])
  }

  // ---------------------------------------------------------------- insertion

  /** The last node of the list, reached from the nearest non-null slot at or below `bucket`. */
  method LastNode<K, V>(buckets: array<Node?<K, V>>, n: nat, bucket: nat,
                        ghost nodes: seq<Node<K, V>>, ghost ks: seq<nat>, ghost start: seq<nat>)
    returns (prev: Node?<K, V>)
    requires buckets.Length == n + 1 && bucket < n
    requires |ks| == |nodes| && Placed(ks, start, n)
    requires Linked(nodes) && Slots(buckets[..], nodes, start)
    ensures prev == NodeAt(nodes, |nodes| - 1)
  {
    var newbucket: nat := bucket;
    while newbucket != 0 && buckets[newbucket] == null
      invariant newbucket <= bucket
    {
      newbucket := newbucket - 1;
    }
    prev := buckets[newbucket];
    assert prev == buckets[..][newbucket] == NodeAt(nodes, start[newbucket]);
    ghost var i := start[newbucket];
    if prev == null {
      PlacedZero(ks, start, n);
    }
    while prev != null && prev.next != null
      invariant prev == NodeAt(nodes, i) && (prev == null ==> |nodes| == 0)
      decreases |nodes| - i
    {
      prev := prev.next;
      i := i + 1;
    }
  }

  /** Link `node` in front of the node at position `p`, or at the end of the list. */
  method LinkAt<K, V>(node: Node<K, V>, before: Node?<K, V>, last: Node?<K, V>,
                      ghost nodes: seq<Node<K, V>>, ghost p: nat)
    requires Linked(nodes) && node !in nodes && p <= |nodes|
    requires before == NodeAt(nodes, p)
    requires before == null ==> last == NodeAt(nodes, |nodes| - 1)
    modifies node`next, node`prev, nodes`next, nodes`prev
    ensures Linked(Inserted(nodes, p, node))
  {
    node.next := before;
    if before != null {
      node.prev := before.prev;
      before.prev := node;
      if node.prev != null {
        node.prev.next := node;
      }
    } else {
      node.prev := last;
      if last != null {
        last.next := node;
      }
    }
    Relinked(node, nodes, p);
  }

  lemma Relinked<K, V>(node: Node<K, V>, nodes: seq<Node<K, V>>, p: nat)
    requires node !in nodes && p <= |nodes|
    requires forall i, j :: 0 <= i < j < |nodes| ==> nodes[i] != nodes[j]
    requires node.next == NodeAt(nodes, p) && node.prev == NodeAt(nodes, p - 1)
    requires forall i {:trigger nodes[i].next} :: 0 <= i < |nodes| ==>
      nodes[i].next == if i == p - 1 then node else NodeAt(nodes, i + 1)
    requires forall i {:trigger nodes[i].prev} :: 0 <= i < |nodes| ==>
      nodes[i].prev == if i == p then node else NodeAt(nodes, i - 1)
    ensures Linked(Inserted(nodes, p, node))
  {
    var nodes' := Inserted(nodes, p, node);
    forall i | 0 <= i < |nodes'|
      ensures nodes'[i].next == NodeAt(nodes', i + 1)
      ensures nodes'[i].prev == NodeAt(nodes', i - 1)
    {
      InsertedAt(nodes, p, node, i);
      InsertedAt(nodes, p, node, i + 1);
      InsertedAt(nodes, p, node, i - 1);
    }
    forall i, j | 0 <= i < j < |nodes'|
      ensures nodes'[i] != nodes'[j]
    {
      InsertedAt(nodes, p, node, i);
      InsertedAt(nodes, p, node, j);
    }
  }

  lemma InsertedAt<K, V>(nodes: seq<Node<K, V>>, p: nat, node: Node<K, V>, i: int)
    requires p <= |nodes|
    ensures |Inserted(nodes, p, node)| == |nodes| + 1
    ensures NodeAt(Inserted(nodes, p, node), i) ==
            if i < p then NodeAt(nodes, i) else if i == p then node else NodeAt(nodes, i - 1)
  {
  }

  /** The new node becomes the target of every slot at or below `bucket` that pointed past it. */
  method Propagate<K, V>(node: Node<K, V>, it: Node?<K, V>, buckets: array<Node?<K, V>>, n: nat, bucket: nat,
                         ghost nodes: seq<Node<K, V>>, ghost ks: seq<nat>, ghost start: seq<nat>)
    requires buckets.Length == n + 1 && bucket < n
    requires |ks| == |nodes| && Placed(ks, start, n)
    requires forall i, j :: 0 <= i < j < |nodes| ==> nodes[i] != nodes[j]
    requires Slots(buckets[..], nodes, start)
    requires node !in nodes && it == NodeAt(nodes, start[bucket + 1])
    modifies buckets
    ensures Slots(buckets[..], Inserted(nodes, start[bucket + 1], node), Shifted(start, bucket, true))
  {
    ghost var p := start[bucket + 1];
    ghost var slots := buckets[..];
    var b: nat := bucket;
    ghost var low: nat := bucket + 1;
    while it == buckets[b]
      invariant b <= bucket && low == b + 1
      invariant forall c :: 0 <= c <= n ==> buckets[c] == if low <= c <= bucket then node else slots[c]
      invariant forall c :: low <= c <= bucket ==> start[c] == p
      decreases b
    {
      assert buckets[b] == slots[b] == NodeAt(nodes, start[b]);
      PlacedMonotone(ks, start, n, b, bucket + 1);
      assert start[b] == p;
      buckets[b] := node;
      low := b;
      if b == 0 {
        break;
      }
      b := b - 1;
    }
    forall c | 0 <= c < low
      ensures start[c] != p
    {
      assert buckets[b] == slots[b] == NodeAt(nodes, start[b]);
      PlacedMonotone(ks, start, n, c, b);
      PlacedMonotone(ks, start, n, b, bucket + 1);
    }
    Propagated(slots, buckets[..], node, n, bucket, nodes, ks, start);
  }

  lemma Propagated<K, V>(slots: seq<Node?<K, V>>, slots': seq<Node?<K, V>>, node: Node<K, V>, n: nat, bucket: nat,
                         nodes: seq<Node<K, V>>, ks: seq<nat>, start: seq<nat>)
    requires bucket < n && |ks| == |nodes| && Placed(ks, start, n)
    requires Slots(slots, nodes, start) && |slots'| == n + 1
    requires forall c :: 0 <= c <= n ==> slots'[c] == if c <= bucket && start[c] == start[bucket + 1] then node else slots[c]
    ensures Slots(slots', Inserted(nodes, start[bucket + 1], node), Shifted(start, bucket, true))
  {
    var p := start[bucket + 1];
    var nodes' := Inserted(nodes, p, node);
    forall c | 0 <= c <= n
      ensures slots'[c] == NodeAt(nodes', Shifted(start, bucket, true)[c])
    {
      if c <= bucket {
        PlacedMonotone(ks, start, n, c, bucket + 1);
      } else {
        PlacedMonotone(ks, start, n, bucket + 1, c);
      }
    }
  }

  /** `unordered_hash_node_insert`: the node goes to the end of its own bucket's stretch of the list. */
  method NodeInsert<K, V>(node: Node<K, V>, hash: nat, buckets: array<Node?<K, V>>, n: nat,
                          ghost nodes: seq<Node<K, V>>, ghost ks: seq<nat>, ghost start: seq<nat>)
    requires BucketCount(n) && buckets.Length == n + 1
    requires |ks| == |nodes| && Placed(ks, start, n)
    requires Linked(nodes) && Slots(buckets[..], nodes, start)
    requires node !in nodes
    modifies node`next, node`prev, nodes`next, nodes`prev, buckets
    ensures var k := Bucket(hash, n);
            && Linked(Inserted(nodes, start[k + 1], node))
            && Slots(buckets[..], Inserted(nodes, start[k + 1], node), Shifted(start, k, true))
            && Placed(Inserted(ks, start[k + 1], k), Shifted(start, k, true), n)
  {
    var bucket := Bucket(hash, n);
    PlacedInsert(ks, start, n, bucket);
    var it := buckets[bucket + 1];
    assert it == buckets[..][bucket + 1];
    var last := null;
    if it == null {
      last := LastNode(buckets, n, bucket, nodes, ks, start);
    }
    ghost var now := Inserted(nodes, start[bucket + 1], node);
    LinkAt(node, it, last, nodes, start[bucket + 1]);
    assert Linked(now);
    Propagate(node, it, buckets, n, bucket, nodes, ks, start);
    assert Linked(now);
  }

  // ---------------------------------------------------------------- removal

  /** `unordered_hash_node_erase`: unlink the node and pull back every slot that pointed at it. */
  method NodeErase<K, V>(where: Node<K, V>, hash: nat, buckets: array<Node?<K, V>>, n: nat,
                         ghost nodes: seq<Node<K, V>>, ghost ks: seq<nat>, ghost start: seq<nat>, ghost p: nat)
    requires BucketCount(n) && buckets.Length == n + 1
    requires |ks| == |nodes| && Placed(ks, start, n)
    requires Linked(nodes) && Slots(buckets[..], nodes, start)
    requires p < |nodes| && nodes[p] == where && ks[p] == Bucket(hash, n)
    modifies nodes`next, nodes`prev, buckets
    ensures Linked(Removed(nodes, p))
    ensures Slots(buckets[..], Removed(nodes, p), Shifted(start, ks[p], false))
    ensures Placed(Removed(ks, p), Shifted(start, ks[p], false), n)
  {
    var bucket := Bucket(hash, n);
    Retract(where, where.next, buckets, n, bucket, nodes, ks, start, p);
    var next := where.next;
    if where.prev != null {
      where.prev.next := where.next;
    }
    if next != null {
      next.prev := where.prev;
    }
    Unlinked(nodes, p);
    PlacedRemove(ks, start, n, p);
  }

  method Retract<K, V>(where: Node<K, V>, next: Node?<K, V>, buckets: array<Node?<K, V>>, n: nat, bucket: nat,
                       ghost nodes: seq<Node<K, V>>, ghost ks: seq<nat>, ghost start: seq<nat>, ghost p: nat)
    requires buckets.Length == n + 1 && bucket < n
    requires |ks| == |nodes| && Placed(ks, start, n)
    requires forall i, j :: 0 <= i < j < |nodes| ==> nodes[i] != nodes[j]
    requires Slots(buckets[..], nodes, start)
    requires p < |nodes| && nodes[p] == where && ks[p] == bucket && next == NodeAt(nodes, p + 1)
    modifies buckets
    ensures Slots(buckets[..], Removed(nodes, p), Shifted(start, bucket, false))
  {
    ghost var slots := buckets[..];
    var b: nat := bucket;
    ghost var low: nat := bucket + 1;
    while buckets[b] == where
      invariant b <= bucket && low == b + 1
      invariant forall c :: 0 <= c <= n ==> buckets[c] == if low <= c <= bucket then next else slots[c]
      invariant forall c :: low <= c <= bucket ==> start[c] == p
      decreases b
    {
      assert buckets[b] == slots[b] == NodeAt(nodes, start[b]);
      buckets[b] := next;
      low := b;
      if b == 0 {
        break;
      }
      b := b - 1;
    }
    forall c | 0 <= c < low
      ensures start[c] != p
    {
      assert buckets[b] == slots[b] == NodeAt(nodes, start[b]);
      PlacedMonotone(ks, start, n, c, b);
    }
    Retracted(slots, buckets[..], next, n, nodes, ks, start, p);
  }

  lemma Retracted<K, V>(slots: seq<Node?<K, V>>, slots': seq<Node?<K, V>>, next: Node?<K, V>, n: nat,
                        nodes: seq<Node<K, V>>, ks: seq<nat>, start: seq<nat>, p: nat)
    requires |ks| == |nodes| && Placed(ks, start, n) && p < |nodes| && ks[p] < n
    requires Slots(slots, nodes, start) && |slots'| == n + 1 && next == NodeAt(nodes, p + 1)
    requires forall c :: 0 <= c <= n ==> slots'[c] == if c <= ks[p] && start[c] == p then next else slots[c]
    ensures Slots(slots', Removed(nodes, p), Shifted(start, ks[p], false))
  {
    forall c | 0 <= c <= n
      ensures slots'[c] == NodeAt(Removed(nodes, p), Shifted(start, ks[p], false)[c])
    {
      assert c <= ks[p] ==> start[c] <= p;
      assert c > ks[p] ==> start[c] > p;
      RemovedAt(nodes, p, Shifted(start, ks[p], false)[c]);
    }
  }

  lemma RemovedAt<K, V>(nodes: seq<Node<K, V>>, p: nat, i: int)
    requires p < |nodes|
    ensures |Removed(nodes, p)| == |nodes| - 1
    ensures NodeAt(Removed(nodes, p), i) == if i < p then NodeAt(nodes, i) else NodeAt(nodes, i + 1)
  {
  }

  lemma Unlinked<K, V>(nodes: seq<Node<K, V>>, p: nat)
    requires p < |nodes|
    requires forall i, j :: 0 <= i < j < |nodes| ==> nodes[i] != nodes[j]
    requires forall i {:trigger nodes[i].next} :: 0 <= i < |nodes| && i != p ==>
      nodes[i].next == NodeAt(nodes, if i == p - 1 then p + 1 else i + 1)
    requires forall i {:trigger nodes[i].prev} :: 0 <= i < |nodes| && i != p ==>
      nodes[i].prev == NodeAt(nodes, if i == p + 1 then p - 1 else i - 1)
    ensures Linked(Removed(nodes, p))
  {
    var nodes' := Removed(nodes, p);
    forall i | 0 <= i < |nodes'|
      ensures nodes'[i].next == NodeAt(nodes', i + 1)
      ensures nodes'[i].prev == NodeAt(nodes', i - 1)
    {
      RemovedAt(nodes, p, i);
      RemovedAt(nodes, p, i + 1);
      RemovedAt(nodes, p, i - 1);
    }
    forall i, j | 0 <= i < j < |nodes'|
      ensures nodes'[i] != nodes'[j]
    {
      RemovedAt(nodes, p, i);
      RemovedAt(nodes, p, j);
    }
  }

  // ---------------------------------------------------------------- search

  /** `unordered_hash_find`: only the stretch between two slots is searched, yet a miss is a miss
      for the whole list, because equal keys share a bucket. */
  method NodeFind<K(==), V>(key: K, hash: nat, buckets: array<Node?<K, V>>, slotCount: nat,
                            ghost nodes: seq<Node<K, V>>, ghost ks: seq<nat>, ghost start: seq<nat>)
    returns (r: Node?<K, V>)
    requires slotCount == buckets.Length && slotCount > 1 && BucketCount(slotCount - 1)
    requires |ks| == |nodes| && Placed(ks, start, slotCount - 1)
    requires Linked(nodes) && Slots(buckets[..], nodes, start)
    requires forall i :: 0 <= i < |nodes| && nodes[i].first == key ==> ks[i] == Bucket(hash, slotCount - 1)
    ensures r != null ==> r in nodes && r.first == key
    ensures r == null ==> forall i :: 0 <= i < |nodes| ==> nodes[i].first != key
  {
    ghost var n := slotCount - 1;
    var bucket := Bucket(hash, slotCount - 1);
    var it, end := buckets[bucket], buckets[bucket + 1];
    assert it == buckets[..][bucket] && end == buckets[..][bucket + 1];
    ghost var i := start[bucket];
    PlacedMonotone(ks, start, n, bucket, bucket + 1);
    while it != end
      invariant start[bucket] <= i <= start[bucket + 1] && it == NodeAt(nodes, i)
      invariant forall j :: start[bucket] <= j < i ==> nodes[j].first != key
      decreases start[bucket + 1] - i
    {
      if it.first == key {
        return it;
      }
      it := it.next;
      i := i + 1;
    }
    return null;
  }
}
