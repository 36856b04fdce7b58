/** `tinystl::unordered_map` (Dobby-master/external/TINYSTL/unordered_map.h), and the erase-by-key
    of `unordered_set.h`, refine a finite map across insert, erase, rehash, clear and copy. */
module HashTable {
  import opened HashBase

  /** Initial number of slots: eight buckets and the sentinel. */
  const INITIAL_SLOTS: nat := 9

  /** The bucket numbers of a list of nodes. */
  ghost function BucketsOf<K, V>(hash: K -> nat, nodes: seq<Node<K, V>>, n: nat): (ks: seq<nat>)
    requires BucketCount(n)
    ensures |ks| == |nodes|
    ensures forall i :: 0 <= i < |nodes| ==> ks[i] == Bucket(hash(nodes[i].first), n)
  {
    seq(|nodes|, i requires 0 <= i < |nodes| => Bucket(hash(nodes[i].first), n))
  }

  lemma BucketsOfInserted<K, V>(hash: K -> nat, nodes: seq<Node<K, V>>, n: nat, p: nat, node: Node<K, V>)
    requires BucketCount(n) && p <= |nodes|
    ensures BucketsOf(hash, Inserted(nodes, p, node), n)
         == Inserted(BucketsOf(hash, nodes, n), p, Bucket(hash(node.first), n))
  {
  }

  lemma BucketsOfRemoved<K, V>(hash: K -> nat, nodes: seq<Node<K, V>>, n: nat, p: nat)
    requires BucketCount(n) && p < |nodes|
    ensures BucketsOf(hash, Removed(nodes, p), n) == Removed(BucketsOf(hash, nodes, n), p)
  {
  }

  /** The list and the slot array of `n` buckets agree, and the list is sorted by bucket. */
  ghost predicate Threaded<K, V>(hash: K -> nat, buckets: array<Node?<K, V>>, nodes: seq<Node<K, V>>, start: seq<nat>)
    reads buckets, nodes`next, nodes`prev
  {
    && buckets.Length > 1 && BucketCount(buckets.Length - 1)
    && Placed(BucketsOf(hash, nodes, buckets.Length - 1), start, buckets.Length - 1)
    && Linked(nodes)
    && Slots(buckets[..], nodes, start)
  }

  ghost predicate UniqueKeys<K, V>(nodes: seq<Node<K, V>>) {
    forall i, j :: 0 <= i < j < |nodes| ==> nodes[i].first != nodes[j].first
  }

  /** Every node holds a binding of `m`; with unique keys and as many nodes as bindings, `Covered` adds the converse. */
  ghost predicate Holds<K, V>(nodes: seq<Node<K, V>>, m: map<K, V>)
    reads nodes`second
  {
    forall i :: 0 <= i < |nodes| ==> nodes[i].first in m && m[nodes[i].first] == nodes[i].second
  }

  ghost function KeySet<K, V>(nodes: seq<Node<K, V>>): set<K> {
    set i | 0 <= i < |nodes| :: nodes[i].first
  }

  lemma {:induction false} KeyCount<K, V>(nodes: seq<Node<K, V>>)
    requires UniqueKeys(nodes)
    ensures |KeySet(nodes)| == |nodes|
  {
    if nodes != [] {
      var last := |nodes| - 1;
      KeyCount(nodes[..last]);
      assert KeySet(nodes) == KeySet(nodes[..last]) + {nodes[last].first};
    }
  }

  /** A key bound by the map is the key of some node. */
  lemma Covered<K, V>(nodes: seq<Node<K, V>>, m: map<K, V>)
    requires UniqueKeys(nodes) && Holds(nodes, m) && |nodes| == |m|
    ensures KeySet(nodes) == m.Keys
  {
    KeyCount(nodes);
    assert KeySet(nodes) <= m.Keys;
    EqualSize(KeySet(nodes), m.Keys);
  }

  lemma EqualSize<T>(a: set<T>, b: set<T>)
    requires a <= b && |a| == |b|
    ensures a == b
  {
    assert |b - a| == |b| - |a|;
  }

  class UnorderedMap<K(==), V> {
    const hash: K -> nat
    var size: nat
    var buckets: array<Node?<K, V>>
    ghost var nodes: seq<Node<K, V>>
    ghost var start: seq<nat>
    ghost var contents: map<K, V>

    ghost predicate Valid()
      reads this, buckets, nodes
    {
      && Threaded(hash, buckets, nodes, start)
      && UniqueKeys(nodes)
      && Holds(nodes, contents)
      && size == |nodes| == |contents|
    }

    ghost function Repr(): set<object>
      reads this
    {
      {this, buckets} + set x | x in nodes
    }

    constructor (hash: K -> nat)
      ensures Valid() && fresh(buckets) && nodes == []
      ensures contents == map[] && this.hash == hash
    {
      this.hash, size := hash, 0;
      buckets := new Node?<K, V>[INITIAL_SLOTS](_ => null);
      nodes, contents, start := [], map[], seq(INITIAL_SLOTS, _ => 0);
    }

    /** The copy constructor: fresh nodes, the same bindings, and the same walk order. */
    constructor Copy(other: UnorderedMap<K, V>)
      requires other.Valid()
      ensures Valid() && fresh(buckets) && forall i :: 0 <= i < |nodes| ==> fresh(nodes[i])
      ensures contents == other.contents && hash == other.hash && buckets.Length == other.buckets.Length
      ensures SameEntries(nodes, other.nodes)
    {
      var slots := other.buckets.Length;
      var copy := new Node?<K, V>[slots](_ => null);
      ghost var ns, st := CopyNodes(other.hash, other.buckets, copy, other.nodes, other.start);
      hash, size, buckets := other.hash, other.size, copy;
      nodes, start, contents := ns, st, other.contents;
    }

    /** `find`: the node of `key`, or null exactly when the map has no such key. */
    method Find(key: K) returns (r: Node?<K, V>)
      requires Valid()
      ensures (r != null) <==> (key in contents)
      ensures r != null ==> r in nodes && r.first == key && r.second == contents[key]
    {
      r := NodeFind(key, hash(key), buckets, buckets.Length,
                    nodes, BucketsOf(hash, nodes, buckets.Length - 1), start);
      Covered(nodes, contents);
    }

    /** `rehash`: eight times the buckets once there are four entries per slot; same nodes, same map. */
    method Rehash(slots: nat)
      requires Valid()
      modifies this`buckets, this`nodes, this`start, nodes`next, nodes`prev
      ensures Valid() && contents == old(contents)
      ensures forall x :: x in nodes <==> x in old(nodes)
      ensures buckets != old(buckets) ==> fresh(buckets)
      ensures buckets.Length == if size + 1 > 4 * slots then (old(buckets.Length) - 1) * 8 + 1 else old(buckets.Length)
    {
      if size + 1 > 4 * slots {
        var root := buckets[0];
        assert root == NodeAt(nodes, 0) by {
          PlacedZero(BucketsOf(hash, nodes, buckets.Length - 1), start, buckets.Length - 1);
          assert root == buckets[..][0];
        }
        ghost var was, all := nodes, (set x | x in nodes);
        buckets, nodes, start := Regrow(hash, root, buckets.Length - 1, nodes, all);
        SameNodes(was, nodes, all, contents);
      }
    }

    /** Thread a fresh node for a key the map does not have yet. */
    method Add(node: Node<K, V>)
      requires Valid() && node !in nodes && node.first !in contents
      modifies this`size, this`nodes, this`start, this`contents, buckets, node`next, node`prev, nodes`next, nodes`prev
      ensures Valid() && contents == old(contents)[node.first := node.second]
      ensures forall x :: x in nodes <==> x in old(nodes) || x == node
    {
      ghost var m := contents;
      contents := contents[node.first := node.second];
      size := size + 1;
      nodes, start := PlaceNew(hash, node, buckets, nodes, start, m);
    }

    /** `insert` and `emplace`: an existing binding wins, a new one is added. */
    method Insert(key: K, value: V) returns (where: Node<K, V>, added: bool)
      requires Valid()
      modifies this, buckets, nodes`next, nodes`prev
      ensures Valid()
      ensures added <==> key !in old(contents)
      ensures contents == if added then old(contents)[key := value] else old(contents)
      ensures where in nodes && where.first == key && where.second == contents[key]
      ensures fresh(Repr() - old(Repr()))
    {
      var found := Find(key);
      if found != null {
        return found, false;
      }
      where := new Node(key, value);
      var slots := buckets.Length;
      Add(where);
      assert forall i :: 0 <= i < |nodes| ==> nodes[i] in old(nodes) || fresh(nodes[i]);
      Rehash(slots);
      added := true;
      assert where in nodes;
    }

    /** `m[key] = value` through `operator[]`. */
    method Assign(key: K, value: V, default: V)
      requires Valid()
      modifies this, buckets, nodes
      ensures Valid() && contents == old(contents)[key := value]
      ensures fresh(Repr() - old(Repr()))
    {
      var where, added := Insert(key, default);
      SetValue(where, value);
    }

    /** A write through the reference to a value. */
    method SetValue(where: Node<K, V>, value: V)
      requires Valid() && where in nodes
      modifies this`contents, where`second
      ensures Valid() && contents == old(contents)[where.first := value]
    {
      SetSecond(where, value, nodes, contents);
      contents := contents[where.first := value];
    }

    /** `erase(where)`: exactly the binding of that node goes. */
    method Erase(where: Node<K, V>)
      requires Valid() && where in nodes
      modifies this`size, this`nodes, this`start, this`contents, buckets, nodes`next, nodes`prev
      ensures Valid() && contents == old(contents) - {where.first}
      ensures forall x :: x in nodes <==> x in old(nodes) && x != where
    {
      ghost var p :| 0 <= p < |nodes| && nodes[p] == where;
      ghost var m := contents;
      contents := contents - {where.first};
      size := size - 1;
      nodes, start := Unplace(hash, where, buckets, nodes, start, p, m);
    }

    /** `erase(key)` of `unordered_set`: the number of bindings removed. */
    method EraseKey(key: K) returns (count: nat)
      requires Valid()
      modifies this`size, this`nodes, this`start, this`contents, buckets, nodes`next, nodes`prev
      ensures Valid() && contents == old(contents) - {key}
      ensures count == if key in old(contents) then 1 else 0
      ensures forall x :: x in nodes ==> x in old(nodes)
    {
      var it := Find(key);
      if it == null {
        return 0;
      }
      Erase(it);
      return 1;
    }

    /** Walk the list from slot 0: every entry exactly once. */
    method Entries() returns (es: seq<(K, V)>)
      requires Valid()
      ensures Listing(es, contents)
      ensures |es| == |nodes| && forall i :: 0 <= i < |es| ==> es[i] == (nodes[i].first, nodes[i].second)
    {
      var it := buckets[0];
      PlacedZero(BucketsOf(hash, nodes, buckets.Length - 1), start, buckets.Length - 1);
      assert it == buckets[..][0];
      es := [];
      while it != null
        invariant |es| <= |nodes| && it == NodeAt(nodes, |es|)
        invariant forall i :: 0 <= i < |es| ==> es[i] == (nodes[i].first, nodes[i].second)
        decreases |nodes| - |es|
      {
        es := es + [(it.first, it.second)];
        it := it.next;
      }
      Covered(nodes, contents);
    }

    /** `clear`: every node is visited once and dropped, and the slots are back to the initial nine. */
    method Clear() returns (ghost freed: seq<Node<K, V>>)
      requires Valid()
      modifies this
      ensures Valid() && contents == map[] && nodes == [] && buckets.Length == INITIAL_SLOTS
      ensures freed == old(nodes) && fresh(buckets)
    {
      var it := buckets[0];
      PlacedZero(BucketsOf(hash, nodes, buckets.Length - 1), start, buckets.Length - 1);
      assert it == buckets[..][0];
      freed := [];
      while it != null
        invariant freed <= nodes && it == NodeAt(nodes, |freed|)
        decreases |nodes| - |freed|
      {
        var next := it.next;
        freed := freed + [it];
        it := next;
      }
      size := 0;
      buckets := new Node?<K, V>[INITIAL_SLOTS](_ => null);
      nodes, contents, start := [], map[], seq(INITIAL_SLOTS, _ => 0);
    }
  }

  method SetSecond<K, V>(where: Node<K, V>, value: V, ghost nodes: seq<Node<K, V>>, ghost m: map<K, V>)
    requires where in nodes && UniqueKeys(nodes) && Holds(nodes, m)
    modifies where`second
    ensures where.second == value && Holds(nodes, m[where.first := value])
  {
    where.second := value;
  }

  ghost predicate SameEntries<K, V>(ns: seq<Node<K, V>>, nodes: seq<Node<K, V>>)
    reads ns`second, nodes`second
  {
    && |ns| == |nodes|
    && forall i :: 0 <= i < |ns| ==> ns[i].first == nodes[i].first && ns[i].second == nodes[i].second
  }

  /** The copy loop: one fresh node per node of the source list, which is already sorted by bucket,
      so every new node lands at the end. */
  method CopyNodes<K, V>(hash: K -> nat, source: array<Node?<K, V>>, copy: array<Node?<K, V>>,
                         ghost nodes: seq<Node<K, V>>, ghost start: seq<nat>)
    returns (ghost ns: seq<Node<K, V>>, ghost st: seq<nat>)
    requires Threaded(hash, source, nodes, start) && copy != source && copy.Length == source.Length
    requires forall b :: 0 <= b < copy.Length ==> copy[b] == null
    modifies copy
    ensures Threaded(hash, copy, ns, st) && SameEntries(ns, nodes)
    ensures forall i :: 0 <= i < |ns| ==> fresh(ns[i])
  {
    var it := source[0];
    PlacedZero(BucketsOf(hash, nodes, source.Length - 1), start, source.Length - 1);
    assert it == source[..][0];
    ns, st := [], seq(copy.Length, _ => 0);
    while it != null
      invariant CopiedSoFar(ns, nodes) && it == NodeAt(nodes, |ns|)
      invariant forall i :: 0 <= i < |ns| ==> fresh(ns[i])
      invariant Threaded(hash, copy, ns, st)
      decreases |nodes| - |ns|
    {
      ns, st := AppendCopy(hash, it, copy, nodes, start, ns, st);
      it := it.next;
    }
  }

  ghost predicate CopiedSoFar<K, V>(ns: seq<Node<K, V>>, nodes: seq<Node<K, V>>)
    reads ns`second, nodes`second
  {
    && |ns| <= |nodes|
    && forall i :: 0 <= i < |ns| ==> ns[i].first == nodes[i].first && ns[i].second == nodes[i].second
  }

  lemma CopiedNext<K, V>(ns: seq<Node<K, V>>, node: Node<K, V>, nodes: seq<Node<K, V>>)
    requires CopiedSoFar(ns, nodes) && |ns| < |nodes|
    requires node.first == nodes[|ns|].first && node.second == nodes[|ns|].second
    ensures CopiedSoFar(ns + [node], nodes)
  {
  }

  method AppendCopy<K, V>(hash: K -> nat, it: Node<K, V>, copy: array<Node?<K, V>>,
                          ghost nodes: seq<Node<K, V>>, ghost start: seq<nat>, ghost ns: seq<Node<K, V>>, ghost st: seq<nat>)
    returns (ghost ns': seq<Node<K, V>>, ghost st': seq<nat>)
    requires Threaded(hash, copy, ns, st) && |ns| < |nodes| && it == nodes[|ns|]
    requires Placed(BucketsOf(hash, nodes, copy.Length - 1), start, copy.Length - 1)
    requires CopiedSoFar(ns, nodes)
    modifies copy, ns`next, ns`prev
    ensures |ns'| == |ns| + 1 && ns'[..|ns|] == ns && fresh(ns'[|ns|]) && CopiedSoFar(ns', nodes)
    ensures Threaded(hash, copy, ns', st')
  {
    var node := new Node(it.first, it.second);
    AppendsInOrder(hash, nodes, start, ns, st, copy.Length - 1);
    InsertedLast(ns, node);
    CopiedNext(ns, node, nodes);
    ns', st' := PlaceAt(hash, node, copy, ns, st);
  }

  /** In a list sorted by bucket, the next node's bucket stretch ends where the prefix ends. */
  lemma AppendsInOrder<K, V>(hash: K -> nat, nodes: seq<Node<K, V>>, start: seq<nat>,
                             ns: seq<Node<K, V>>, st: seq<nat>, n: nat)
    requires BucketCount(n) && |ns| < |nodes|
    requires Placed(BucketsOf(hash, nodes, n), start, n) && Placed(BucketsOf(hash, ns, n), st, n)
    requires forall i :: 0 <= i < |ns| ==> ns[i].first == nodes[i].first
    ensures st[Bucket(hash(nodes[|ns|].first), n) + 1] == |ns|
  {
    var ks, js := BucketsOf(hash, nodes, n), BucketsOf(hash, ns, n);
    var k := ks[|ns|];
    assert start[k + 1] > |ns|;
    assert forall i :: 0 <= i < |ns| ==> js[i] == ks[i] < k + 1;
    PlacedFirst(js, st, n, k + 1);
  }

  /** The entries of a map, each exactly once, in some order. */
  ghost predicate Listing<K, V>(es: seq<(K, V)>, m: map<K, V>) {
    && |es| == |m|
    && (forall i, j :: 0 <= i < j < |es| ==> es[i].0 != es[j].0)
    && (forall i :: 0 <= i < |es| ==> es[i].0 in m && m[es[i].0] == es[i].1)
    && m.Keys == set i | 0 <= i < |es| :: es[i].0
  }

  lemma HoldsInserted<K, V>(nodes: seq<Node<K, V>>, p: nat, node: Node<K, V>, m: map<K, V>)
    requires UniqueKeys(nodes) && Holds(nodes, m) && p <= |nodes| && node.first !in m
    ensures UniqueKeys(Inserted(nodes, p, node))
    ensures Holds(Inserted(nodes, p, node), m[node.first := node.second])
  {
    var nodes' := Inserted(nodes, p, node);
    assert forall i :: 0 <= i < |nodes'| ==>
      nodes'[i] == if i < p then nodes[i] else if i == p then node else nodes[i - 1];
  }

  lemma HoldsRemoved<K, V>(nodes: seq<Node<K, V>>, p: nat, m: map<K, V>)
    requires UniqueKeys(nodes) && Holds(nodes, m) && p < |nodes|
    ensures UniqueKeys(Removed(nodes, p))
    ensures Holds(Removed(nodes, p), m - {nodes[p].first})
  {
    var nodes' := Removed(nodes, p);
    assert forall i :: 0 <= i < |nodes'| ==> nodes'[i] == nodes[if i < p then i else i + 1];
  }

  lemma Grown(n: nat)
    requires BucketCount(n)
    ensures BucketCount(n * 8)
  {
    assert n * 8 / 8 == n;
  }

  /** Thread one more node through a slot array, at the end of its bucket's stretch. */
  method PlaceAt<K, V>(hash: K -> nat, node: Node<K, V>, buckets: array<Node?<K, V>>,
                     ghost nodes: seq<Node<K, V>>, ghost start: seq<nat>)
    returns (ghost nodes': seq<Node<K, V>>, ghost start': seq<nat>)
    requires Threaded(hash, buckets, nodes, start) && node !in nodes
    modifies node`next, node`prev, nodes`next, nodes`prev, buckets
    ensures Threaded(hash, buckets, nodes', start')
    ensures var k := Bucket(hash(node.first), buckets.Length - 1);
            nodes' == Inserted(nodes, start[k + 1], node) && start' == Shifted(start, k, true)
  {
    var n := buckets.Length - 1;
    ghost var k := Bucket(hash(node.first), n);
    ghost var p := start[k + 1];
    NodeInsert(node, hash(node.first), buckets, n, nodes, BucketsOf(hash, nodes, n), start);
    BucketsOfInserted(hash, nodes, n, p, node);
    nodes', start' := Inserted(nodes, p, node), Shifted(start, k, true);
  }

  /** As `PlaceAt`, without the position. */
  method Place<K, V>(hash: K -> nat, node: Node<K, V>, buckets: array<Node?<K, V>>,
                     ghost nodes: seq<Node<K, V>>, ghost start: seq<nat>)
    returns (ghost nodes': seq<Node<K, V>>, ghost start': seq<nat>)
    requires Threaded(hash, buckets, nodes, start) && node !in nodes
    modifies node`next, node`prev, nodes`next, nodes`prev, buckets
    ensures Threaded(hash, buckets, nodes', start')
    ensures |nodes'| == |nodes| + 1 && node in nodes'
    ensures forall x :: x in nodes ==> x in nodes'
    ensures forall i :: 0 <= i < |nodes'| ==> nodes'[i] in nodes || nodes'[i] == node
  {
    nodes', start' := PlaceAt(hash, node, buckets, nodes, start);
    InsertedMembers(nodes, start[Bucket(hash(node.first), buckets.Length - 1) + 1], node);
  }

  /** As `Place`, for a node whose key the map does not have. */
  method PlaceNew<K, V>(hash: K -> nat, node: Node<K, V>, buckets: array<Node?<K, V>>,
                        ghost nodes: seq<Node<K, V>>, ghost start: seq<nat>, ghost m: map<K, V>)
    returns (ghost nodes': seq<Node<K, V>>, ghost start': seq<nat>)
    requires Threaded(hash, buckets, nodes, start) && node !in nodes
    requires UniqueKeys(nodes) && Holds(nodes, m) && node.first !in m
    modifies node`next, node`prev, nodes`next, nodes`prev, buckets
    ensures Threaded(hash, buckets, nodes', start')
    ensures UniqueKeys(nodes') && Holds(nodes', m[node.first := node.second])
    ensures |nodes'| == |nodes| + 1 && forall x :: x in nodes' <==> x in nodes || x == node
  {
    ghost var p := start[Bucket(hash(node.first), buckets.Length - 1) + 1];
    InsertedMembers(nodes, p, node);
    nodes', start' := PlaceAt(hash, node, buckets, nodes, start);
    HoldsInserted(nodes, p, node, m);
  }

  /** Take the node at position `p` out of a slot array. */
  method Unplace<K, V>(hash: K -> nat, where: Node<K, V>, buckets: array<Node?<K, V>>,
                       ghost nodes: seq<Node<K, V>>, ghost start: seq<nat>, ghost p: nat, ghost m: map<K, V>)
    returns (ghost nodes': seq<Node<K, V>>, ghost start': seq<nat>)
    requires Threaded(hash, buckets, nodes, start) && p < |nodes| && nodes[p] == where
    requires UniqueKeys(nodes) && Holds(nodes, m)
    modifies nodes`next, nodes`prev, buckets
    ensures Threaded(hash, buckets, nodes', start')
    ensures UniqueKeys(nodes') && Holds(nodes', m - {where.first})
    ensures |nodes'| == |nodes| - 1 && forall x :: x in nodes' <==> x in nodes && x != where
  {
    var n := buckets.Length - 1;
    NodeErase(where, hash(where.first), buckets, n, nodes, BucketsOf(hash, nodes, n), start, p);
    BucketsOfRemoved(hash, nodes, n, p);
    RemovedMembers(nodes, p);
    HoldsRemoved(nodes, p, m);
    nodes', start' := Removed(nodes, p), Shifted(start, Bucket(hash(where.first), n), false);
  }

  lemma InsertedMembers<T>(s: seq<T>, p: nat, x: T)
    requires p <= |s|
    ensures |Inserted(s, p, x)| == |s| + 1 && x in Inserted(s, p, x)
    ensures forall y :: y in s ==> y in Inserted(s, p, x)
    ensures forall i :: 0 <= i < |s| + 1 ==> Inserted(s, p, x)[i] in s || Inserted(s, p, x)[i] == x
  {
    var s' := Inserted(s, p, x);
    assert s'[p] == x;
    forall y | y in s
      ensures y in s'
    {
      var i :| 0 <= i < |s| && s[i] == y;
      assert s'[if i < p then i else i + 1] == y;
    }
  }

  lemma RemovedMembers<T>(s: seq<T>, p: nat)
    requires p < |s| && forall i, j :: 0 <= i < j < |s| ==> s[i] != s[j]
    ensures forall y :: y in Removed(s, p) <==> y in s && y != s[p]
  {
    var s' := Removed(s, p);
    forall y | y in s && y != s[p]
      ensures y in s'
    {
      var i :| 0 <= i < |s| && s[i] == y;
      assert s'[if i < p then i else i - 1] == y;
    }
    assert forall i :: 0 <= i < |s'| ==> s'[i] == s[if i < p then i else i + 1];
  }

  /** The rehash loop: move every node of the old list, first to last, into an empty slot array. */
  method Redistribute<K, V>(hash: K -> nat, first: Node?<K, V>, buckets: array<Node?<K, V>>,
                            ghost nodes: seq<Node<K, V>>, ghost all: set<Node<K, V>>)
    returns (ghost done: seq<Node<K, V>>, ghost start: seq<nat>)
    requires buckets.Length > 1 && BucketCount(buckets.Length - 1)
    requires forall b :: 0 <= b < buckets.Length ==> buckets[b] == null
    requires Linked(nodes) && first == NodeAt(nodes, 0)
    requires all == (set x | x in nodes)
    modifies buckets, all`next, all`prev
    ensures Threaded(hash, buckets, done, start)
    ensures |done| == |nodes| && forall j :: 0 <= j < |nodes| ==> nodes[j] in done
    ensures forall j :: 0 <= j < |done| ==> done[j] in all
  {
    var n := buckets.Length - 1;
    var root := first;
    ghost var i := 0;
    done, start := [], seq(n + 1, _ => 0);
    while root != null
      invariant 0 <= i <= |nodes| && root == NodeAt(nodes, i) && Taken(nodes, done, i, all)
      invariant Ahead(nodes, i) && Threaded(hash, buckets, done, start)
      decreases |nodes| - i
    {
      root, done, start := PlaceNext(hash, root, buckets, nodes, all, done, start, i);
      i := i + 1;
    }
  }

  /** From node `i` on, the list is still linked as it was. */
  ghost predicate Ahead<K, V>(nodes: seq<Node<K, V>>, i: nat)
    reads nodes`next
  {
    forall j {:trigger nodes[j].next} :: i <= j < |nodes| ==> nodes[j].next == NodeAt(nodes, j + 1)
  }

  /** One node goes from the old list to the new one. */
  method PlaceNext<K, V>(hash: K -> nat, root: Node<K, V>, buckets: array<Node?<K, V>>, ghost nodes: seq<Node<K, V>>,
                         ghost all: set<Node<K, V>>, ghost done: seq<Node<K, V>>, ghost start: seq<nat>, ghost i: nat)
    returns (next: Node?<K, V>, ghost done': seq<Node<K, V>>, ghost start': seq<nat>)
    requires i < |nodes| && root == nodes[i] && Taken(nodes, done, i, all) && Ahead(nodes, i) && all == (set x | x in nodes)
    requires Threaded(hash, buckets, done, start) && forall j, k :: 0 <= j < k < |nodes| ==> nodes[j] != nodes[k]
    modifies buckets, all`next, all`prev
    ensures next == NodeAt(nodes, i + 1) && Taken(nodes, done', i + 1, all) && Ahead(nodes, i + 1)
    ensures Threaded(hash, buckets, done', start')
  {
    next := root.next;
    root.next, root.prev := null, null;
    done', start' := Place(hash, root, buckets, done, start);
    TakenNext(nodes, done, done', i, all);
  }

  /** The first `i` nodes are in the new list, and no others. */
  ghost predicate Taken<K, V>(nodes: seq<Node<K, V>>, done: seq<Node<K, V>>, i: nat, all: set<Node<K, V>>)
    requires i <= |nodes|
  {
    && |done| == i
    && (forall j :: 0 <= j < i ==> nodes[j] in done)
    && (forall j :: i <= j < |nodes| ==> nodes[j] !in done)
    && forall j :: 0 <= j < |done| ==> done[j] in all
  }

  lemma TakenNext<K, V>(nodes: seq<Node<K, V>>, done: seq<Node<K, V>>, done': seq<Node<K, V>>, i: nat, all: set<Node<K, V>>)
    requires i < |nodes| && Taken(nodes, done, i, all) && all == (set x | x in nodes)
    requires forall j, k :: 0 <= j < k < |nodes| ==> nodes[j] != nodes[k]
    requires |done'| == |done| + 1 && nodes[i] in done' && forall x :: x in done ==> x in done'
    requires forall j :: 0 <= j < |done'| ==> done'[j] in done || done'[j] == nodes[i]
    ensures Taken(nodes, done', i + 1, all)
  {
  }

  /** Eight times the buckets, and the nodes threaded through them. */
  method Regrow<K, V>(hash: K -> nat, first: Node?<K, V>, n: nat, ghost nodes: seq<Node<K, V>>, ghost all: set<Node<K, V>>)
    returns (grown: array<Node?<K, V>>, ghost done: seq<Node<K, V>>, ghost start: seq<nat>)
    requires BucketCount(n) && Linked(nodes) && first == NodeAt(nodes, 0) && all == (set x | x in nodes)
    modifies all`next, all`prev
    ensures fresh(grown) && grown.Length == n * 8 + 1 && Threaded(hash, grown, done, start)
    ensures |done| == |nodes| && forall j :: 0 <= j < |nodes| ==> nodes[j] in done
    ensures forall j :: 0 <= j < |done| ==> done[j] in all
  {
    Grown(n);
    grown := new Node?<K, V>[n * 8 + 1](_ => null);
    done, start := Redistribute(hash, first, grown, nodes, all);
  }

  /** Two lists with the same nodes hold the same map. */
  lemma SameNodes<K, V>(nodes: seq<Node<K, V>>, done: seq<Node<K, V>>, all: set<Node<K, V>>, m: map<K, V>)
    requires all == (set x | x in nodes) && UniqueKeys(nodes) && Holds(nodes, m)
    requires forall j :: 0 <= j < |nodes| ==> nodes[j] in done
    requires forall j :: 0 <= j < |done| ==> done[j] in all
    requires forall i, j :: 0 <= i < j < |done| ==> done[i] != done[j]
    ensures UniqueKeys(done) && Holds(done, m) && forall x :: x in done <==> x in nodes
  {
    forall i | 0 <= i < |done|
      ensures done[i].first in m && m[done[i].first] == done[i].second
    {
      assert done[i] in nodes;
    }
    forall i, j | 0 <= i < j < |done|
      ensures done[i].first != done[j].first
    {
      assert done[i] in nodes && done[j] in nodes;
    }
  }

  // ---------------------------------------------------------------- whole runs

  datatype Op<K, V> =
    | Put(key: K, value: V)
    | Set(key: K, value: V)
    | Drop(key: K)
    | Get(key: K)
    | DropAll
    | Duplicate

  datatype Out<V> =
    | Added(added: bool, now: V)
    | Dropped(count: nat)
    | Found(value: V)
    | Absent
    | Done

  /** What one operation does to a plain finite map, and what it reports. */
  ghost function Step<K, V>(m: map<K, V>, op: Op<K, V>): (map<K, V>, Out<V>) {
    match op
    case Put(k, v) => if k in m then (m, Added(false, m[k])) else (m[k := v], Added(true, v))
    case Set(k, v) => (m[k := v], Done)
    case Drop(k) => (m - {k}, Dropped(if k in m then 1 else 0))
    case Get(k) => (m, if k in m then Found(m[k]) else Absent)
    case DropAll => (map[], Done)
    case Duplicate => (m, Done)
  }

  ghost function Final<K, V>(m: map<K, V>, ops: seq<Op<K, V>>): map<K, V>
    decreases |ops|
  {
    if ops == [] then m else Final(Step(m, ops[0]).0, ops[1..])
  }

  ghost function Outputs<K, V>(m: map<K, V>, ops: seq<Op<K, V>>): seq<Out<V>>
    decreases |ops|
  {
    if ops == [] then [] else [Step(m, ops[0]).1] + Outputs(Step(m, ops[0]).0, ops[1..])
  }

  /** Run one operation on the table; `Duplicate` goes on with a copy. */
  method Perform<K(==), V>(t: UnorderedMap<K, V>, op: Op<K, V>, default: V) returns (t': UnorderedMap<K, V>, out: Out<V>)
    requires t.Valid()
    modifies t, t.buckets, t.nodes
    ensures t'.Valid() && fresh(t'.Repr() - old(t.Repr()))
    ensures (t'.contents, out) == Step(old(t.contents), op)
  {
    t' := t;
    match op
    case Put(k, v) =>
      var where, added := t.Insert(k, v);
      out := Added(added, where.second);
    case Set(k, v) =>
      t.Assign(k, v, default);
      out := Done;
    case Drop(k) =>
      var count := t.EraseKey(k);
      out := Dropped(count);
    case Get(k) =>
      var where := t.Find(k);
      out := if where == null then Absent else Found(where.second);
    case DropAll =>
      ghost var freed := t.Clear();
      out := Done;
    case Duplicate =>
      t' := CopyOf(t);
      out := Done;
  }

  method CopyOf<K(==), V>(t: UnorderedMap<K, V>) returns (t': UnorderedMap<K, V>)
    requires t.Valid()
    ensures t'.Valid() && fresh(t'.Repr()) && t'.contents == t.contents
  {
    t' := new UnorderedMap<K, V>.Copy(t);
  }

  method RunFrom<K(==), V>(t: UnorderedMap<K, V>, ops: seq<Op<K, V>>, default: V) returns (outs: seq<Out<V>>, es: seq<(K, V)>)
    requires t.Valid()
    modifies t.Repr()
    ensures outs == Outputs(old(t.contents), ops)
    ensures Listing(es, Final(old(t.contents), ops))
    decreases |ops|
  {
    if ops == [] {
      outs := [];
      es := t.Entries();
    } else {
      assert forall i :: 0 <= i < |t.nodes| ==> t.nodes[i] in t.Repr();
      var t', out := Perform(t, ops[0], default);
      var rest;
      rest, es := RunFrom(t', ops[1..], default);
      outs := [out] + rest;
    }
  }

  /** Every sequence of operations, on any hash function, answers as a plain map does, and the final
      walk lists that map. */
  method Run<K(==), V>(hash: K -> nat, ops: seq<Op<K, V>>, default: V) returns (outs: seq<Out<V>>, es: seq<(K, V)>)
    ensures outs == Outputs(map[], ops)
    ensures Listing(es, Final(map[], ops))
  {
    var t := new UnorderedMap<K, V>(hash);
    outs, es := RunFrom(t, ops, default);
  }
}
