/**
  The heap structure of os_net/operating_system/examples/lru_cache.py: a map from keys to nodes
  and a doubly linked list of nodes between two sentinels. Every operation is proved to be the
  corresponding step of LruSpec on the list's entries.
*/
module LruCache {
  import opened LruSpec
  import opened Sequences

  class Node<K, V> {
    var key: K
    var value: V
    var prev: Node?<K, V>
    var next: Node?<K, V>

    constructor (key: K, value: V)
      ensures this.key == key && this.value == value
    {
      this.key, this.value, prev, next := key, value, null, null;
    }
  }

  /** Both pointer directions agree along the chain, which never repeats a node. */
  ghost predicate Linked<K, V>(chain: seq<Node<K, V>>)
    reads chain
  {
    && (forall i {:trigger chain[i].next} :: 0 <= i < |chain| - 1 ==> chain[i].next == chain[i + 1])
    && (forall i {:trigger chain[i].prev} :: 0 < i < |chain| ==> chain[i].prev == chain[i - 1])
    && (forall i, j :: 0 <= i < j < |chain| ==> chain[i] != chain[j])
  }

  /** The chain with position k + 1 passed over: its neighbours point at each other. */
  ghost predicate Spliced<K, V>(chain: seq<Node<K, V>>, k: nat)
    requires k + 2 < |chain|
    reads chain
  {
    && (forall i {:trigger chain[i].next} :: 0 <= i < |chain| - 1 && i != k ==> chain[i].next == chain[i + 1])
    && (forall i {:trigger chain[i].prev} :: 0 < i < |chain| && i != k + 2 ==> chain[i].prev == chain[i - 1])
    && chain[k].next == chain[k + 2] && chain[k + 2].prev == chain[k]
    && (forall i, j :: 0 <= i < j < |chain| ==> chain[i] != chain[j])
  }

  lemma SplicedLinks<K, V>(chain: seq<Node<K, V>>, k: nat)
    requires k + 2 < |chain| && Spliced(chain, k)
    ensures Linked(chain[..k + 1] + chain[k + 2..])
  {
    var short := chain[..k + 1] + chain[k + 2..];
    assert forall i :: 0 <= i < |short| ==> short[i] == if i <= k then chain[i] else chain[i + 1];
  }

  /** The nodes store the given entries, in order. */
  ghost predicate Stores<K, V>(nodes: seq<Node<K, V>>, contents: Cache<K, V>)
    reads nodes
  {
    && |nodes| == |contents|
    && forall i :: 0 <= i < |nodes| ==> nodes[i].key == contents[i].key && nodes[i].value == contents[i].value
  }

  /** The map leads from every key of the contents, and from no other key, to its node. */
  ghost predicate Indexes<K, V>(index: map<K, Node<K, V>>, nodes: seq<Node<K, V>>, contents: Cache<K, V>) {
    && |nodes| == |contents|
    && (forall i :: 0 <= i < |contents| ==> contents[i].key in index && index[contents[i].key] == nodes[i])
    && (forall k :: k in index ==> Has(contents, k))
  }

  /** Position k moved to the front. */
  ghost function Moved<T>(s: seq<T>, k: nat, front: T): seq<T>
    requires k < |s|
  {
    [front] + (s[..k] + s[k + 1..])
  }

  lemma StoresMoved<K, V>(nodes: seq<Node<K, V>>, contents: Cache<K, V>, k: nat)
    requires Stores(nodes, contents) && k < |nodes|
    ensures Stores(Moved(nodes, k, nodes[k]), Moved(contents, k, contents[k]))
  {
  }

  lemma IndexesMoved<K, V>(index: map<K, Node<K, V>>, nodes: seq<Node<K, V>>, contents: Cache<K, V>, k: nat, e: Entry<K, V>)
    requires Indexes(index, nodes, contents) && k < |nodes| && e.key == contents[k].key
    ensures Indexes(index, Moved(nodes, k, nodes[k]), Moved(contents, k, e))
  {
    var moved := Moved(contents, k, e);
    forall key | key in index
      ensures Has(moved, key)
    {
      var i :| 0 <= i < |contents| && contents[i].key == key;
      assert moved[if i == k then 0 else if i < k then i + 1 else i].key == key;
    }
  }

  lemma IndexesValue<K, V>(index: map<K, Node<K, V>>, nodes: seq<Node<K, V>>, contents: Cache<K, V>, k: nat, e: Entry<K, V>)
    requires Indexes(index, nodes, contents) && k < |nodes| && e.key == contents[k].key
    ensures Indexes(index, nodes, contents[k := e])
  {
    forall key | key in index
      ensures Has(contents[k := e], key)
    {
      var i :| 0 <= i < |contents| && contents[i].key == key;
      assert contents[k := e][i].key == key;
    }
  }

  lemma IndexesNew<K, V>(index: map<K, Node<K, V>>, nodes: seq<Node<K, V>>, contents: Cache<K, V>, node: Node<K, V>, e: Entry<K, V>)
    requires Indexes(index, nodes, contents) && e.key !in index
    ensures Indexes(index[e.key := node], [node] + nodes, [e] + contents)
  {
    var grown := [e] + contents;
    forall key | key in index[e.key := node]
      ensures Has(grown, key)
    {
      if key == e.key {
        assert grown[0].key == key;
      } else {
        var i :| 0 <= i < |contents| && contents[i].key == key;
        assert grown[i + 1].key == key;
      }
    }
  }

  lemma FreshKey<K, V>(index: map<K, Node<K, V>>, nodes: seq<Node<K, V>>, contents: Cache<K, V>, key: K, value: V)
    requires Indexes(index, nodes, contents) && Distinct(contents) && key !in index
    ensures Distinct([Entry(key, value)] + contents)
  {
    assert forall i :: 0 <= i < |contents| ==> contents[i].key in index;
  }

  lemma IndexesEvicted<K, V>(index: map<K, Node<K, V>>, nodes: seq<Node<K, V>>, contents: Cache<K, V>)
    requires Indexes(index, nodes, contents) && Distinct(contents) && contents != []
    ensures var n := |contents| - 1;
            Indexes(index - {contents[n].key}, nodes[..n], contents[..n])
  {
    var n := |contents| - 1;
    var rest := index - {contents[n].key};
    forall key | key in rest
      ensures Has(contents[..n], key)
    {
      var i :| 0 <= i < |contents| && contents[i].key == key;
      assert contents[..n][i].key == key;
    }
  }

  /** The map has as many keys as the list has nodes. */
  lemma {:induction false} IndexesSize<K, V>(index: map<K, Node<K, V>>, nodes: seq<Node<K, V>>, contents: Cache<K, V>)
    requires Indexes(index, nodes, contents) && Distinct(contents)
    ensures |index| == |contents|
    decreases |contents|
  {
    if contents == [] {
      assert index.Keys == {};
    } else {
      var n := |contents| - 1;
      IndexesEvicted(index, nodes, contents);
      var rest := index - {contents[n].key};
      IndexesSize(rest, nodes[..n], contents[..n]);
      assert index.Keys == rest.Keys + {contents[n].key};
    }
  }

  /** What a call that finds its key, at position k, does to the contents. */
  lemma StepFound<K, V>(capacity: nat, s: Cache<K, V>, op: Op<K, V>, k: nat)
    requires Distinct(s) && |s| <= capacity && k < |s| && s[k].key == op.key
    ensures Has(s, op.key) && Find(s, op.key) == s[k]
    ensures Step(capacity, s, op) == Moved(s, k, if op.Put? then Entry(op.key, op.value) else s[k])
  {
    WithoutAt(s, k);
  }

  /** What a call that does not find its key does to the contents. */
  lemma StepMissed<K, V>(capacity: nat, s: Cache<K, V>, op: Op<K, V>)
    requires |s| <= capacity && !Has(s, op.key)
    ensures Step(capacity, s, op) == if op.Get? then s else Take([Entry(op.key, op.value)] + s, capacity)
  {
    WithoutContents(s, op.key);
  }

  class LRUCache<K(0, ==), V(0)> {
    const capacity: nat
    const head: Node<K, V>
    const tail: Node<K, V>
    var index: map<K, Node<K, V>>
    var hits: nat
    var misses: nat
    var evictions: nat
    ghost var nodes: seq<Node<K, V>>   // the real nodes, most recently used first
    ghost var contents: Cache<K, V>    // their entries

    ghost function Chain(): seq<Node<K, V>>
      reads this`nodes
    {
      [head] + nodes + [tail]
    }

    /** The nodes of the list and the two sentinels. */
    ghost function Repr(): set<Node<K, V>>
      reads this`nodes
    {
      set n | n in Chain()
    }

    ghost function Link(i: nat): Node<K, V>
      requires i < |nodes| + 2
      reads this`nodes
    {
      Chain()[i]
    }

    /** The structural part of the invariant: list and map agree with one sequence of entries. */
    ghost predicate Shaped()
      reads this`index, this`nodes, this`contents, nodes, Chain()
    {
      Linked(Chain()) && Stores(nodes, contents) && Indexes(index, nodes, contents)
    }

    ghost predicate Valid()
      reads this`index, this`nodes, this`contents, nodes, Chain()
    {
      && capacity > 0
      && Shaped()
      && Distinct(contents) && |contents| <= capacity
    }

    constructor (capacity: nat)
      requires capacity > 0
      ensures Valid() && this.capacity == capacity && contents == []
      ensures hits == 0 && misses == 0 && evictions == 0 && fresh(Repr())
    {
      this.capacity := capacity;
      var k: K := *;
      var v: V := *;
      var h := new Node(k, v);
      var t := new Node(k, v);
      h.next, t.prev := t, h;
      head, tail := h, t;
      index, hits, misses, evictions := map[], 0, 0, 0;
      nodes, contents := [], [];
    }

    /** `_remove`: splices the node at position k of the list out. */
    method Remove(node: Node<K, V>, ghost k: nat)
      requires Linked(Chain()) && k < |nodes| && nodes[k] == node
      modifies this`nodes, Link(k)`next, Link(k + 2)`prev
      ensures nodes == old(nodes)[..k] + old(nodes)[k + 1..]
      ensures Linked(Chain()) && Repr() <= old(Repr()) && node !in Chain()
    {
      ghost var chain := Chain();
      assert chain[k + 1] == node;
      assert chain[k + 1].prev == chain[k] && chain[k + 1].next == chain[k + 2];
      node.prev.next := node.next;
      node.next.prev := node.prev;
      nodes := nodes[..k] + nodes[k + 1..];
      assert Chain() == chain[..k + 1] + chain[k + 2..];
      assert Spliced(chain, k);
      SplicedLinks(chain, k);
    }

    /** `_push_front`: inserts a node that is not in the list right after the head sentinel. */
    method PushFront(node: Node<K, V>)
      requires Linked(Chain()) && node !in Chain()
      modifies this`nodes, head`next, Link(1)`prev, node`next, node`prev
      ensures nodes == [node] + old(nodes)
      ensures Linked(Chain()) && Repr() <= old(Repr()) + {node}
    {
      ghost var chain := Chain();
      assert chain[0] == head && chain[0].next == chain[1];
      node.prev := head;
      node.next := head.next;
      head.next.prev := node;
      head.next := node;
      nodes := [node] + nodes;
      assert Chain() == [head, node] + chain[1..];
    }

    /** Moves the node at position k to the front: the two splices that `get` and `put` share. */
    method Touch(node: Node<K, V>, ghost k: nat)
      requires Linked(Chain()) && k < |nodes| && nodes[k] == node
      modifies this`nodes, Repr()`next, Repr()`prev
      ensures nodes == Moved(old(nodes), k, node) && Repr() <= old(Repr())
      ensures Linked(Chain())
    {
      ghost var chain := Chain();
      assert chain[k + 1] == node;
      assert chain[k] in Repr() && chain[k + 2] in Repr();
      Remove(node, k);
      assert Link(1) in Repr();
      PushFront(node);
    }

    /** Touch together with its effect on the contents. */
    method Promote(node: Node<K, V>, ghost k: nat)
      requires Shaped() && k < |nodes| && nodes[k] == node
      modifies this`nodes, this`contents, Repr()`next, Repr()`prev
      ensures Shaped() && contents == Moved(old(contents), k, old(contents)[k])
      ensures nodes == Moved(old(nodes), k, node) && Repr() <= old(Repr())
    {
      ghost var were := nodes;
      IndexesMoved(index, nodes, contents, k, contents[k]);
      Touch(node, k);
      StoresMoved(were, contents, k);
      contents := Moved(contents, k, contents[k]);
    }

    /** `node.value = value` */
    method SetValue(node: Node<K, V>, ghost k: nat, value: V)
      requires Shaped() && k < |nodes| && nodes[k] == node
      modifies node`value, this`contents
      ensures Shaped() && contents == old(contents)[k := Entry(old(contents)[k].key, value)]
    {
      IndexesValue(index, nodes, contents, k, Entry(contents[k].key, value));
      forall i | 0 <= i < |nodes| && i != k
        ensures nodes[i] != node
      {
        assert Chain()[i + 1] == nodes[i] && Chain()[k + 1] == node;
      }
      node.value := value;
      assert Linked(Chain());
      contents := contents[k := Entry(contents[k].key, value)];
    }

    /** The insertion branch of `put`. */
    method Insert(key: K, value: V)
      requires Shaped() && key !in index
      modifies this`index, this`nodes, this`contents, head`next, Link(1)`prev
      ensures Shaped() && contents == [Entry(key, value)] + old(contents)
      ensures fresh(Repr() - old(Repr()))
    {
      var node := new Node(key, value);
      IndexesNew(index, nodes, contents, node, Entry(key, value));
      index := index[key := node];
      PushFront(node);
      contents := [Entry(key, value)] + contents;
    }

    /** The eviction branch of `put`: the node before the tail sentinel goes. */
    method Evict()
      requires Shaped() && Distinct(contents) && nodes != []
      modifies this`index, this`nodes, this`contents, Link(|nodes| - 1)`next, tail`prev
      ensures Shaped() && contents == old(contents)[..|old(contents)| - 1]
      ensures nodes == old(nodes)[..|old(nodes)| - 1] && Repr() <= old(Repr())
    {
      ghost var n := |nodes| - 1;
      assert Chain()[n + 2].prev == Chain()[n + 1];
      var lru := tail.prev;
      IndexesEvicted(index, nodes, contents);
      Remove(lru, n);
      index := index - {lru.key};
      contents := contents[..n];
    }

    /** `get` of a key that is present. */
    method Hit(key: K) returns (v: V)
      requires Valid() && key in index
      modifies this`nodes, this`contents, this`hits, Repr()
      ensures Valid() && contents == Step(capacity, old(contents), Op.Get(key)) && hits == old(hits) + 1
      ensures Has(old(contents), key) && v == Find(old(contents), key).value
      ensures Repr() <= old(Repr())
    {
      ghost var k :| 0 <= k < |contents| && contents[k].key == key;
      StepFound(capacity, contents, Op.Get(key), k);
      StepKeeps(capacity, contents, Op.Get(key));
      var node := index[key];
      assert nodes[k] == node;
      v := node.value;
      hits := hits + 1;
      Promote(node, k);
    }

    method Get(key: K, default: V) returns (v: V)
      requires Valid()
      modifies this`nodes, this`contents, this`hits, this`misses, Repr()
      ensures Valid() && contents == Step(capacity, old(contents), Op.Get(key))
      ensures if Has(old(contents), key) then
                v == Find(old(contents), key).value && hits == old(hits) + 1 && misses == old(misses)
              else
                v == default && hits == old(hits) && misses == old(misses) + 1
      ensures Repr() <= old(Repr())
    {
      if key !in index {
        StepMissed(capacity, contents, Op.Get(key));
        misses := misses + 1;
        v := default;
      } else {
        v := Hit(key);
      }
    }

    /** The update branch of `put`. */
    method Overwrite(node: Node<K, V>, ghost k: nat, value: V)
      requires Shaped() && k < |nodes| && nodes[k] == node
      modifies this`nodes, this`contents, Repr()
      ensures Shaped() && contents == Moved(old(contents), k, Entry(old(contents)[k].key, value))
      ensures Repr() <= old(Repr())
    {
      assert Chain()[k + 1] == node;
      SetValue(node, k, value);
      Promote(node, k);
    }

    /** Evicts if the map exceeds the capacity. */
    method Trim()
      requires Shaped() && Distinct(contents) && 0 < |contents| <= capacity + 1
      modifies this`index, this`nodes, this`contents, this`evictions, Repr()`next, Repr()`prev
      ensures Shaped() && contents == Take(old(contents), capacity)
      ensures evictions == old(evictions) + if |old(contents)| > capacity then 1 else 0
      ensures Repr() <= old(Repr())
    {
      IndexesSize(index, nodes, contents);
      if |index| > capacity {
        evictions := evictions + 1;
        assert tail in Repr() && Link(|nodes| - 1) in Repr();
        Evict();
      }
    }

    /** `put` of a key that is absent. */
    method Add(key: K, value: V)
      requires Valid() && key !in index
      modifies this`index, this`nodes, this`contents, this`evictions, Repr()
      ensures Shaped() && contents == Take([Entry(key, value)] + old(contents), capacity)
      ensures evictions == old(evictions) + if |old(contents)| == capacity then 1 else 0
      ensures fresh(Repr() - old(Repr()))
    {
      FreshKey(index, nodes, contents, key, value);
      assert head in Repr() && Link(1) in Repr();
      Insert(key, value);
      Trim();
    }

    method Put(key: K, value: V)
      requires Valid()
      modifies this`index, this`nodes, this`contents, this`evictions, Repr()
      ensures Valid() && contents == Step(capacity, old(contents), Op.Put(key, value))
      ensures evictions == old(evictions) +
                if !Has(old(contents), key) && |old(contents)| == capacity then 1 else 0
      ensures fresh(Repr() - old(Repr()))
    {
      ghost var op := Op.Put(key, value);
      StepKeeps(capacity, contents, op);
      if key in index {
        ghost var k :| 0 <= k < |contents| && contents[k].key == key;
        StepFound(capacity, contents, op, k);
        var node := index[key];
        assert nodes[k] == node;
        Overwrite(node, k, value);
      } else {
        StepMissed(capacity, contents, op);
        Add(key, value);
      }
    }

    /** `__len__` counts the map; the list has the same length. */
    method Size() returns (n: nat)
      requires Valid()
      ensures n == |nodes| == |contents| <= capacity
    {
      IndexesSize(index, nodes, contents);
      n := |index|;
    }
  }

  /** A whole trace of calls on a new cache: its contents and its eviction counter are those of the
      trace, so every law of LruSpec about traces holds of the heap structure. */
  method Replay<K(0, ==), V(0)>(capacity: nat, ops: seq<Op<K, V>>, default: V) returns (cache: LRUCache<K, V>)
    requires capacity > 0
    ensures fresh(cache) && cache.Valid() && cache.capacity == capacity
    ensures cache.contents == Run(capacity, ops) && cache.evictions == Evictions(capacity, ops)
    ensures cache.evictions + |cache.nodes| == Insertions(capacity, ops)
  {
    cache := new LRUCache(capacity);
    for i := 0 to |ops|
      invariant fresh(cache) && cache.Valid() && cache.capacity == capacity
      invariant fresh(cache.Repr())
      invariant cache.contents == Run(capacity, ops[..i]) && cache.evictions == Evictions(capacity, ops[..i])
    {
      assert ops[..i + 1][..i] == ops[..i];
      match ops[i] {
        case Get(k) => var v := cache.Get(k, default);
        case Put(k, v) => cache.Put(k, v);
      }
    }
    assert ops[..|ops|] == ops;
    EvictionsBalance(capacity, ops);
  }
}
