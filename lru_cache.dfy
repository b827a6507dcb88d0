/**
 * The LRU cache itself: a map `hash` from key to node together with a
 * doubly-linked recency list between the sentinels `head` and `tail`.
 * The ghost sequence `nodes` lists the nodes from `head` to `tail`, and the
 * ghost sequence `contents` is the abstract view of module LruSpec; every
 * method is proved to update `contents` as the LruSpec function of the same
 * name does.
 */
module LruCache {
  import opened LruSpec

  /** One list node. The cache never changes a node's key or value. */
  class Node {
    const key: int
    const val: int
    var prev: Node?
    var next: Node?

    constructor (key: int, value: int)
      ensures this.key == key && val == value
      ensures prev == null && next == null
    {
      this.key := key;
      val := value;
      prev := null;
      next := null;
    }
  }

  /** No node occurs twice. */
  ghost predicate Distinct(ns: seq<Node>)
  {
    forall i, j :: 0 <= i < j < |ns| ==> ns[i] != ns[j]
  }

  /** Neighbouring nodes point at each other. */
  ghost predicate Linked(ns: seq<Node>)
    reads ns
  {
    && (forall i :: 0 <= i < |ns| - 1 ==> ns[i].next == ns[i + 1])
    && (forall i :: 1 <= i < |ns| ==> ns[i].prev == ns[i - 1])
  }

  /** cs lists the entries of the nodes strictly between the first and the last. */
  ghost predicate Abstracts(ns: seq<Node>, cs: seq<Entry>)
  {
    && |ns| >= 2 && |cs| == |ns| - 2
    && forall i :: 0 <= i < |cs| ==> cs[i] == (ns[i + 1].key, ns[i + 1].val)
  }

  /** hash sends the key of every inner node to that node. */
  ghost predicate Indexes(hash: map<int, Node>, ns: seq<Node>)
  {
    forall i :: 1 <= i < |ns| - 1 ==> ns[i].key in hash && hash[ns[i].key] == ns[i]
  }

  /** Every node of ns belongs to Repr. */
  ghost predicate Within(ns: seq<Node>, Repr: set<Node>)
  {
    forall i :: 0 <= i < |ns| ==> ns[i] in Repr
  }

  /**
   * The facts about the list that do not depend on the heap: the nodes are
   * distinct and belong to Repr, cs lists their entries with distinct keys,
   * and hash indexes exactly those keys.
   */
  ghost predicate Shape(ns: seq<Node>, cs: seq<Entry>, hash: map<int, Node>, Repr: set<Node>)
  {
    && Distinct(ns) && Within(ns, Repr) && Abstracts(ns, cs)
    && UniqueKeys(cs) && hash.Keys == KeySet(cs) && Indexes(hash, ns)
  }

  /** Dropping the inner node at position i is the abstract `delete` of its key. */
  lemma Drop(ns: seq<Node>, cs: seq<Entry>, hash: map<int, Node>, Repr: set<Node>, i: nat)
    requires Shape(ns, cs, hash, Repr) && 1 <= i < |ns| - 1
    ensures Shape(ns[..i] + ns[i + 1..], cs[..i - 1] + cs[i..], hash - {ns[i].key}, Repr - {ns[i]})
    ensures LruSpec.Delete(cs, ns[i].key) == (Ok(()), cs[..i - 1] + cs[i..])
  {
    var key := ns[i].key;
    assert cs[i - 1].0 == key;
    KeySetContains(cs);
    assert IndexOf(cs, key) == i - 1;
    DeletePresent(cs, key);
    var ms := ns[..i] + ns[i + 1..];
    forall a, b | 0 <= a < b < |ms| ensures ms[a] != ms[b] {
      var a', b' := if a < i then a else a + 1, if b < i then b else b + 1;
      assert ms[a] == ns[a'] && ms[b] == ns[b'];
    }
    var ds := cs[..i - 1] + cs[i..];
    forall j | 0 <= j < |ds| ensures ds[j] == (ms[j + 1].key, ms[j + 1].val) {
      var j' := if j < i - 1 then j else j + 1;
      assert ds[j] == cs[j'] && ms[j + 1] == ns[j' + 1];
    }
    forall j | 1 <= j < |ms| - 1
      ensures ms[j].key in hash - {key} && (hash - {key})[ms[j].key] == ms[j]
    {
      var j' := if j < i then j else j + 1;
      assert ms[j] == ns[j'] && ns[j'] != ns[i];
    }
    forall j | 0 <= j < |ms| ensures ms[j] in Repr - {ns[i]} {
      var j' := if j < i then j else j + 1;
      assert ms[j] == ns[j'] && ns[j'] != ns[i];
    }
  }

  /** Inserting a new node n right after the first is the abstract `add`. */
  lemma Push(ns: seq<Node>, cs: seq<Entry>, hash: map<int, Node>, Repr: set<Node>, n: Node)
    requires Shape(ns, cs, hash, Repr) && n !in Repr && n.key !in hash
    ensures Shape([ns[0], n] + ns[1..], LruSpec.Add(cs, n.key, n.val), hash[n.key := n], Repr + {n})
  {
  }

  /** The links after splicing n in right after ns[0]. */
  lemma LinkedPush(ns: seq<Node>, n: Node)
    requires |ns| >= 2
    requires ns[0].next == n && n.prev == ns[0] && n.next == ns[1] && ns[1].prev == n
    requires forall j :: 1 <= j < |ns| - 1 ==> ns[j].next == ns[j + 1]
    requires forall j :: 2 <= j < |ns| ==> ns[j].prev == ns[j - 1]
    ensures Linked([ns[0], n] + ns[1..])
  {
  }

  /** The links after joining the neighbours of ns[i] to each other. */
  lemma LinkedDrop(ns: seq<Node>, i: nat)
    requires 1 <= i < |ns| - 1
    requires ns[i - 1].next == ns[i + 1] && ns[i + 1].prev == ns[i - 1]
    requires forall j :: 0 <= j < |ns| - 1 && j != i - 1 && j != i ==> ns[j].next == ns[j + 1]
    requires forall j :: 1 <= j < |ns| && j != i && j != i + 1 ==> ns[j].prev == ns[j - 1]
    ensures Linked(ns[..i] + ns[i + 1..])
  {
  }

  class LRUCache {
    var head: Node
    var tail: Node
    var capacity: int
    var hash: map<int, Node>

    /** The list from `head` to `tail`, both included. */
    ghost var nodes: seq<Node>
    /** The entries of the nodes strictly between the sentinels, MRU first. */
    ghost var contents: seq<Entry>
    ghost var Repr: set<Node>

    /** The list is well linked and `hash` indexes exactly its entries. */
    ghost predicate Valid()
      reads this, Repr
    {
      && |nodes| >= 2
      && nodes[0] == head && nodes[|nodes| - 1] == tail
      && Shape(nodes, contents, hash, Repr)
      && head.prev == null && tail.next == null
      && Linked(nodes)
    }

    /** An empty cache: the two sentinels linked to each other. */
    constructor (capacity: int)
      ensures Valid() && fresh(Repr)
      ensures contents == [] && hash == map[]
      ensures head.next == tail && tail.prev == head
      ensures this.capacity == capacity
    {
      var h := new Node(0, 0);
      var t := new Node(0, 0);
      h.next := t;
      t.prev := h;
      head, tail := h, t;
      this.capacity := capacity;
      hash := map[];
      nodes := [h, t];
      contents := [];
      Repr := {h, t};
    }

    /** The number of entries is the number of keys in `hash`. */
    lemma SizeIsLength()
      requires Valid()
      ensures |hash| == |contents|
    {
      UniqueKeysCard(contents);
      assert |hash| == |hash.Keys|;
    }

    /** The node of a present key sits at position IndexOf + 1 of `nodes`. */
    lemma NodeOf(key: int) returns (i: nat)
      requires Valid() && key in hash
      ensures 1 <= i < |nodes| - 1 && i == IndexOf(contents, key) + 1
      ensures hash[key] == nodes[i] && nodes[i].key == key
    {
      i := IndexOf(contents, key) + 1;
    }

    /** Unlinking old(nodes)[i] and forgetting its key keeps the cache valid. */
    twostate lemma Unlinked(i: nat)
      requires old(Valid()) && 1 <= i < |old(nodes)| - 1
      requires head == old(head) && tail == old(tail)
      requires nodes == old(nodes)[..i] + old(nodes)[i + 1..]
      requires contents == old(contents)[..i - 1] + old(contents)[i..]
      requires hash == old(hash) - {old(nodes)[i].key} && Repr == old(Repr) - {old(nodes)[i]}
      requires old(nodes)[i - 1].next == old(nodes)[i + 1] && old(nodes)[i + 1].prev == old(nodes)[i - 1]
      requires forall n: Node :: n in old(Repr) && n != old(nodes)[i - 1] ==> n.next == old(n.next)
      requires forall n: Node :: n in old(Repr) && n != old(nodes)[i + 1] ==> n.prev == old(n.prev)
      ensures Valid() && LruSpec.Delete(old(contents), old(nodes)[i].key) == (Ok(()), contents)
    {
      var ns := old(nodes);
      forall j | 0 <= j < |ns| - 1 && j != i - 1 && j != i ensures ns[j].next == ns[j + 1] {
        assert ns[j] != ns[i - 1];
      }
      forall j | 1 <= j < |ns| && j != i && j != i + 1 ensures ns[j].prev == ns[j - 1] {
        assert ns[j] != ns[i + 1];
      }
      Drop(ns, old(contents), old(hash), old(Repr), i);
      LinkedDrop(ns, i);
    }

    /** Splicing the new node n in after `head` and indexing its key keeps the cache valid. */
    twostate lemma Spliced(new n: Node)
      requires old(Valid()) && n !in old(Repr) && n.key !in old(hash)
      requires head == old(head) && tail == old(tail)
      requires nodes == [head, n] + old(nodes)[1..] && contents == LruSpec.Add(old(contents), n.key, n.val)
      requires hash == old(hash)[n.key := n] && Repr == old(Repr) + {n}
      requires head.next == n && n.prev == head && n.next == old(nodes)[1] && old(nodes)[1].prev == n
      requires forall m: Node :: m in old(Repr) && m != head ==> m.next == old(m.next)
      requires forall m: Node :: m in old(Repr) && m != old(nodes)[1] ==> m.prev == old(m.prev)
      ensures Valid()
    {
      var ns := old(nodes);
      forall j | 1 <= j < |ns| - 1 ensures ns[j].next == ns[j + 1] {
        assert ns[j] != ns[0];
      }
      forall j | 2 <= j < |ns| ensures ns[j].prev == ns[j - 1] {
        assert ns[j] != ns[1];
      }
      Push(ns, old(contents), old(hash), old(Repr), n);
      LinkedPush(ns, n);
    }

    /** Splices a new node for key right after `head` and indexes it. */
    method Add(key: int, value: int)
      requires Valid() && key !in hash
      modifies this, Repr
      ensures Valid() && fresh(Repr - old(Repr))
      ensures contents == LruSpec.Add(old(contents), key, value)
      ensures key in hash && fresh(hash[key]) && hash == old(hash)[key := hash[key]]
      ensures head == old(head) && tail == old(tail) && capacity == old(capacity)
    {
      ghost var ns := nodes;
      var node := new Node(key, value);
      var nxt := head.next;
      nxt.prev := node;
      head.next := node;
      node.prev := head;
      node.next := nxt;
      hash, nodes, contents, Repr := hash[key := node], [head, node] + ns[1..], LruSpec.Add(contents, key, value), Repr + {node};
      Spliced(node);
    }

    /** Unlinks the node of key and drops key from `hash`; fails on an absent key. */
    method Delete(key: int) returns (r: Result<()>)
      requires Valid()
      modifies this, Repr
      ensures Valid() && Repr <= old(Repr)
      ensures (r, contents) == LruSpec.Delete(old(contents), key)
      ensures r.Ok? ==> hash == old(hash) - {key}
      ensures r.Err? ==> unchanged(this) && unchanged(Repr)
      ensures head == old(head) && tail == old(tail) && capacity == old(capacity)
    {
      if key in hash {
        ghost var i := NodeOf(key);
        ghost var ns, cs := nodes, contents;
        var node := hash[key];
        var prev := node.prev;
        var nxt := node.next;
        assert prev == ns[i - 1] && nxt == ns[i + 1];
        prev.next := nxt;
        nxt.prev := prev;
        hash, nodes, contents, Repr := hash - {key}, ns[..i] + ns[i + 1..], cs[..i - 1] + cs[i..], Repr - {node};
        Unlinked(i);
        r := Ok(());
      } else {
        r := Err(NoKeyException);
      }
    }

    /** Returns the value of key and makes it the most recently used entry. */
    method Get(key: int) returns (r: Result<int>)
      requires Valid()
      modifies this, Repr
      ensures Valid() && fresh(Repr - old(Repr))
      ensures (r, contents) == LruSpec.Get(old(contents), key)
      ensures hash.Keys == old(hash.Keys)
      ensures r.Err? ==> unchanged(this) && unchanged(Repr)
      ensures head == old(head) && tail == old(tail) && capacity == old(capacity)
    {
      if key in hash {
        ghost var i := NodeOf(key);
        var value := hash[key].val;
        var d := Delete(key);
        Add(key, value);
        r := Ok(value);
      } else {
        r := Err(NoKeyException);
      }
    }

    /**
     * Stores value under key as the most recently used entry; a new key that
     * makes the cache overflow evicts the entry at `tail.prev`.
     */
    method Put(key: int, value: int)
      requires Valid()
      modifies this, Repr
      ensures Valid() && fresh(Repr - old(Repr))
      ensures contents == LruSpec.Put(old(contents), capacity, key, value)
      ensures |hash| == |contents|
      ensures old(|hash|) <= Bound(capacity) ==> |hash| <= Bound(capacity)
      ensures head == old(head) && tail == old(tail) && capacity == old(capacity)
    {
      ghost var s := contents;
      SizeIsLength();
      if key in hash {
        var d := Delete(key);
        Add(key, value);
      } else {
        Add(key, value);
        SizeIsLength();
        if |hash| > capacity {
          var lru := tail.prev;
          assert lru == nodes[|nodes| - 2];
          var d := Delete(lru.key);
        }
      }
      SizeIsLength();
      if |s| <= Bound(capacity) {
        PutKeepsInvariant(s, capacity, key, value);
      }
    }

    /** Drops every entry: fresh sentinels linked to each other, same capacity. */
    method Reset()
      modifies this
      ensures Valid() && fresh(Repr)
      ensures contents == [] && hash == map[]
      ensures head.next == tail && tail.prev == head
      ensures capacity == old(capacity)
    {
      hash := map[];
      var h := new Node(0, 0);
      var t := new Node(0, 0);
      h.next := t;
      t.prev := h;
      head, tail := h, t;
      nodes := [h, t];
      contents := [];
      Repr := {h, t};
    }
  }
}
