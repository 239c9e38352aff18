/**
 The chained hash table: an array of buckets, each the head of a doubly linked list whose nodes are
 relinked in place. The table is a map from keys to stacks of values: adding pushes, looking up
 gives the newest value, freeing pops.
 */
module HashTable {
  import opened Basics

  /** The values stored under a key in one bucket, newest first. */
  function StackOf<K(==), V>(entries: seq<(K, V)>, key: K): seq<V> {
    if entries == [] then []
    else (if entries[0].0 == key then [entries[0].1] else []) + StackOf(entries[1..], key)
  }

  /** The position of the newest entry with a key, or the length when there is none. */
  function Newest<K(==), V>(entries: seq<(K, V)>, key: K): (i: nat)
    ensures i <= |entries|
    ensures forall j :: 0 <= j < i ==> entries[j].0 != key
    ensures i < |entries| ==> entries[i].0 == key
  {
    if entries == [] || entries[0].0 == key then 0 else 1 + Newest(entries[1..], key)
  }

  lemma NewestIs<K, V>(entries: seq<(K, V)>, key: K, i: nat)
    requires i <= |entries| && (forall j :: 0 <= j < i ==> entries[j].0 != key)
    requires i < |entries| ==> entries[i].0 == key
    ensures Newest(entries, key) == i
  {}

  /** A key has a value exactly when the search finds an entry, and that entry holds the newest one. */
  lemma {:induction false} NewestIsTop<K, V>(entries: seq<(K, V)>, key: K)
    ensures var i := Newest(entries, key);
            if i == |entries| then StackOf(entries, key) == []
            else StackOf(entries, key) != [] && StackOf(entries, key)[0] == entries[i].1
    decreases |entries|
  {
    if entries != [] && entries[0].0 != key {
      NewestIsTop(entries[1..], key);
    }
  }

  /** One step along the chain. */
  lemma ChainStep<K, V>(entries: seq<(K, V)>, key: K, other: K)
    requires entries != []
    ensures Newest(entries, key) == if entries[0].0 == key then 0 else 1 + Newest(entries[1..], key)
    ensures StackOf(entries, other)
         == (if entries[0].0 == other then [entries[0].1] else []) + StackOf(entries[1..], other)
  {}

  /** The stack of the first entry's key. */
  lemma TopOf<K, V>(entries: seq<(K, V)>, key: K)
    requires entries != [] && entries[0].0 == key
    ensures StackOf(entries, key) == [entries[0].1] + StackOf(entries[1..], key)
    ensures StackOf(entries, key)[1..] == StackOf(entries[1..], key)
  {}

  /** Removing the newest entry with a key pops that key's stack and leaves every other stack alone. */
  lemma {:induction false} RemoveNewest<K, V>(entries: seq<(K, V)>, key: K, other: K)
    requires Newest(entries, key) < |entries|
    ensures var i := Newest(entries, key);
            && StackOf(entries, key) != []
            && StackOf(entries[..i] + entries[i + 1..], other)
               == if other == key then StackOf(entries, key)[1..] else StackOf(entries, other)
    decreases |entries|
  {
    hide Newest, StackOf;
    var i := Newest(entries, key);
    ChainStep(entries, key, key);
    ChainStep(entries, key, other);
    if i == 0 {
      assert entries[..0] + entries[1..] == entries[1..];
      TopOf(entries, key);
    } else {
      RemoveNewest(entries[1..], key, other);
      var rest := entries[..i] + entries[i + 1..];
      assert rest[0] == entries[0];
      assert rest[1..] == entries[1..][..i - 1] + entries[1..][i..];
      ChainStep(rest, key, other);
    }
  }

  /** Overwriting the newest value of a key changes the top of its stack only. */
  lemma {:induction false} ReplaceNewest<K, V>(entries: seq<(K, V)>, key: K, value: V, other: K)
    requires Newest(entries, key) < |entries|
    ensures StackOf(entries, key) != []
    ensures StackOf(entries[Newest(entries, key) := (key, value)], other)
            == if other == key then [value] + StackOf(entries, key)[1..] else StackOf(entries, other)
    decreases |entries|
  {
    hide Newest, StackOf;
    var i := Newest(entries, key);
    var after := entries[i := (key, value)];
    ChainStep(entries, key, key);
    ChainStep(entries, key, other);
    ChainStep(after, key, other);
    if i == 0 {
      assert after[1..] == entries[1..];
      TopOf(entries, key);
    } else {
      ReplaceNewest(entries[1..], key, value, other);
      assert after[1..] == entries[1..][i - 1 := (key, value)];
    }
  }

  class Node<K, V> {
    const key: K
    var value: V
    var pre: Node?<K, V>
    var next: Node?<K, V>

    constructor (key: K, value: V)
      ensures this.key == key && this.value == value && pre == null && next == null
    {
      this.key, this.value, pre, next := key, value, null, null;
    }
  }

  class Hash<K(==, !new), V> {
    const buckets: nat
    const hashFunc: (nat, K) -> nat
    const nodes: array<Node?<K, V>>
    ghost var chains: seq<seq<Node<K, V>>>
    ghost var entries: seq<seq<(K, V)>>

    /** One node of a chain: its entry, its bucket and its links to both sides. */
    ghost predicate LinkAt(chain: seq<Node<K, V>>, es: seq<(K, V)>, bucket: nat, i: nat)
      requires i < |chain| == |es|
      reads chain[i]
    {
      && (chain[i].key, chain[i].value) == es[i]
      && hashFunc(buckets, chain[i].key) == bucket
      && chain[i].pre == (if i == 0 then null else chain[i - 1])
      && chain[i].next == (if i + 1 == |chain| then null else chain[i + 1])
    }

    /** The nodes of one bucket in order: linked both ways, holding the entries, in the right bucket. */
    ghost predicate Linked(chain: seq<Node<K, V>>, es: seq<(K, V)>, bucket: nat)
      reads chain
    {
      |chain| == |es| && forall i :: 0 <= i < |chain| ==> LinkAt(chain, es, bucket, i)
    }

    function Head(chain: seq<Node<K, V>>): Node?<K, V> {
      if chain == [] then null else chain[0]
    }

    ghost predicate Valid()
      reads this, nodes, Nodes()
    {
      && nodes.Length == |chains| == |entries| == buckets
      && (forall k :: hashFunc(buckets, k) < buckets)
      && forall b :: 0 <= b < buckets ==> nodes[b] == Head(chains[b]) && Linked(chains[b], entries[b], b)
    }

    ghost function Nodes(): set<Node<K, V>>
      reads this
    {
      set b, i | 0 <= b < |chains| && 0 <= i < |chains[b]| :: chains[b][i]
    }

    /** The abstract value: what is stored under a key, newest first. */
    ghost function Stack(key: K): seq<V>
      requires Valid()
      reads this, nodes, Nodes()
    {
      StackOf(entries[hashFunc(buckets, key)], key)
    }

    /** `hash_alloc`: all buckets empty. */
    constructor (buckets: nat, hashFunc: (nat, K) -> nat)
      requires forall k :: hashFunc(buckets, k) < buckets
      ensures Valid() && fresh(nodes) && this.buckets == buckets && this.hashFunc == hashFunc && Nodes() == {}
      ensures chains == seq(buckets, _ => []) && forall k :: Stack(k) == []
    {
      this.buckets, this.hashFunc := buckets, hashFunc;
      nodes := new Node?<K, V>[buckets](_ => null);
      chains := seq(buckets, _ => []);
      entries := seq(buckets, _ => []);
    }

    /** `hash_get_bucket`: the bucket the hash function names. */
    method GetBucket(key: K) returns (pos: nat)
      requires Valid()
      ensures pos == hashFunc(buckets, key) < nodes.Length
    {
      pos := hashFunc(buckets, key);
    }

    /** `hash_get_node_by_key`: the first node of the chain with the key. */
    method GetNodeByKey(key: K) returns (node: Node?<K, V>, ghost i: nat)
      requires Valid()
      ensures var b := hashFunc(buckets, key);
              && i == Newest(entries[b], key)
              && node == if i == |chains[b]| then null else chains[b][i]
    {
      hide Newest, LinkAt;
      var pos := GetBucket(key);
      ghost var chain, es := chains[pos], entries[pos];
      node := nodes[pos];
      i := 0;
      while node != null && node.key != key
        invariant 0 <= i <= |chain| && node == if i == |chain| then null else chain[i]
        invariant forall j :: 0 <= j < i ==> es[j].0 != key
        decreases |chain| - i
      {
        NodeAt(chain, es, pos, i);
        node := node.next;
        i := i + 1;
      }
      if i < |chain| {
        NodeAt(chain, es, pos, i);
      }
      NewestIs(es, key, i);
    }

    /** The node at position i of its chain holds the newest value of the key. */
    ghost predicate IsNewest(key: K, node: Node<K, V>, i: nat)
      requires Valid()
      reads this, nodes, Nodes()
    {
      var b := hashFunc(buckets, key);
      i == Newest(entries[b], key) < |chains[b]| && node == chains[b][i]
    }

    /** `hash_lookup_value_by_key`: the newest value stored under the key, or none. */
    method LookupValueByKey(key: K) returns (node: Node?<K, V>, ghost i: nat)
      requires Valid()
      ensures node == null <==> Stack(key) == []
      ensures node != null ==> IsNewest(key, node, i) && node.value == Stack(key)[0]
    {
      node, i := GetNodeByKey(key);
      ghost var b := hashFunc(buckets, key);
      NewestIsTop(entries[b], key);
      if node != null {
        LinkedAt(chains[b], entries[b], b, i);
      }
    }

    /** A bucket whose nodes were not touched stays linked. */
    twostate lemma Untouched(b: nat)
      requires b < old(|chains|) && old(|chains|) <= old(|entries|)
      requires old(Linked(chains[b], entries[b], b))
      requires forall i :: 0 <= i < |old(chains[b])| ==> unchanged(old(chains[b])[i])
      ensures Linked(old(chains[b]), old(entries[b]), b)
    {}

    lemma LinkedAt(chain: seq<Node<K, V>>, es: seq<(K, V)>, b: nat, i: nat)
      requires Linked(chain, es, b) && i < |chain|
      ensures |es| == |chain| && LinkAt(chain, es, b, i)
    {}

    lemma NodeAt(chain: seq<Node<K, V>>, es: seq<(K, V)>, b: nat, i: nat)
      requires Linked(chain, es, b) && i < |chain|
      ensures |es| == |chain| && chain[i].key == es[i].0 && chain[i].value == es[i].1
      ensures chain[i].next == (if i + 1 == |chain| then null else chain[i + 1])
    {
      LinkedAt(chain, es, b, i);
    }

    /** Nodes of different buckets are different: their keys hash differently. */
    lemma Elsewhere(b: nat, i: nat, n: Node<K, V>)
      requires Valid() && b < buckets && i < |chains[b]| && hashFunc(buckets, n.key) != b
      ensures chains[b][i] != n && chains[b][i] in Nodes()
    {
      LinkedAt(chains[b], entries[b], b, i);
    }

    /** `node->next = head; head->pre = node;` at the front of a chain. */
    method LinkFront(ghost c: seq<Node<K, V>>, ghost e: seq<(K, V)>, ghost b: nat, node: Node<K, V>, head: Node?<K, V>)
      requires Linked(c, e, b) && head == Head(c) && node !in c
      requires hashFunc(buckets, node.key) == b && node.pre == null && node.next == null
      modifies node, if head == null then {} else {head}
      ensures Linked([node] + c, [(node.key, node.value)] + e, b)
      ensures node.value == old(node.value)
    {
      ghost var c', e' := [node] + c, [(node.key, node.value)] + e;
      forall i | 0 < i < |c|
        ensures c[i] != c[0]
      {
        LinkedAt(c, e, b, 0);
        LinkedAt(c, e, b, i);
      }
      if head != null {
        node.next := head;
        head.pre := node;
      }
      forall i | 0 <= i < |c'|
        ensures LinkAt(c', e', b, i)
      {
        if i > 0 {
          assert c'[i] == c[i - 1];
          assert old(LinkAt(c, e, b, i - 1));
        }
      }
    }

    /** The table part of `hash_add_entry`: the new node becomes the head of its bucket. */
    method PushFront(pos: nat, node: Node<K, V>)
      requires Valid() && pos < buckets && hashFunc(buckets, node.key) == pos
      requires node !in Nodes() && node.pre == null && node.next == null
      modifies this, nodes, Nodes(), node
      ensures Valid()
      ensures chains == old(chains)[pos := [node] + old(chains)[pos]]
      ensures entries == old(entries)[pos := [(node.key, node.value)] + old(entries)[pos]]
      ensures node.value == old(node.value)
    {
      hide Linked;
      ghost var c, e := chains[pos], entries[pos];
      forall b, i | 0 <= b < buckets && b != pos && 0 <= i < |chains[b]|
        ensures chains[b][i] != node && chains[b][i] != Head(c)
      {
        Elsewhere(b, i, node);
        if c != [] {
          LinkedAt(c, e, pos, 0);
          Elsewhere(b, i, c[0]);
        }
      }
      assert forall i :: 0 <= i < |c| ==> c[i] == chains[pos][i] && c[i] in Nodes();
      LinkFront(c, e, pos, node, nodes[pos]);
      forall b | 0 <= b < buckets && b != pos
        ensures Linked(chains[b], entries[b], b)
      {
        Untouched(b);
      }
      nodes[pos] := node;
      chains := chains[pos := [node] + c];
      entries := entries[pos := [(node.key, node.value)] + e];
    }

    /** `hash_add_entry`: pushes the value on the stack of its key and leaves every other key alone. */
    method AddEntry(key: K, value: V)
      requires Valid()
      modifies this, nodes, Nodes()
      ensures Valid() && fresh(Nodes() - old(Nodes()))
      ensures forall k :: Stack(k) == if k == key then [value] + old(Stack(k)) else old(Stack(k))
    {
      hide Linked;
      var pos := GetBucket(key);
      var node := new Node(key, value);
      ghost var before := entries;
      PushFront(pos, node);
      assert Nodes() == old(Nodes()) + {node} by { PushedNodes(old(chains), pos, node); }
      forall k
        ensures Stack(k) == if k == key then [value] + StackOf(before[hashFunc(buckets, k)], k)
                            else StackOf(before[hashFunc(buckets, k)], k)
      {
        assert entries[pos][1..] == before[pos];
      }
    }

    lemma PushedNodes(was: seq<seq<Node<K, V>>>, pos: nat, node: Node<K, V>)
      requires pos < |was| && chains == was[pos := [node] + was[pos]]
      ensures Nodes() == (set b, i | 0 <= b < |was| && 0 <= i < |was[b]| :: was[b][i]) + {node}
    {
      forall b, i | 0 <= b < |was| && 0 <= i < |was[b]|
        ensures was[b][i] in Nodes()
      {
        assert was[b][i] == if b == pos then chains[b][i + 1] else chains[b][i];
      }
      assert chains[pos][0] == node;
    }

    /** Chains have no cycle: no node stands at two places. */
    lemma {:induction false} Acyclic(c: seq<Node<K, V>>, e: seq<(K, V)>, b: nat, i: nat, j: nat)
      requires Linked(c, e, b) && i < j < |c|
      ensures c[i] != c[j]
    {
      LinkedAt(c, e, b, i);
      LinkedAt(c, e, b, j);
      if i > 0 {
        Acyclic(c, e, b, i - 1, j - 1);
      }
    }

    ghost predicate AllDistinct(c: seq<Node<K, V>>) {
      forall i, j :: 0 <= i < |c| && 0 <= j < |c| && i != j ==> c[i] != c[j]
    }

    lemma AllDifferent(c: seq<Node<K, V>>, e: seq<(K, V)>, b: nat)
      requires Linked(c, e, b)
      ensures AllDistinct(c)
    {
      hide Linked;
      forall i, j | 0 <= i < j < |c|
        ensures c[i] != c[j]
      {
        Acyclic(c, e, b, i, j);
      }
    }

    /** The relinking of `hash_free_entry` around the node at position i. */
    method Unlink(ghost c: seq<Node<K, V>>, ghost e: seq<(K, V)>, ghost b: nat, ghost i: nat, node: Node<K, V>)
      requires Linked(c, e, b) && i < |c| && node == c[i]
      modifies c
      ensures Linked(Without(c, i), Without(e, i), b)
    {
      AllDifferent(c, e, b);
      NodeLinks(c, e, b, i);
      if node.pre != null {
        node.pre.next := node.next;
      }
      if node.next != null {
        node.next.pre := node.pre;
      }
      ghost var c', e' := Without(c, i), Without(e, i);
      forall k | 0 <= k < |c'|
        ensures LinkAt(c', e', b, k)
      {
        assert old(LinkAt(c, e, b, if k < i then k else k + 1));
      }
    }

    lemma NodeLinks(c: seq<Node<K, V>>, e: seq<(K, V)>, b: nat, i: nat)
      requires Linked(c, e, b) && i < |c|
      ensures c[i].pre == (if i == 0 then null else c[i - 1])
      ensures c[i].next == (if i + 1 == |c| then null else c[i + 1])
    {
      LinkedAt(c, e, b, i);
    }

    /** The heads of the other buckets and the new head, when the node at i leaves its chain. */
    lemma HeadWithout(c: seq<Node<K, V>>, e: seq<(K, V)>, b: nat, i: nat)
      requires Linked(c, e, b) && i < |c|
      ensures Head(Without(c, i)) == if c[i].pre == null then c[i].next else Head(c)
    {
      NodeLinks(c, e, b, i);
    }

    /** The table part of `hash_free_entry`. */
    method Remove(pos: nat, ghost i: nat, node: Node<K, V>)
      requires Valid() && pos < buckets && i < |chains[pos]| && node == chains[pos][i]
      modifies this, nodes, Nodes()
      ensures Valid()
      ensures chains == old(chains)[pos := Without(old(chains)[pos], i)]
      ensures entries == old(entries)[pos := Without(old(entries)[pos], i)]
    {
      hide Linked;
      ghost var c, e := chains[pos], entries[pos];
      SameLength(c, e, pos);
      HeadWithout(c, e, pos, i);
      forall b, k, j | 0 <= b < buckets && b != pos && 0 <= k < |chains[b]| && 0 <= j < |c|
        ensures chains[b][k] != c[j]
      {
        LinkedAt(c, e, pos, j);
        Elsewhere(b, k, c[j]);
      }
      assert forall j :: 0 <= j < |c| ==> c[j] == chains[pos][j] && c[j] in Nodes();
      if node.pre == null {
        nodes[pos] := node.next;
      }
      assert Linked(c, e, pos);
      Unlink(c, e, pos, i, node);
      forall b | 0 <= b < buckets && b != pos
        ensures Linked(chains[b], entries[b], b)
      {
        Untouched(b);
      }
      chains := chains[pos := Without(c, i)];
      entries := entries[pos := Without(e, i)];
    }

    lemma SameLength(c: seq<Node<K, V>>, e: seq<(K, V)>, b: nat)
      requires Linked(c, e, b)
      ensures |c| == |e|
    {}

    /** A removed node is in no chain any more, and every other node still is. */
    lemma RemovedNodes(was: seq<seq<Node<K, V>>>, pos: nat, i: nat)
      requires pos < |was| && i < |was[pos]|
      requires forall b :: 0 <= b < |was| ==> AllDistinct(was[b])
      requires forall b, k :: 0 <= b < |was| && 0 <= k < |was[b]| && b != pos ==> was[b][k] != was[pos][i]
      requires chains == was[pos := Without(was[pos], i)]
      ensures Nodes() == (set b, k | 0 <= b < |was| && 0 <= k < |was[b]| :: was[b][k]) - {was[pos][i]}
    {
      var w := Without(was[pos], i);
      assert forall k :: 0 <= k < |w| ==> w[k] == was[pos][if k < i then k else k + 1];
      forall b, k | 0 <= b < |was| && 0 <= k < |was[b]| && (b != pos || k != i)
        ensures was[b][k] in Nodes()
      {
        assert was[b][k] == chains[b][if b != pos || k < i then k else k - 1];
      }
    }

    /** All nodes are different, within their chains and across them. */
    lemma Apart(b: nat, i: nat)
      requires Valid() && b < buckets && i < |chains[b]|
      ensures forall c :: 0 <= c < buckets ==> AllDistinct(chains[c])
      ensures forall c, k :: 0 <= c < buckets && 0 <= k < |chains[c]| && c != b ==> chains[c][k] != chains[b][i]
      ensures chains[b][i] in Nodes()
    {
      hide Linked;
      LinkedAt(chains[b], entries[b], b, i);
      forall c, k | 0 <= c < buckets && 0 <= k < |chains[c]| && c != b
        ensures chains[c][k] != chains[b][i]
      {
        Elsewhere(c, k, chains[b][i]);
      }
      forall c | 0 <= c < buckets
        ensures AllDistinct(chains[c])
      {
        AllDifferent(chains[c], entries[c], c);
      }
    }

    /** Taking the newest entry out of a bucket, for all keys at once. */
    lemma StacksWithout(before: seq<seq<(K, V)>>, key: K)
      requires Valid() && |before| == buckets
      requires var b := hashFunc(buckets, key);
               var i := Newest(before[b], key);
               i < |before[b]| && entries == before[b := Without(before[b], i)]
      ensures StackOf(before[hashFunc(buckets, key)], key) != []
      ensures forall k :: Stack(k) == if k == key then StackOf(before[hashFunc(buckets, key)], key)[1..]
                                      else StackOf(before[hashFunc(buckets, k)], k)
    {
      hide Linked, Newest, StackOf;
      var b := hashFunc(buckets, key);
      RemoveNewest(before[b], key, key);
      forall k
        ensures Stack(k) == if k == key then StackOf(before[b], key)[1..]
                            else StackOf(before[hashFunc(buckets, k)], k)
      {
        if hashFunc(buckets, k) == b {
          RemoveNewest(before[b], key, k);
        }
      }
    }

    /**
     `hash_free_entry`: the newest value of the key is gone, its node is in no chain any more, and no
     other node or key is affected. The source asserts that the key has a value.
     */
    method FreeEntry(key: K) returns (ghost freed: Node<K, V>)
      requires Valid() && Stack(key) != []
      modifies this, nodes, Nodes()
      ensures Valid()
      ensures forall k :: Stack(k) == if k == key then old(Stack(key))[1..] else old(Stack(k))
      ensures freed in old(Nodes()) && freed.key == key && Nodes() == old(Nodes()) - {freed}
    {
      hide Linked, Newest, StackOf, AllDistinct;
      var node, i := GetNodeByKey(key);
      ghost var b := hashFunc(buckets, key);
      ghost var before, was := entries, chains;
      SameLength(was[b], before[b], b);
      NewestIsTop(before[b], key);
      NodeAt(was[b], before[b], b, i);
      Apart(b, i);
      var pos := GetBucket(key);
      Remove(pos, i, node);
      freed := node;
      RemovedNodes(was, b, i);
      StacksWithout(before, key);
    }

    /** `*p_value = value;` through the pointer a lookup returned: the newest value is overwritten. */
    method StoreValue(key: K, node: Node<K, V>, ghost i: nat, value: V)
      requires Valid() && IsNewest(key, node, i)
      modifies this, Nodes()
      ensures Valid() && Nodes() == old(Nodes())
      ensures old(Stack(key)) != []
      ensures forall k :: Stack(k) == if k == key then [value] + old(Stack(key))[1..] else old(Stack(k))
    {
      hide Linked;
      ghost var pos := hashFunc(buckets, key);
      ghost var c, e, before := chains[pos], entries[pos], entries;
      SameLength(c, e, pos);
      NewestIsTop(e, key);
      forall b, k | 0 <= b < buckets && b != pos && 0 <= k < |chains[b]|
        ensures chains[b][k] != node
      {
        LinkedAt(c, e, pos, i);
        Elsewhere(b, k, node);
      }
      assert node in Nodes();
      OverwriteAt(c, e, pos, i, node, value);
      forall b | 0 <= b < buckets && b != pos
        ensures Linked(chains[b], entries[b], b)
      {
        Untouched(b);
      }
      entries := entries[pos := e[i := (key, value)]];
      forall k
        ensures Stack(k) == if k == key then [value] + StackOf(before[pos], key)[1..]
                            else StackOf(before[hashFunc(buckets, k)], k)
      {
        if hashFunc(buckets, k) == pos {
          ReplaceNewest(e, key, value, k);
        }
      }
    }

    method OverwriteAt(ghost c: seq<Node<K, V>>, ghost e: seq<(K, V)>, ghost b: nat, ghost i: nat,
                       node: Node<K, V>, value: V)
      requires Linked(c, e, b) && i < |c| && node == c[i]
      modifies node`value
      ensures Linked(c, e[i := (e[i].0, value)], b)
    {
      AllDifferent(c, e, b);
      node.value := value;
      ghost var e' := e[i := (e[i].0, value)];
      forall k | 0 <= k < |c|
        ensures LinkAt(c, e', b, k)
      {
        assert old(LinkAt(c, e, b, k));
      }
    }

    /** `hash_clear_bucket`: walks the chain, freeing each of its nodes once. */
    method ClearBucket(index: nat) returns (ghost freed: seq<Node<K, V>>)
      requires Valid() && index < buckets
      modifies this, nodes
      ensures Valid()
      ensures freed == old(chains)[index] && AllDistinct(freed)
      ensures chains == old(chains)[index := []] && entries == old(entries)[index := []]
    {
      hide Linked;
      ghost var c, e := chains[index], entries[index];
      AllDifferent(c, e, index);
      var node := nodes[index];
      var tmp := node;
      freed := [];
      while node != null
        invariant |freed| <= |c| && freed == c[..|freed|]
        invariant node == if |freed| == |c| then null else c[|freed|]
        modifies {}
        decreases |c| - |freed|
      {
        NodeLinks(c, e, index, |freed|);
        tmp := node.next;
        freed := freed + [node];
        node := tmp;
      }
      nodes[index] := null;
      chains := chains[index := []];
      entries := entries[index := []];
      NothingLinked(index);
    }

    lemma NothingLinked(b: nat)
      ensures Linked([], [], b)
    {}

    /** `hash_clear_entry`: no key has a value any more. */
    method ClearEntry()
      requires Valid()
      modifies this, nodes
      ensures Valid() && Nodes() == {} && forall k :: Stack(k) == []
    {
      for i := 0 to buckets
        invariant Valid()
        invariant forall b :: 0 <= b < i ==> chains[b] == [] && entries[b] == []
      {
        ghost var freed := ClearBucket(i);
        nodes[i] := null;
      }
    }
  }
}
