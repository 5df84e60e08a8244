/**
 The hash table of `hashtable.c`: every pair sits on one circular doubly linked list whose head is
 inside the table, and a bucket is only the first and the last node of its run of that list.
 The key hash is a parameter, so that every pattern of collisions is covered.
 */
module HashTables {
  import opened Bytes
  import opened Tables

  /** A list link together with the pair it is embedded in; only the list head has no pair. */
  class Node<K, V> {
    var prev: Node<K, V>
    var next: Node<K, V>
    var pair: Option<Pair<K, V>>
    var hash: nat

    /** `list_init` on a new link. */
    constructor (pair: Option<Pair<K, V>>, hash: nat)
      ensures this.prev == this && this.next == this && this.pair == pair && this.hash == hash
    {
      this.prev := this;
      this.next := this;
      this.pair := pair;
      this.hash := hash;
    }
  }

  datatype Bucket<K, V> = Bucket(first: Node<K, V>, last: Node<K, V>)

  class HashTable<K(==,!new), V(!new)> {
    const hashKey: K -> nat
    const list: Node<K, V>
    var size: nat
    var buckets: array<Bucket<K, V>>
    var numBuckets: nat
    ghost var nodes: seq<Node<K, V>>      // the nodes of the list, in list order
    ghost var order: seq<Pair<K, V>>      // the pairs they hold

    // ---------------------------------------------------------------- abstraction

    ghost function Footprint(): set<object>
      reads this
    {
      {this, buckets, list} + (set x | x in nodes)
    }

    ghost function Table(): Table<K, V>
      reads this`numBuckets, this`order
    {
      Tables.Table(numBuckets, order)
    }

    ghost function BucketNumbers(): (bs: seq<nat>)
      reads this`numBuckets, this`order
      ensures |bs| == |order|
    {
      Buckets(hashKey, Size(numBuckets), order)
    }

    /** The node at a position of the ring; the positions before the first and after the last are the head. */
    ghost function Nth(i: int): Node<K, V>
      reads this`nodes
    {
      if 0 <= i < |nodes| then nodes[i] else list
    }

    ghost predicate Forward()
      reads this`nodes, list`next, nodes`next
    {
      && list.next == Nth(0)
      && (forall i {:trigger nodes[i].next} | 0 <= i < |nodes| :: nodes[i].next == Nth(i + 1))
    }

    ghost predicate Backward()
      reads this`nodes, list`prev, nodes`prev
    {
      && list.prev == Nth(|nodes| - 1)
      && (forall i {:trigger nodes[i].prev} | 0 <= i < |nodes| :: nodes[i].prev == Nth(i - 1))
    }

    /** The list is a well-formed ring through the head, and its nodes hold `order` with the hashes. */
    ghost predicate Ring()
      reads this`nodes, this`order, list, nodes
    {
      |order| == |nodes| && Forward() && Backward() && Stored()
    }

    ghost predicate Stored()
      requires |order| == |nodes|
      reads this`nodes, this`order, nodes
    {
      && list !in nodes
      && (forall i, j | 0 <= i < j < |nodes| :: nodes[i] != nodes[j])
      && (forall i {:trigger order[i]} {:trigger nodes[i]} | 0 <= i < |nodes| ::
            nodes[i].pair == Some(order[i]) && nodes[i].hash == hashKey(order[i].key))
    }

    /** Every bucket points at the two ends of its run, or twice at the head when it has none. */
    ghost predicate Windows()
      requires |order| == |nodes|
      reads this`nodes, this`order, this`numBuckets, this`buckets, buckets
    {
      && buckets.Length == Size(numBuckets)
      && (forall b: nat | b < buckets.Length ::
            && buckets[b].first == Nth(FirstIn(BucketNumbers(), b))
            && buckets[b].last == Nth(LastIn(BucketNumbers(), b)))
    }

    ghost predicate Valid()
      reads this, list, nodes, buckets
    {
      && Ring()
      && Windows()
      && numBuckets < |PRIMES|
      && size == |nodes|
      && Tables.Valid(hashKey, Table())
    }

    // ---------------------------------------------------------------- construction

    constructor (hashKey: K -> nat)
      ensures Valid() && fresh(Footprint())
      ensures Table() == EmptyTable() && this.hashKey == hashKey
    {
      this.hashKey := hashKey;
      var head := new Node(None, 0);
      list := head;
      size := 0;
      numBuckets := 0;
      buckets := new Bucket<K, V>[PRIMES[0]](_ => Bucket(head, head));
      nodes := [];
      order := [];
      new;
      hide Buckets, Clustered, FirstIn, LastIn, Tables.Valid;
      EmptyIsValid<K, V>(hashKey);
    }

    // ---------------------------------------------------------------- links

    /** `list_insert`: `node` goes in front of `at`. */
    static method ListInsert(at: Node<K, V>, node: Node<K, V>)
      requires node != at && node != at.prev
      modifies at`prev, at.prev`next, node`prev, node`next
      ensures node.next == at && node.prev == old(at.prev)
      ensures at.prev == node && old(at.prev).next == node
    {
      node.next := at;
      node.prev := at.prev;
      at.prev.next := node;
      at.prev := node;
    }

    /** `list_remove`: the neighbours of `node` are linked with each other. */
    static method ListRemove(node: Node<K, V>)
      modifies node.prev`next, node.next`prev
      ensures old(node.prev).next == old(node.next)
      ensures old(node.next).prev == old(node.prev)
    {
      node.prev.next := node.next;
      node.next.prev := node.prev;
    }

    method BucketIsEmpty(bucket: Bucket<K, V>) returns (empty: bool)
      ensures empty <==> bucket.first == list && bucket.first == bucket.last
    {
      empty := bucket.first == list && bucket.first == bucket.last;
    }

    twostate lemma ForwardAfterInsert(at: nat, new node: Node<K, V>)
      requires at <= old(|nodes|) && node != list && node !in old(nodes)
      requires nodes == InsertAt(old(nodes), at, node)
      requires old(Forward())
      requires node.next == old(Nth(at))
      requires var p := old(Nth(at - 1)); p.next == node
      requires forall i {:trigger old(nodes[i])} | 0 <= i < old(|nodes|) &&
                i != at - 1 :: old(nodes[i]).next == old(nodes[i].next)
      requires at > 0 ==> list.next == old(list.next)
      ensures Forward()
    {
      hide InsertAt, Buckets;
      forall i: nat | i < |nodes| ensures nodes[i].next == Nth(i + 1) {
        if i < at {
          assert nodes[i] == old(nodes[i]);
        } else if i > at {
          assert nodes[i] == old(nodes[i - 1]);
        }
      }
    }

    twostate lemma BackwardAfterInsert(at: nat, new node: Node<K, V>)
      requires at <= old(|nodes|) && node != list && node !in old(nodes)
      requires nodes == InsertAt(old(nodes), at, node)
      requires old(Backward())
      requires node.prev == old(Nth(at - 1))
      requires var p := old(Nth(at)); p.prev == node
      requires forall i {:trigger old(nodes[i])} | 0 <= i < old(|nodes|) &&
                i != at :: old(nodes[i]).prev == old(nodes[i].prev)
      requires at < old(|nodes|) ==> list.prev == old(list.prev)
      ensures Backward()
    {
      hide InsertAt, Buckets;
      forall i: nat | i < |nodes| ensures nodes[i].prev == Nth(i - 1) {
        if i < at {
          assert nodes[i] == old(nodes[i]);
        } else if i > at {
          assert nodes[i] == old(nodes[i - 1]);
        }
      }
    }

    twostate lemma StoredAfterInsert(at: nat, new node: Node<K, V>, new pair: Pair<K, V>)
      requires old(|order|) == old(|nodes|) && at <= old(|nodes|) && node != list && node !in old(nodes)
      requires nodes == InsertAt(old(nodes), at, node) && order == InsertAt(old(order), at, pair)
      requires node.pair == Some(pair) && node.hash == hashKey(pair.key)
      requires old(Stored())
      requires forall i {:trigger old(nodes[i])} | 0 <= i < old(|nodes|) ::
                 old(nodes[i]).pair == old(nodes[i].pair) && old(nodes[i]).hash == old(nodes[i].hash)
      ensures Stored()
    {
      hide InsertAt, Buckets;
      InsertedOnce(old(nodes), at, node);
      forall i: nat | i < |nodes|
        ensures nodes[i] != list && nodes[i].pair == Some(order[i]) && nodes[i].hash == hashKey(order[i].key)
      {
        if i < at {
          assert nodes[i] == old(nodes)[i];
        } else if i > at {
          assert nodes[i] == old(nodes)[i - 1];
        }
      }
    }

    lemma Before(i: nat)
      requires Ring() && i <= |nodes|
      ensures Nth(i).prev == Nth(i - 1)
      ensures list !in nodes && forall j, k | 0 <= j < k < |nodes| :: nodes[j] != nodes[k]
    {
    }

    /** Linking a fresh node in front of position `at` inserts its pair there. */
    method LinkBefore(ghost at: nat, position: Node<K, V>, node: Node<K, V>, ghost pair: Pair<K, V>)
      requires Ring() && at <= |nodes| && position == Nth(at)
      requires node != list && node !in nodes && node.pair == Some(pair) && node.hash == hashKey(pair.key)
      modifies this`nodes, this`order, list`prev, list`next, nodes`prev, nodes`next, node`prev, node`next
      ensures Ring()
      ensures nodes == InsertAt(old(nodes), at, node)
      ensures order == InsertAt(old(order), at, pair)
    {
      hide InsertAt, Buckets, Forward, Backward, Stored;
      Before(at);
      ListInsert(position, node);
      nodes := InsertAt(nodes, at, node);
      order := InsertAt(order, at, pair);
      ForwardAfterInsert(at, node);
      BackwardAfterInsert(at, node);
      StoredAfterInsert(at, node, pair);
    }

    /** A bucket's ends are both the head exactly when its run is empty. */
    lemma EmptyWindow(b: nat)
      requires Ring() && Windows() && b < buckets.Length
      ensures (buckets[b].first == list && buckets[b].first == buckets[b].last)
              <==> FirstIn(BucketNumbers(), b) == |nodes|
    {
    }

    lemma WindowsAfterInsert(bs: seq<nat>, order0: seq<Pair<K, V>>, nodes0: seq<Node<K, V>>, old0: seq<Bucket<K, V>>,
                             index: nat, node: Node<K, V>, pair: Pair<K, V>)
      requires |order| == |nodes| && |order0| == |nodes0| && |old0| == buckets.Length == Size(numBuckets)
      requires bs == Buckets(hashKey, Size(numBuckets), order0) && Clustered(bs)
      requires index < buckets.Length && index == hashKey(pair.key) % buckets.Length
      requires nodes == InsertAt(nodes0, FirstIn(bs, index), node)
      requires order == InsertAt(order0, FirstIn(bs, index), pair)
      requires forall b: nat | b < |old0| ::
                 && old0[b].first == (if FirstIn(bs, b) < |nodes0| then nodes0[FirstIn(bs, b)] else list)
                 && old0[b].last == (if LastIn(bs, b) >= 0 then nodes0[LastIn(bs, b)] else list)
      requires forall b: nat | b < buckets.Length && b != index :: buckets[b] == old0[b]
      requires buckets[index].first == node
      requires buckets[index].last == if FirstIn(bs, index) == |nodes0| then node else old0[index].last
      ensures Windows() && Clustered(BucketNumbers())
    {
      hide InsertAt, Buckets, Clustered, FirstIn, LastIn;
      var at := FirstIn(bs, index);
      InsertedBuckets(hashKey, buckets.Length, order0, at, pair);
      InsertClustered(bs, index);
      assert BucketNumbers() == InsertAt(bs, at, index);
      forall b: nat | b < buckets.Length
        ensures buckets[b].first == Nth(FirstIn(BucketNumbers(), b))
        ensures buckets[b].last == Nth(LastIn(BucketNumbers(), b))
      {
        WindowAfterInsert(bs, index, b);
      }
    }

    /** `insert_to_bucket`. */
    method InsertToBucket(index: nat, node: Node<K, V>, ghost pair: Pair<K, V>)
      requires Ring() && Windows() && Clustered(BucketNumbers())
      requires node != list && node !in nodes && node.pair == Some(pair) && node.hash == hashKey(pair.key)
      requires index == node.hash % buckets.Length
      modifies this`nodes, this`order, buckets, list`prev, list`next, nodes`prev, nodes`next, node`prev, node`next
      ensures Ring() && Windows() && Clustered(BucketNumbers())
      ensures nodes == InsertAt(old(nodes), FirstIn(old(BucketNumbers()), index), node)
      ensures order == Insert(hashKey, Size(numBuckets), old(order), pair)
    {
      hide InsertAt, Buckets, Forward, Backward, Stored, Clustered;
      ghost var bs := BucketNumbers();
      ghost var old0 := buckets[..];
      EmptyWindow(index);
      var empty := BucketIsEmpty(buckets[index]);
      if empty {
        LinkBefore(FirstIn(bs, index), list, node, pair);
        buckets[index] := Bucket(node, node);
      } else {
        LinkBefore(FirstIn(bs, index), buckets[index].first, node, pair);
        buckets[index] := buckets[index].(first := node);
      }
      WindowsAfterInsert(bs, old(order), old(nodes), old0, index, node, pair);
    }

    // ---------------------------------------------------------------- unlinking

    twostate lemma ForwardAfterRemove(at: nat)
      requires at < old(|nodes|) && nodes == RemoveAt(old(nodes), at)
      requires old(Forward())
      requires var p := old(Nth(at - 1)); p.next == old(Nth(at + 1))
      requires forall i {:trigger old(nodes[i])} | 0 <= i < old(|nodes|) &&
                i != at - 1 :: old(nodes[i]).next == old(nodes[i].next)
      requires at > 0 ==> list.next == old(list.next)
      ensures Forward()
    {
      hide RemoveAt;
      forall i: nat | i < |nodes| ensures nodes[i].next == Nth(i + 1) {
        assert nodes[i] == old(nodes)[if i < at then i else i + 1];
      }
    }

    twostate lemma BackwardAfterRemove(at: nat)
      requires at < old(|nodes|) && nodes == RemoveAt(old(nodes), at)
      requires old(Backward())
      requires var n := old(Nth(at + 1)); n.prev == old(Nth(at - 1))
      requires forall i {:trigger old(nodes[i])} | 0 <= i < old(|nodes|) &&
                i != at + 1 :: old(nodes[i]).prev == old(nodes[i].prev)
      requires at < old(|nodes|) - 1 ==> list.prev == old(list.prev)
      ensures Backward()
    {
      hide RemoveAt;
      forall i: nat | i < |nodes| ensures nodes[i].prev == Nth(i - 1) {
        ghost var j := if i < at then i else i + 1;
        assert nodes[i] == old(nodes)[j];
        assert j != at + 1 ==> old(nodes)[j].prev == old(nodes[j].prev) == old(Nth(j - 1));
        assert i != at ==> Nth(i - 1) == old(Nth(j - 1));
      }
    }

    twostate lemma StoredAfterRemove(at: nat)
      requires old(|order|) == old(|nodes|) && at < old(|nodes|)
      requires nodes == RemoveAt(old(nodes), at) && order == RemoveAt(old(order), at)
      requires old(Stored())
      requires forall i {:trigger old(nodes[i])} | 0 <= i < old(|nodes|) ::
                 old(nodes[i]).pair == old(nodes[i].pair) && old(nodes[i]).hash == old(nodes[i].hash)
      ensures Stored()
    {
      hide RemoveAt;
      forall i: nat | i < |nodes|
        ensures nodes[i] != list && nodes[i].pair == Some(order[i]) && nodes[i].hash == hashKey(order[i].key)
      {
        assert nodes[i] == old(nodes)[if i < at then i else i + 1];
      }
      forall i, j | 0 <= i < j < |nodes| ensures nodes[i] != nodes[j] {
        assert nodes[i] == old(nodes)[if i < at then i else i + 1];
        assert nodes[j] == old(nodes)[if j < at then j else j + 1];
      }
    }

    method Unlink(ghost at: nat, node: Node<K, V>)
      requires Ring() && at < |nodes| && node == nodes[at]
      modifies this`nodes, this`order, list`prev, list`next, nodes`prev, nodes`next
      ensures Ring()
      ensures nodes == RemoveAt(old(nodes), at)
      ensures order == RemoveAt(old(order), at)
    {
      hide RemoveAt, Forward, Backward, Stored;
      Before(at);
      NextNode(at);
      ListRemove(node);
      nodes := RemoveAt(nodes, at);
      order := RemoveAt(order, at);
      ForwardAfterRemove(at);
      BackwardAfterRemove(at);
      StoredAfterRemove(at);
    }

    lemma WindowsAfterRemove(bs: seq<nat>, order0: seq<Pair<K, V>>, nodes0: seq<Node<K, V>>, old0: seq<Bucket<K, V>>,
            at: nat)
      requires |order| == |nodes| && |order0| == |nodes0| && |old0| == buckets.Length == Size(numBuckets)
      requires bs == Buckets(hashKey, Size(numBuckets), order0) && Clustered(bs)
      requires at < |nodes0| && nodes == RemoveAt(nodes0, at) && order == RemoveAt(order0, at)
      requires forall b: nat | b < |old0| ::
                 && old0[b].first == (if FirstIn(bs, b) < |nodes0| then nodes0[FirstIn(bs, b)] else list)
                 && old0[b].last == (if LastIn(bs, b) >= 0 then nodes0[LastIn(bs, b)] else list)
      requires bs[at] < buckets.Length && FirstIn(bs, bs[at]) <= at <= LastIn(bs, bs[at])
      requires forall b: nat | b < buckets.Length && b != bs[at] :: buckets[b] == old0[b]
      requires var f, l := FirstIn(bs, bs[at]), LastIn(bs, bs[at]);
               && buckets[bs[at]].first == (if f == l then list else if at == f then nodes0[f + 1] else nodes0[f])
               && buckets[bs[at]].last == (if f == l then list else if at == l then nodes0[l - 1] else nodes0[l])
      ensures Windows() && Clustered(BucketNumbers())
    {
      hide RemoveAt, Buckets, Clustered, FirstIn, LastIn;
      RemovedBuckets(hashKey, buckets.Length, order0, at);
      RemoveClustered(bs, at);
      assert BucketNumbers() == RemoveAt(bs, at);
      forall b: nat | b < buckets.Length
        ensures buckets[b].first == Nth(FirstIn(BucketNumbers(), b))
        ensures buckets[b].last == Nth(LastIn(BucketNumbers(), b))
      {
        WindowAfterRemove(bs, at, b);
      }
    }

    // ---------------------------------------------------------------- find and delete

    lemma KeyInWindow(key: K, i: nat)
      requires |order| == |nodes| && i < |order| && order[i].key == key
      ensures var b := hashKey(key) % Size(numBuckets);
              BucketNumbers()[i] == b && FirstIn(BucketNumbers(), b) <= i <= LastIn(BucketNumbers(), b)
    {
    }

    /** The run of a bucket that is not empty. */
    lemma WindowIs(b: nat)
      requires Ring() && Windows() && b < buckets.Length
      ensures FirstIn(BucketNumbers(), b) <= |nodes|
      ensures var f, l := FirstIn(BucketNumbers(), b), LastIn(BucketNumbers(), b);
              f < |nodes| ==> f <= l < |nodes| && buckets[b].first == nodes[f] && buckets[b].last == nodes[l]
    {
    }

    lemma Member(i: nat)
      requires Ring() && i < |nodes|
      ensures nodes[i].pair == Some(order[i]) && nodes[i].hash == hashKey(order[i].key)
    {
      assert nodes[i] in nodes && order[i] in order;
    }

    lemma MembersDiffer(i: nat, j: nat)
      requires Ring() && i < j < |nodes|
      ensures nodes[i] != nodes[j]
    {
    }

    lemma ValidHas()
      requires Valid()
      ensures Ring() && Windows() && Distinct(order) && |order| == |nodes| && buckets.Length == Size(numBuckets)
    {
    }

    /** `hashtable_find_pair`: the walk over a bucket's run finds the node of the key, if any. */
    method FindPair(bucket: Bucket<K, V>, key: K, hash: nat) returns (node: Node?<K, V>)
      requires Valid() && hash == hashKey(key)
      requires bucket == buckets[hash % buckets.Length]
      ensures node == null <==> Find(order, key) == |order|
      ensures node != null ==> node == nodes[Find(order, key)]
    {
      hide Buckets, Clustered, Forward, Backward, Stored, Windows, Tables.Valid, Distinct, Find, FirstIn, LastIn, Ring;
      ValidHas();
      ghost var b := hash % buckets.Length;
      ghost var bs := BucketNumbers();
      ghost var f, l := FirstIn(bs, b), LastIn(bs, b);
      EmptyWindow(b);
      WindowIs(b);
      var empty := BucketIsEmpty(bucket);
      if empty {
        assert Find(order, key) == |order| by {
          if Find(order, key) < |order| {
            KeyInWindow(key, Find(order, key));
          }
        }
        return null;
      }
      var cur := bucket.first;
      ghost var i := f;
      while true
        invariant f <= i <= l && cur == nodes[i]
        invariant forall j | f <= j < i :: order[j].key != key
        decreases l - i
      {
        Member(i);
        var pair := cur.pair.value;
        if cur.hash == hash && pair.key == key {
          FindAt(order, i);
          return cur;
        }
        if cur == bucket.last {
          if i < l {
            MembersDiffer(i, l);
          }
          assert i == l;
          break;
        }
        assert cur.next == Nth(i + 1) by { NextNode(i); }
        cur := cur.next;
        i := i + 1;
      }
      assert Find(order, key) == |order| by {
        if Find(order, key) < |order| {
          KeyInWindow(key, Find(order, key));
        }
      }
      return null;
    }

    lemma NextNode(i: nat)
      requires Ring() && i < |nodes|
      ensures nodes[i].next == Nth(i + 1) && nodes[i].prev == Nth(i - 1)
    {
    }

    /** Taking a node out of its bucket and of the list. */
    method Detach(index: nat, node: Node<K, V>, ghost at: nat)
      requires Ring() && Windows() && Clustered(BucketNumbers())
      requires at < |nodes| && node == nodes[at] && index < buckets.Length && index == BucketNumbers()[at]
      modifies this`nodes, this`order, buckets, list`prev, list`next, nodes`prev, nodes`next
      ensures Ring() && Windows() && Clustered(BucketNumbers())
      ensures nodes == RemoveAt(old(nodes), at)
      ensures order == RemoveAt(old(order), at)
    {
      hide Buckets, Clustered, RemoveAt, Forward, Backward, Stored;
      ghost var bs := BucketNumbers();
      ghost var old0 := buckets[..];
      ghost var f, l := FirstIn(bs, index), LastIn(bs, index);
      assert f <= at <= l;
      NextNode(at);
      Before(at);
      assert node == nodes[f] <==> at == f;
      assert node == nodes[l] <==> at == l;
      if node == buckets[index].first && node == buckets[index].last {
        buckets[index] := Bucket(list, list);
      } else if node == buckets[index].first {
        buckets[index] := buckets[index].(first := node.next);
      } else if node == buckets[index].last {
        buckets[index] := buckets[index].(last := node.prev);
      }
      Unlink(at, node);
      WindowsAfterRemove(bs, old(order), old(nodes), old0, at);
    }

    method Discard(index: nat, node: Node<K, V>, ghost at: nat)
      requires Valid() && index < buckets.Length
      requires at < |nodes| && node == nodes[at] && index == BucketNumbers()[at]
      modifies this, buckets, list, nodes
      ensures Valid() && Footprint() <= old(Footprint())
      ensures Table() == Tables.Table(old(numBuckets), RemoveAt(old(order), at))
    {
      hide Buckets, Clustered, Forward, Backward, Stored, Windows, RemoveAt;
      RemovedSubset(nodes, at);
      RemoveKeeps(hashKey, Table(), at);
      Detach(index, node, at);
      size := size - 1;
    }

    /** `hashtable_do_del`; `released` is the pair whose key and value the free functions are given. */
    method DoDel(key: K, hash: nat) returns (rc: int, released: Option<Pair<K, V>>)
      requires Valid() && hash == hashKey(key)
      modifies this, buckets, list, nodes
      ensures Valid() && Footprint() <= old(Footprint())
      ensures Table() == Del(old(Table()), key)
      ensures rc == if key in MapOf(old(order)) then 0 else -1
      ensures released == Tables.Lookup(old(order), key)
    {
      hide Buckets, Clustered, Forward, Backward, RemoveAt, Find, MapOf;
      InMapIff(order, key);
      var index := hash % buckets.Length;
      var node := FindPair(buckets[index], key, hash);
      if node == null {
        return -1, None;
      }
      ghost var at := Find(order, key);
      KeyInWindow(key, at);
      released := node.pair;
      Discard(index, node, at);
      rc := 0;
    }

    // ---------------------------------------------------------------- rehash

    /** Fresh buckets that all point at the head, and the head linked to itself. */
    method Reset(level: nat)
      requires level < |PRIMES|
      modifies this`buckets, this`numBuckets, this`nodes, this`order, list`prev, list`next
      ensures Ring() && Windows() && Clustered(BucketNumbers())
      ensures nodes == [] && order == [] && numBuckets == level && fresh(buckets)
    {
      numBuckets := level;
      var head := list;
      buckets := new Bucket<K, V>[PRIMES[level]](_ => Bucket(head, head));
      list.next := list;
      list.prev := list;
      nodes := [];
      order := [];
    }

    /** The rehash walk has moved the first `k` of the nodes `all` and stands at `cur`. */
    ghost predicate Walking(all: seq<Node<K, V>>, pairs: seq<Pair<K, V>>, k: nat, cur: Node<K, V>)
      reads this`nodes, this`order, this`numBuckets, list, all
    {
      && |pairs| == |all| && k <= |all| && cur == (if k < |all| then all[k] else list)
      && |nodes| == k && (forall i {:trigger nodes[i]} | 0 <= i < k :: nodes[i] in all)
      && (forall i {:trigger all[i]} | 0 <= i < |all| :: all[i] in nodes <==> i < k)
      && order == Reinsert(hashKey, Size(numBuckets), pairs[..k])
      && (forall j {:trigger all[j].next} | k <= j < |all| ::
          all[j].next == (if j + 1 < |all| then all[j + 1] else list))
      && list !in all
      && (forall i, j | 0 <= i < j < |all| :: all[i] != all[j])
      && (forall i {:trigger all[i]} | 0 <= i < |all| ::
            all[i].pair == Some(pairs[i]) && all[i].hash == hashKey(pairs[i].key))
    }

    lemma StillWalking(all: seq<Node<K, V>>, pairs: seq<Pair<K, V>>, k: nat, at: nat,
                       nodes0: seq<Node<K, V>>, order0: seq<Pair<K, V>>)
      requires |pairs| == |all| && at <= |nodes0| == k < |all|
      requires nodes == InsertAt(nodes0, at, all[k])
      requires forall i {:trigger nodes0[i]} | 0 <= i < k :: nodes0[i] in all
      requires forall i {:trigger all[i]} | 0 <= i < |all| :: all[i] in nodes0 <==> i < k
      requires order0 == Reinsert(hashKey, Size(numBuckets), pairs[..k])
      requires order == Insert(hashKey, Size(numBuckets), order0, pairs[k])
      requires forall j {:trigger all[j].next} | k < j < |all| ::
                all[j].next == (if j + 1 < |all| then all[j + 1] else list)
      requires list !in all
      requires forall i, j | 0 <= i < j < |all| :: all[i] != all[j]
      requires forall i {:trigger all[i]} | 0 <= i < |all| :: all[i].pair == Some(pairs[i]) &&
                all[i].hash == hashKey(pairs[i].key)
      ensures Walking(all, pairs, k + 1, if k + 1 < |all| then all[k + 1] else list)
    {
      hide InsertAt, Insert;
      assert pairs[..k + 1][..k] == pairs[..k];
      forall i | 0 <= i < k + 1 ensures nodes[i] in all {
        InsertedMember(nodes0, at, all[k], nodes[i]);
      }
      forall i | 0 <= i < |all| ensures all[i] in nodes <==> i < k + 1 {
        InsertedMember(nodes0, at, all[k], all[i]);
        assert i < k ==> all[i] in nodes0;
      }
    }

    method Relink(ghost all: seq<Node<K, V>>, ghost pairs: seq<Pair<K, V>>, ghost k: nat, cur: Node<K, V>)
      returns (next: Node<K, V>)
      requires Ring() && Windows() && Clustered(BucketNumbers())
      requires Walking(all, pairs, k, cur) && cur != list
      modifies this`nodes, this`order, buckets, list`prev, list`next, all`prev, all`next
      ensures Ring() && Windows() && Clustered(BucketNumbers())
      ensures Walking(all, pairs, k + 1, next) && k < |all|
    {
      hide Buckets, Clustered, Insert, Forward, Backward, Stored, Reinsert, Size, InsertAt, FirstIn, LastIn;
      next := cur.next;
      var index := cur.hash % buckets.Length;
      ghost var at := FirstIn(BucketNumbers(), index);
      ghost var nodes0, order0 := nodes, order;
      InsertToBucket(index, cur, pairs[k]);
      StillWalking(all, pairs, k, at, nodes0, order0);
    }

    method BeginWalk() returns (cur: Node<K, V>)
      requires Ring() && numBuckets + 1 < |PRIMES|
      modifies this`buckets, this`numBuckets, this`nodes, this`order, list`prev, list`next
      ensures Ring() && Windows() && Clustered(BucketNumbers())
      ensures numBuckets == old(numBuckets) + 1 && fresh(buckets)
      ensures Walking(old(nodes), old(order), 0, cur)
    {
      cur := list.next;
      Reset(numBuckets + 1);
    }

    /**
     `hashtable_do_rehash`: the head is reset before the walk, but the nodes not yet visited keep
     their old links, so the walk meets every node once and stops at the head.
     */
    method Rehash()
      requires Valid() && numBuckets + 1 < |PRIMES|
      modifies this`buckets, this`numBuckets, this`nodes, this`order, list`prev, list`next, nodes`prev, nodes`next
      ensures Ring() && Windows()
      ensures Table() == Tables.Table(old(numBuckets) + 1, Reinsert(hashKey, Size(old(numBuckets) + 1), old(order)))
      ensures fresh(buckets) && |nodes| == |old(nodes)|
      ensures forall i {:trigger nodes[i]} | 0 <= i < |nodes| :: nodes[i] in old(nodes)
    {
      hide Windows, Backward, Forward, Stored, Walking, Reinsert, Buckets, Clustered, Tables.Valid, Insert, Size;
      ghost var all, pairs := nodes, order;
      var cur := BeginWalk();
      ghost var k := 0;
      while cur != list
        invariant k <= |all|
        invariant Ring() && Windows() && Clustered(BucketNumbers()) && numBuckets == old(numBuckets) + 1
        invariant fresh(buckets)
        invariant Walking(all, pairs, k, cur)
        decreases |all| - k
      {
        cur := Relink(all, pairs, k, cur);
        k := k + 1;
      }
      WalkEnds(all, pairs, k);
    }

    lemma WalkEnds(all: seq<Node<K, V>>, pairs: seq<Pair<K, V>>, k: nat)
      requires Walking(all, pairs, k, list)
      ensures k == |all| == |nodes| && order == Reinsert(hashKey, Size(numBuckets), pairs)
      ensures forall i {:trigger nodes[i]} | 0 <= i < |nodes| :: nodes[i] in all
    {
      assert k == |all|;
      assert pairs[..k] == pairs;
    }

    // ---------------------------------------------------------------- set, get, del, clear

    lemma ValueAt(i: nat)
      requires Ring() && i < |nodes|
      ensures nodes[i].pair == Some(order[i])
    {
    }

    /** Overwriting the value of the pair at a node. */
    method Replace(node: Node<K, V>, ghost at: nat, value: V)
      requires Valid() && at < |nodes| && node == nodes[at]
      modifies this`order, node`pair
      ensures Valid() && order == old(order)[at := old(order)[at].(value := value)]
    {
      hide Forward, Backward;
      assert node.pair == Some(order[at]);
      node.pair := Some(node.pair.value.(value := value));
      ReplacedValue(order, at, value);
      order := order[at := order[at].(value := value)];
      assert BucketNumbers() == old(BucketNumbers());
    }

    /** A new pair goes to the front of its bucket's run. */
    method Add(index: nat, key: K, serial: nat, value: V, hash: nat)
      requires Valid() && hash == hashKey(key) && index == hash % buckets.Length
      requires |order| < Size(numBuckets) && Find(order, key) == |order|
      modifies this`size, this`nodes, this`order, buckets, list`prev, list`next, nodes`prev, nodes`next
      ensures Valid() && fresh(Footprint() - old(Footprint()))
      ensures order == Insert(hashKey, Size(numBuckets), old(order), Pair(key, serial, value))
    {
      hide Buckets, Clustered, Insert, Forward, Backward, Stored, Windows, Find, FirstIn;
      var node := new Node(Some(Pair(key, serial, value)), hash);
      assert node != list && node !in nodes;
      InsertKeeps(hashKey, Size(numBuckets), order, Pair(key, serial, value));
      InsertedMembers(nodes, FirstIn(BucketNumbers(), index), node);
      InsertToBucket(index, node, Pair(key, serial, value));
      size := size + 1;
    }

    /** The prime list is not exhausted by the next rehash. */
    ghost predicate Room()
      reads this`order, this`numBuckets
    {
      |order| >= Size(numBuckets) ==> numBuckets + 1 < |PRIMES|
    }

    static lemma GrownTable(hash: K -> nat, t: Table<K, V>)
      requires Tables.Valid(hash, t) && (|t.order| >= Size(t.level) ==> t.level + 1 < |PRIMES|)
      ensures Tables.Valid(hash, Grown(hash, t)) && |Grown(hash, t).order| == |t.order|
      ensures t.level < |PRIMES| ==> |t.order| < Size(Grown(hash, t).level)
    {
      hide Buckets, Clustered, Reinsert, MapOf, SerialsOf, Distinct, Size;
      GrownKeeps(hash, t);
    }

    /** The rehash with which `hashtable_set` starts when the load ratio would exceed 1. */
    method Grow()
      requires Valid() && Room()
      modifies this`buckets, this`numBuckets, this`nodes, this`order, list`prev, list`next, nodes`prev, nodes`next
      ensures Valid() && Table() == Grown(hashKey, old(Table())) && |order| < Size(numBuckets)
      ensures buckets == old(buckets) || fresh(buckets)
      ensures forall i {:trigger nodes[i]} | 0 <= i < |nodes| :: nodes[i] in old(nodes)
      ensures old(size) < old(buckets.Length) ==> buckets == old(buckets) && order == old(order)
      ensures old(size) >= old(buckets.Length) ==> fresh(buckets) && numBuckets == old(numBuckets) + 1
    {
      hide Buckets, Clustered, Reinsert, Forward, Backward, Stored, Tables.Valid;
      GrownTable(hashKey, Table());
      if size >= PRIMES[numBuckets] {
        Rehash();
      }
    }

    /** The part of `hashtable_set` after the rehash. */
    method Put(key: K, serial: nat, value: V) returns (released: Option<V>)
      requires Valid() && |order| < Size(numBuckets)
      modifies this`size, this`nodes, this`order, buckets, list`prev, list`next, nodes
      ensures Valid() && fresh(Footprint() - old(Footprint()))
      ensures var i := Find(old(order), key);
              order == if i < |old(order)| then old(order)[i := old(order)[i].(value := value)]
                       else Insert(hashKey, Size(numBuckets), old(order), Pair(key, serial, value))
      ensures released == Get(old(Table()), key)
    {
      hide Buckets, Clustered, Forward, Backward, Insert, Find, Tables.Valid, Stored, Size;
      var hash := hashKey(key);
      var index := hash % buckets.Length;
      var node := FindPair(buckets[index], key, hash);
      if node != null {
        ValueAt(Find(order, key));
        released := Some(node.pair.value.value);
        Replace(node, Find(order, key), value);
      } else {
        released := None;
        Add(index, key, serial, value, hash);
      }
    }

    /** `hashtable_set`; `released` is the value handed to the free function when a pair is overwritten. */
    method Set(key: K, serial: nat, value: V) returns (rc: int, released: Option<V>)
      requires Valid() && Room()
      modifies this, buckets, list, nodes
      ensures Valid() && fresh(Footprint() - old(Footprint())) && rc == 0
      ensures Table() == Tables.Set(hashKey, old(Table()), key, serial, value)
      ensures MapOf(order) == MapOf(old(order))[key := value]
      ensures SerialsOf(order) == if key in SerialsOf(old(order)) then SerialsOf(old(order))
                else SerialsOf(old(order))[key := serial]
      ensures released == Get(old(Table()), key)
    {
      hide Buckets, Clustered, Forward, Backward, Insert, Find, MapOf, SerialsOf, Tables.Valid, Stored, Windows, Size,
          Grown;
      SetIsUpdate(hashKey, Table(), key, serial, value);
      GrownGet(hashKey, Table(), key);
      Grow();
      released := Put(key, serial, value);
      rc := 0;
    }

    /** `hashtable_get`. */
    method Lookup(key: K) returns (value: Option<V>)
      requires Valid()
      ensures value == Get(Table(), key)
      ensures value == if key in MapOf(order) then Some(MapOf(order)[key]) else None
    {
      hide Buckets, Clustered, Forward, Backward, Find, MapOf;
      GetIsLookup(Table(), key);
      var hash := hashKey(key);
      var node := FindPair(buckets[hash % buckets.Length], key, hash);
      if node == null {
        return None;
      }
      return Some(node.pair.value.value);
    }

    /** `hashtable_del`. */
    method Delete(key: K) returns (rc: int, released: Option<Pair<K, V>>)
      requires Valid()
      modifies this, buckets, list, nodes
      ensures Valid() && Footprint() <= old(Footprint())
      ensures Table() == Del(old(Table()), key)
      ensures MapOf(order) == MapOf(old(order)) - {key}
      ensures rc == if key in MapOf(old(order)) then 0 else -1
      ensures released == Tables.Lookup(old(order), key)
    {
      hide Tables.Valid, Ring, Windows, MapOf;
      DelIsRemoval(hashKey, Table(), key) by { assert Tables.Valid(hashKey, Table()); }
      rc, released := DoDel(key, hashKey(key));
    }

    /** `hashtable_do_clear`: every pair is handed to the free functions, once and in list order. */
    method DoClear() returns (released: seq<Pair<K, V>>)
      requires Valid()
      ensures released == order
    {
      hide Buckets, Clustered, Windows, Tables.Valid;
      released := [];
      var cur := list.next;
      ghost var k := 0;
      while cur != list
        invariant 0 <= k <= |nodes| && cur == Nth(k)
        invariant released == order[..k]
        decreases |nodes| - k
      {
        var next := cur.next;
        assert next == Nth(k + 1) by { NextNode(k); }
        ValueAt(k);
        released := released + [cur.pair.value];
        cur := next;
        k := k + 1;
      }
    }

    /** All buckets of the table point at the head. */
    method EmptyBuckets()
      requires numBuckets < |PRIMES| && buckets.Length == Size(numBuckets)
      modifies buckets
      ensures forall b | 0 <= b < buckets.Length :: buckets[b] == Bucket(list, list)
    {
      var i := 0;
      while i < PRIMES[numBuckets]
        invariant 0 <= i <= buckets.Length
        invariant forall b | 0 <= b < i :: buckets[b] == Bucket(list, list)
      {
        buckets[i] := Bucket(list, list);
        i := i + 1;
      }
    }

    /** `hashtable_clear`: the buckets stay as many as they were. */
    method Clear() returns (released: seq<Pair<K, V>>)
      requires Valid()
      modifies this`size, this`nodes, this`order, buckets, list`prev, list`next
      ensures Valid() && Footprint() <= old(Footprint())
      ensures Table() == Tables.Table(old(numBuckets), []) && released == old(order)
    {
      released := DoClear();
      EmptyBuckets();
      list.next := list;
      list.prev := list;
      size := 0;
      nodes := [];
      order := [];
    }

    // ---------------------------------------------------------------- iteration

    /** `hashtable_iter_next`, from the node at position `i`; the head is at position -1. */
    method IterNext(iter: Node<K, V>, ghost i: int) returns (next: Node?<K, V>)
      requires Valid() && -1 <= i < |nodes| && iter == Nth(i)
      ensures next == if i + 1 < |nodes| then nodes[i + 1] else null
    {
      hide Buckets, Clustered, Windows, Tables.Valid;
      if i >= 0 {
        NextNode(i);
      }
      if iter.next == list {
        return null;
      }
      return iter.next;
    }

    /** `hashtable_iter`. */
    method Iter() returns (first: Node?<K, V>)
      requires Valid()
      ensures first == if |nodes| > 0 then nodes[0] else null
    {
      first := IterNext(list, -1);
    }

    /** `hashtable_iter_at`. */
    method IterAt(key: K) returns (iter: Node?<K, V>)
      requires Valid()
      ensures iter == null <==> key !in MapOf(order)
      ensures iter != null ==> iter == nodes[Find(order, key)]
    {
      InMapIff(order, key);
      var hash := hashKey(key);
      iter := FindPair(buckets[hash % buckets.Length], key, hash);
    }

    /** `hashtable_iter_set`. */
    method IterSet(iter: Node<K, V>, ghost i: nat, value: V) returns (released: V)
      requires Valid() && i < |nodes| && iter == nodes[i]
      modifies this`order, iter`pair
      ensures Valid() && released == old(order)[i].value
      ensures order == old(order)[i := old(order)[i].(value := value)]
      ensures MapOf(order) == MapOf(old(order))[old(order)[i].key := value]
    {
      ValueAt(i);
      ReplacedValue(order, i, value);
      released := iter.pair.value.value;
      Replace(iter, i, value);
    }

    /** The loop by which callers iterate: every binding is met exactly once, in list order. */
    method Pairs() returns (pairs: seq<Pair<K, V>>)
      requires Valid()
      ensures pairs == order && ListsOnce(pairs, MapOf(order))
    {
      hide Buckets, Clustered, Windows, Forward, Backward, ListsOnce, MapOf;
      EachBindingOnce(order);
      pairs := [];
      var iter := Iter();
      ghost var i := 0;
      while iter != null
        invariant 0 <= i <= |nodes|
        invariant iter == if i < |nodes| then nodes[i] else null
        invariant pairs == order[..i]
        decreases |nodes| - i
      {
        ValueAt(i);
        pairs := pairs + [iter.pair.value];
        iter := IterNext(iter, i);
        i := i + 1;
      }
    }
  }

  lemma InsertedMember<T>(s: seq<T>, at: nat, x: T, y: T)
    requires at <= |s|
    ensures y in InsertAt(s, at, x) <==> y == x || y in s
  {
  }

  lemma InsertedMembers<T>(s: seq<T>, at: nat, x: T)
    requires at <= |s|
    ensures (set y | y in InsertAt(s, at, x)) == (set y | y in s) + {x}
  {
  }

  lemma RemovedSubset<T>(s: seq<T>, at: nat)
    requires at < |s|
    ensures (set x | x in RemoveAt(s, at)) <= (set x | x in s)
  {
  }

  lemma InsertedOnce<T>(s: seq<T>, at: nat, x: T)
    requires at <= |s| && x !in s && forall i, j | 0 <= i < j < |s| :: s[i] != s[j]
    ensures var r := InsertAt(s, at, x); forall i, j | 0 <= i < j < |r| :: r[i] != r[j]
  {
    hide InsertAt, Buckets;
    var r := InsertAt(s, at, x);
    forall i, j | 0 <= i < j < |r| ensures r[i] != r[j] {
      assert i != at ==> r[i] == s[if i < at then i else i - 1];
      assert j != at ==> r[j] == s[if j < at then j else j - 1];
    }
  }
}
