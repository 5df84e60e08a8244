/**
 What a hash table of `hashtable.c` holds, without its links: the pairs in the order in which the
 one shared list runs, and the position in the list of primes.  `HashTables` proves that the linked
 structure behaves like these functions; here they are proved to behave like a finite map.
 */
module Tables {
  import opened Bytes

  const PRIMES: seq<nat> := [
    5, 13, 23, 53, 97, 193, 389, 769, 1543, 3079, 6151, 12289, 24593,
    49157, 98317, 196613, 393241, 786433, 1572869, 3145739, 6291469,
    12582917, 25165843, 50331653, 100663319, 201326611, 402653189,
    805306457, 1610612741]

  /** A stored pair.  `serial` is the part of a key object that the key comparison ignores. */
  datatype Pair<+K, +V> = Pair(key: K, serial: nat, value: V)

  datatype Table<+K, +V> = Table(level: nat, order: seq<Pair<K, V>>)

  // ---------------------------------------------------------------- bucket numbers along the list

  /** The first position holding `b`, the length when there is none. */
  function FirstIn(bs: seq<nat>, b: nat): (i: nat)
    ensures i <= |bs|
    ensures i < |bs| ==> bs[i] == b
    ensures forall j | 0 <= j < i :: bs[j] != b
  {
    if bs == [] then 0 else if bs[0] == b then 0 else 1 + FirstIn(bs[1..], b)
  }

  /** The last position holding `b`, -1 when there is none. */
  function LastIn(bs: seq<nat>, b: nat): (i: int)
    ensures -1 <= i < |bs|
    ensures i >= 0 ==> bs[i] == b
    ensures forall j | i < j < |bs| :: bs[j] != b
  {
    if bs == [] then -1 else if bs[|bs| - 1] == b then |bs| - 1 else LastIn(bs[..|bs| - 1], b)
  }

  /** Every bucket is one contiguous run of the list. */
  ghost predicate Clustered(bs: seq<nat>) {
    forall b: nat, j: nat | FirstIn(bs, b) <= j <= LastIn(bs, b) :: bs[j] == b
  }

  function InsertAt<T>(s: seq<T>, i: nat, x: T): (r: seq<T>)
    requires i <= |s|
    ensures |r| == |s| + 1 && r[i] == x
    ensures forall j {:trigger r[j]} | 0 <= j < i :: r[j] == s[j]
    ensures forall j {:trigger r[j]} | i < j < |r| :: r[j] == s[j - 1]
  {
    s[..i] + [x] + s[i..]
  }

  function RemoveAt<T>(s: seq<T>, i: nat): (r: seq<T>)
    requires i < |s|
    ensures |r| == |s| - 1
    ensures forall j {:trigger r[j]} | 0 <= j < i :: r[j] == s[j]
    ensures forall j {:trigger r[j]} | i <= j < |r| :: r[j] == s[j + 1]
  {
    s[..i] + s[i + 1..]
  }

  lemma InsertedBag<T>(s: seq<T>, i: nat, x: T)
    requires i <= |s|
    ensures multiset(InsertAt(s, i, x)) == multiset(s) + multiset{x}
  {
    assert s == s[..i] + s[i..];
  }

  lemma RemovedBag<T>(s: seq<T>, i: nat)
    requires i < |s|
    ensures multiset(s) == multiset(RemoveAt(s, i)) + multiset{s[i]}
  {
    assert s == s[..i] + [s[i]] + s[i + 1..];
  }

  lemma FirstIs(bs: seq<nat>, b: nat, i: nat)
    requires i <= |bs| && (i < |bs| ==> bs[i] == b) && forall j | 0 <= j < i :: bs[j] != b
    ensures FirstIn(bs, b) == i
  {
  }

  lemma LastIs(bs: seq<nat>, b: nat, i: int)
    requires -1 <= i < |bs| && (i >= 0 ==> bs[i] == b) && forall j | i < j < |bs| :: bs[j] != b
    ensures LastIn(bs, b) == i
  {
  }

  lemma FirstAfterInsert(bs: seq<nat>, at: nat, c: nat, b: nat)
    requires at <= |bs| && b != c
    requires FirstIn(bs, b) == at ==> at == |bs|
    ensures FirstIn(InsertAt(bs, at, c), b) == if FirstIn(bs, b) < at then FirstIn(bs, b) else FirstIn(bs, b) + 1
  {
    hide InsertAt;
    var r := InsertAt(bs, at, c);
    FirstIs(r, b, if FirstIn(bs, b) < at then FirstIn(bs, b) else FirstIn(bs, b) + 1);
  }

  lemma LastAfterInsert(bs: seq<nat>, at: nat, c: nat, b: nat)
    requires at <= |bs| && b != c
    ensures LastIn(InsertAt(bs, at, c), b) == if LastIn(bs, b) < at then LastIn(bs, b) else LastIn(bs, b) + 1
  {
    hide InsertAt;
    var r := InsertAt(bs, at, c);
    LastIs(r, b, if LastIn(bs, b) < at then LastIn(bs, b) else LastIn(bs, b) + 1);
  }

  /** Inserting `c` in front of its run moves the later runs by one and lengthens its own. */
  lemma WindowAfterInsert(bs: seq<nat>, c: nat, b: nat)
    ensures var at := FirstIn(bs, c); var r := InsertAt(bs, at, c); var f := FirstIn(bs, b); var l := LastIn(bs, b);
            && FirstIn(r, b) == (if b == c then at else if f < at then f else f + 1)
            && LastIn(r, b) == (if b == c && at == |bs| then at else if l < at then l else l + 1)
  {
    hide InsertAt;
    var at := FirstIn(bs, c);
    var r := InsertAt(bs, at, c);
    if b == c {
      FirstIs(r, c, at);
      LastIs(r, c, if at == |bs| then at else LastIn(bs, c) + 1);
    } else {
      FirstAfterInsert(bs, at, c, b);
      LastAfterInsert(bs, at, c, b);
    }
  }

  lemma InsertClustered(bs: seq<nat>, c: nat)
    requires Clustered(bs)
    ensures Clustered(InsertAt(bs, FirstIn(bs, c), c))
  {
    hide InsertAt;
    var at := FirstIn(bs, c);
    var r := InsertAt(bs, at, c);
    forall b: nat, j: nat | FirstIn(r, b) <= j <= LastIn(r, b) ensures r[j] == b {
      WindowAfterInsert(bs, c, b);
      if j < at {
        assert FirstIn(bs, b) <= j <= LastIn(bs, b);
        assert r[j] == bs[j];
      } else if j > at {
        assert FirstIn(bs, b) <= j - 1 <= LastIn(bs, b);
        assert r[j] == bs[j - 1];
      } else if at < |bs| {
        assert bs[at] == c;
      }
    }
  }

  /** Removing a position moves the later runs by one and shortens its own. */
  lemma WindowAfterRemove(bs: seq<nat>, at: nat, b: nat)
    requires at < |bs| && Clustered(bs)
    ensures var r := RemoveAt(bs, at); var f := FirstIn(bs, b); var l := LastIn(bs, b);
            && FirstIn(r, b) == (if b == bs[at] && f == l then |r| else if f <= at then f else f - 1)
            && LastIn(r, b) == (if b == bs[at] && f == l then -1 else if l < at then l else l - 1)
  {
    hide RemoveAt;
    var r := RemoveAt(bs, at);
    var f, l := FirstIn(bs, b), LastIn(bs, b);
    if b == bs[at] {
      assert f <= at <= l;
      if f == l {
        FirstIs(r, b, |r|);
        LastIs(r, b, -1);
      } else {
        if f == at {
          assert bs[f + 1] == b;
        }
        if l == at {
          assert bs[l - 1] == b;
        }
        FirstIs(r, b, f);
        LastIs(r, b, l - 1);
      }
    } else {
      assert at < f || f < at;
      FirstIs(r, b, if f <= at then f else f - 1);
      LastIs(r, b, if l < at then l else l - 1);
    }
  }

  lemma RemoveClustered(bs: seq<nat>, at: nat)
    requires at < |bs| && Clustered(bs)
    ensures Clustered(RemoveAt(bs, at))
  {
    hide RemoveAt;
    var r := RemoveAt(bs, at);
    forall b: nat, j: nat | FirstIn(r, b) <= j <= LastIn(r, b) ensures r[j] == b {
      WindowAfterRemove(bs, at, b);
      var j' := if j < at then j else j + 1;
      assert r[j] == bs[j'];
      assert FirstIn(bs, b) <= j' <= LastIn(bs, b);
    }
  }

  // ---------------------------------------------------------------- the table operations

  /** The bucket numbers of the pairs of `s` when there are `n` buckets. */
  function Buckets<K, V>(hash: K -> nat, n: nat, s: seq<Pair<K, V>>): (bs: seq<nat>)
    requires n > 0
    ensures |bs| == |s|
    ensures forall i {:trigger bs[i]} | 0 <= i < |s| :: bs[i] == hash(s[i].key) % n
  {
    seq(|s|, i requires 0 <= i < |s| => hash(s[i].key) % n)
  }

  /** `insert_to_bucket`: in front of the run of the pair's bucket, at the end when it has none. */
  function Insert<K, V>(hash: K -> nat, n: nat, s: seq<Pair<K, V>>, p: Pair<K, V>): seq<Pair<K, V>>
    requires n > 0
  {
    InsertAt(s, FirstIn(Buckets(hash, n, s), hash(p.key) % n), p)
  }

  /** `hashtable_do_rehash`: the pairs are inserted anew, in list order. */
  function Reinsert<K, V>(hash: K -> nat, n: nat, s: seq<Pair<K, V>>): seq<Pair<K, V>>
    requires n > 0
  {
    if s == [] then [] else Insert(hash, n, Reinsert(hash, n, s[..|s| - 1]), s[|s| - 1])
  }

  function Find<K(==), V>(s: seq<Pair<K, V>>, key: K): (i: nat)
    ensures i <= |s|
    ensures i < |s| ==> s[i].key == key
    ensures forall j | 0 <= j < i :: s[j].key != key
  {
    if s == [] then 0 else if s[0].key == key then 0 else 1 + Find(s[1..], key)
  }

  function EmptyTable<K, V>(): Table<K, V> { Table(0, []) }

  function Size(level: nat): (n: nat)
    ensures n > 0
  {
    if level < |PRIMES| then PRIMES[level] else PRIMES[|PRIMES| - 1]
  }

  /** The table that `hashtable_set` works on: rehashed when the load ratio would exceed 1. */
  function Grown<K, V>(hash: K -> nat, t: Table<K, V>): Table<K, V> {
    if |t.order| >= Size(t.level) then Table(t.level + 1, Reinsert(hash, Size(t.level + 1), t.order)) else t
  }

  function Set<K(==), V>(hash: K -> nat, t: Table<K, V>, key: K, serial: nat, value: V): Table<K, V> {
    var g := Grown(hash, t);
    var i := Find(g.order, key);
    if i < |g.order| then g.(order := g.order[i := g.order[i].(value := value)])
    else g.(order := Insert(hash, Size(g.level), g.order, Pair(key, serial, value)))
  }

  function Get<K(==), V>(t: Table<K, V>, key: K): Option<V> {
    var i := Find(t.order, key);
    if i < |t.order| then Some(t.order[i].value) else None
  }

  function Del<K(==), V>(t: Table<K, V>, key: K): Table<K, V> {
    var i := Find(t.order, key);
    if i < |t.order| then t.(order := RemoveAt(t.order, i)) else t
  }

  // ---------------------------------------------------------------- tables are finite maps

  ghost predicate Distinct<K(!new), V>(s: seq<Pair<K, V>>) {
    forall i, j | 0 <= i < j < |s| :: s[i].key != s[j].key
  }

  ghost predicate Valid<K(!new), V>(hash: K -> nat, t: Table<K, V>) {
    && Distinct(t.order)
    && Clustered(Buckets(hash, Size(t.level), t.order))
    && (t.level < |PRIMES| ==> |t.order| <= Size(t.level))
  }

  function Lookup<K(==), V>(s: seq<Pair<K, V>>, key: K): (r: Option<Pair<K, V>>)
    ensures r.Some? ==> r.value in s && r.value.key == key
  {
    var i := Find(s, key);
    if i < |s| then Some(s[i]) else None
  }

  ghost function Keys<K(!new), V>(s: seq<Pair<K, V>>): (ks: set<K>)
    ensures forall k :: k in ks <==> Lookup(s, k).Some?
  {
    if s == [] then {} else {s[0].key} + Keys(s[1..])
  }

  ghost function MapOf<K(!new), V>(s: seq<Pair<K, V>>): map<K, V> {
    map k | k in Keys(s) :: Lookup(s, k).value.value
  }

  /** The serial each present key was stored with. */
  ghost function SerialsOf<K(!new), V>(s: seq<Pair<K, V>>): map<K, nat> {
    map k | k in Keys(s) :: Lookup(s, k).value.serial
  }

  lemma MapFromLookups<K(!new), V>(s: seq<Pair<K, V>>, values: map<K, V>)
    requires forall k :: k in values <==> Lookup(s, k).Some?
    requires forall k | k in values :: values[k] == Lookup(s, k).value.value
    ensures MapOf(s) == values
  {
    hide Lookup;
    assert MapOf(s).Keys == values.Keys;
  }

  lemma SerialsFromLookups<K(!new), V>(s: seq<Pair<K, V>>, serials: map<K, nat>)
    requires forall k :: k in serials <==> Lookup(s, k).Some?
    requires forall k | k in serials :: serials[k] == Lookup(s, k).value.serial
    ensures SerialsOf(s) == serials
  {
    hide Lookup;
    assert SerialsOf(s).Keys == serials.Keys;
  }

  lemma MapsFromLookups<K(!new), V>(s: seq<Pair<K, V>>, values: map<K, V>, serials: map<K, nat>)
    requires forall k :: k in values <==> Lookup(s, k).Some?
    requires forall k :: k in serials <==> Lookup(s, k).Some?
    requires forall k | k in values :: values[k] == Lookup(s, k).value.value
    requires forall k | k in serials :: serials[k] == Lookup(s, k).value.serial
    ensures MapOf(s) == values && SerialsOf(s) == serials
  {
    MapFromLookups(s, values);
    SerialsFromLookups(s, serials);
  }

  lemma FindIs<K(!new), V>(s: seq<Pair<K, V>>, key: K, i: nat)
    requires i <= |s| && (i < |s| ==> s[i].key == key) && forall j | 0 <= j < i :: s[j].key != key
    ensures Find(s, key) == i
  {
  }

  lemma FindAt<K(!new), V>(s: seq<Pair<K, V>>, i: nat)
    requires Distinct(s) && i < |s|
    ensures Find(s, s[i].key) == i
  {
    FindIs(s, s[i].key, i);
  }

  lemma {:induction false} MapSize<K(!new), V>(s: seq<Pair<K, V>>)
    requires Distinct(s)
    ensures |MapOf(s)| == |Keys(s)| == |s|
  {
    assert MapOf(s).Keys == Keys(s);
    KeyCount(s);
  }

  lemma {:induction false} KeyCount<K(!new), V>(s: seq<Pair<K, V>>)
    requires Distinct(s)
    ensures |Keys(s)| == |s|
  {
    hide Keys, Lookup, Find;
    if s == [] {
      NoKeys<K, V>();
    } else {
      var r := s[1..];
      assert Distinct(r);
      KeyCount(r);
      FindIs(r, s[0].key, |r|);
      KeysCons(s);
    }
  }

  lemma NoKeys<K(!new), V>()
    ensures Keys<K, V>([]) == {}
  {
  }

  lemma KeysCons<K(!new), V>(s: seq<Pair<K, V>>)
    requires s != [] && Find(s[1..], s[0].key) == |s| - 1
    ensures Keys(s) == Keys(s[1..]) + {s[0].key} && s[0].key !in Keys(s[1..])
  {
    hide Keys, MapOf;
    forall k ensures k in Keys(s) <==> k in Keys(s[1..]) + {s[0].key} {
      assert k in Keys(s) <==> Lookup(s, k).Some?;
      assert k in Keys(s[1..]) <==> Lookup(s[1..], k).Some?;
    }
  }

  lemma LookupMember<K(!new), V>(s: seq<Pair<K, V>>, p: Pair<K, V>)
    requires Distinct(s) && p in s
    ensures Lookup(s, p.key) == Some(p)
  {
    var j :| 0 <= j < |s| && s[j] == p;
    FindAt(s, j);
  }

  /** Two lists with the same pairs denote the same maps, whatever their order. */
  lemma SameMap<K(!new), V>(s: seq<Pair<K, V>>, t: seq<Pair<K, V>>)
    requires Distinct(s) && Distinct(t)
    requires forall p :: p in s <==> p in t
    ensures MapOf(s) == MapOf(t) && SerialsOf(s) == SerialsOf(t)
  {
    forall k ensures Lookup(s, k) == Lookup(t, k) {
      if Lookup(s, k).Some? {
        LookupMember(t, Lookup(s, k).value);
      } else if Lookup(t, k).Some? {
        LookupMember(s, Lookup(t, k).value);
      }
    }
    MapsFromLookups(s, MapOf(t), SerialsOf(t));
  }

  lemma InMapIff<K(!new), V>(s: seq<Pair<K, V>>, key: K)
    ensures key in MapOf(s) <==> Find(s, key) < |s|
  {
    assert key in Keys(s) <==> Lookup(s, key).Some?;
  }

  lemma GetIsLookup<K(!new), V>(t: Table<K, V>, key: K)
    ensures Get(t, key) == if key in MapOf(t.order) then Some(MapOf(t.order)[key]) else None
  {
    assert key in Keys(t.order) <==> Lookup(t.order, key).Some?;
  }

  lemma InsertedBuckets<K(!new), V>(hash: K -> nat, n: nat, s: seq<Pair<K, V>>, at: nat, p: Pair<K, V>)
    requires n > 0 && at <= |s|
    ensures Buckets(hash, n, InsertAt(s, at, p)) == InsertAt(Buckets(hash, n, s), at, hash(p.key) % n)
  {
    hide InsertAt, Buckets;
  }

  lemma RemovedBuckets<K(!new), V>(hash: K -> nat, n: nat, s: seq<Pair<K, V>>, at: nat)
    requires n > 0 && at < |s|
    ensures Buckets(hash, n, RemoveAt(s, at)) == RemoveAt(Buckets(hash, n, s), at)
  {
    hide RemoveAt, Buckets;
  }

  lemma InsertedDistinct<K(!new), V>(s: seq<Pair<K, V>>, at: nat, p: Pair<K, V>)
    requires at <= |s| && Distinct(s) && forall i | 0 <= i < |s| :: s[i].key != p.key
    ensures Distinct(InsertAt(s, at, p))
  {
    hide InsertAt, Buckets;
    var r := InsertAt(s, at, p);
    forall i, j | 0 <= i < j < |r| ensures r[i].key != r[j].key {
      var i', j' := if i < at then i else i - 1, if j < at then j else j - 1;
      if i != at && j != at {
        assert r[i] == s[i'] && r[j] == s[j'];
      } else if i == at {
        assert r[j] == s[j'];
      } else {
        assert r[i] == s[i'];
      }
    }
  }

  /** Inserting a pair with a new key keeps keys distinct and buckets contiguous, and adds only the pair. */
  lemma InsertKeeps<K(!new), V>(hash: K -> nat, n: nat, s: seq<Pair<K, V>>, p: Pair<K, V>)
    requires n > 0 && Distinct(s) && Find(s, p.key) == |s| && Clustered(Buckets(hash, n, s))
    ensures var r := Insert(hash, n, s, p);
            && |r| == |s| + 1 && multiset(r) == multiset(s + [p])
            && Distinct(r) && Clustered(Buckets(hash, n, r))
  {
    var bs := Buckets(hash, n, s);
    var at := FirstIn(bs, hash(p.key) % n);
    hide Buckets;
    InsertedBag(s, at, p);
    InsertedBuckets(hash, n, s, at, p);
    InsertClustered(bs, hash(p.key) % n);
    assert Distinct(InsertAt(s, at, p)) by {
      InsertedDistinct(s, at, p);
    }
  }

  lemma SameBag<T>(s: seq<T>, t: seq<T>)
    requires multiset(s) == multiset(t)
    ensures forall x :: x in s <==> x in t
  {
    forall x ensures x in s <==> x in t {
      assert x in s <==> x in multiset(s);
    }
  }

  lemma KeyIsNew<K(!new), V>(s: seq<Pair<K, V>>, r: seq<Pair<K, V>>, p: Pair<K, V>, q: seq<Pair<K, V>>)
    requires s == r + [p] && Distinct(s) && multiset(q) == multiset(r)
    ensures Find(q, p.key) == |q|
  {
    SameBag(q, r);
    forall i | 0 <= i < |q| ensures q[i].key != p.key {
      assert q[i] in r;
      var j :| 0 <= j < |r| && r[j] == q[i];
      assert s[j] == r[j] && s[|r|] == p;
    }
  }

  /** Rehashing neither loses nor invents a pair, and leaves every bucket one contiguous run. */
  lemma {:induction false} ReinsertKeeps<K(!new), V>(hash: K -> nat, n: nat, s: seq<Pair<K, V>>)
    requires n > 0 && Distinct(s)
    ensures multiset(Reinsert(hash, n, s)) == multiset(s) && |Reinsert(hash, n, s)| == |s|
    ensures Distinct(Reinsert(hash, n, s))
    ensures Clustered(Buckets(hash, n, Reinsert(hash, n, s)))
  {
    if s != [] {
      var r, p := s[..|s| - 1], s[|s| - 1];
      ReinsertKeeps(hash, n, r);
      var q := Reinsert(hash, n, r);
      hide Insert, Buckets;
      assert s == r + [p];
      KeyIsNew(s, r, p, q);
      InsertKeeps(hash, n, q, p);
    }
  }

  lemma GrownKeeps<K(!new), V>(hash: K -> nat, t: Table<K, V>)
    requires Valid(hash, t)
    ensures var g := Grown(hash, t);
            && Distinct(g.order) && Clustered(Buckets(hash, Size(g.level), g.order))
            && MapOf(g.order) == MapOf(t.order) && SerialsOf(g.order) == SerialsOf(t.order)
            && multiset(g.order) == multiset(t.order) && |g.order| == |t.order|
            && (g.level < |PRIMES| ==> |g.order| < Size(g.level))
  {
    hide Reinsert, Buckets;
    if |t.order| >= Size(t.level) {
      ReinsertKeeps(hash, Size(t.level + 1), t.order);
      SameBag(t.order, Reinsert(hash, Size(t.level + 1), t.order));
      SameMap(t.order, Reinsert(hash, Size(t.level + 1), t.order));
    }
  }

  lemma LookupReplaced<K(!new), V>(s: seq<Pair<K, V>>, i: nat, value: V, k: K)
    requires Distinct(s) && i < |s|
    ensures Lookup(s[i := s[i].(value := value)], k)
            == if k == s[i].key then Some(s[i].(value := value)) else Lookup(s, k)
  {
    FindAt(s, i);
    FindIs(s[i := s[i].(value := value)], k, Find(s, k));
  }

  lemma ReplacedValue<K(!new), V>(s: seq<Pair<K, V>>, i: nat, value: V)
    requires Distinct(s) && i < |s|
    ensures Distinct(s[i := s[i].(value := value)])
    ensures MapOf(s[i := s[i].(value := value)]) == MapOf(s)[s[i].key := value]
    ensures SerialsOf(s[i := s[i].(value := value)]) == SerialsOf(s)
  {
    hide Lookup, Find;
    var r := s[i := s[i].(value := value)];
    LookupReplaced(s, i, value, s[i].key);
    LookupMember(s, s[i]);
    forall k ensures Lookup(r, k) == if k == s[i].key then Some(r[i]) else Lookup(s, k) {
      LookupReplaced(s, i, value, k);
    }
    MapsFromLookups(r, MapOf(s)[s[i].key := value], SerialsOf(s));
  }

  lemma AppendedDistinct<K(!new), V>(s: seq<Pair<K, V>>, p: Pair<K, V>)
    requires Distinct(s) && Find(s, p.key) == |s|
    ensures Distinct(s + [p])
  {
  }

  lemma LookupAppended<K(!new), V>(s: seq<Pair<K, V>>, p: Pair<K, V>, k: K)
    requires Find(s, p.key) == |s|
    ensures Lookup(s + [p], k) == if k == p.key then Some(p) else Lookup(s, k)
  {
    var r := s + [p];
    FindIs(r, k, if k == p.key then |s| else if Find(s, k) < |s| then Find(s, k) else |r|);
  }

  /** The maps of a table in terms of its look-ups. */
  lemma MapsAreLookups<K(!new), V>(s: seq<Pair<K, V>>)
    ensures forall k :: (k in MapOf(s) <==> Lookup(s, k).Some?) && (k in SerialsOf(s) <==> Lookup(s, k).Some?)
    ensures forall k :: k in MapOf(s) ==> MapOf(s)[k] == Lookup(s, k).value.value
    ensures forall k :: k in SerialsOf(s) ==> SerialsOf(s)[k] == Lookup(s, k).value.serial
  {
  }

  lemma AppendedPair<K(!new), V>(s: seq<Pair<K, V>>, p: Pair<K, V>)
    requires Distinct(s) && Find(s, p.key) == |s|
    ensures Distinct(s + [p])
    ensures MapOf(s + [p]) == MapOf(s)[p.key := p.value] && SerialsOf(s + [p]) == SerialsOf(s)[p.key := p.serial]
  {
    hide Distinct, MapOf, SerialsOf, Lookup, Find;
    var r := s + [p];
    AppendedDistinct(s, p);
    forall k ensures Lookup(r, k) == if k == p.key then Some(p) else Lookup(s, k) {
      LookupAppended(s, p, k);
    }
    MapsAreLookups(s);
    MapsFromLookups(r, MapOf(s)[p.key := p.value], SerialsOf(s)[p.key := p.serial]);
  }

  /** `s` lists every binding of `m` exactly once. */
  ghost predicate ListsOnce<K(!new), V>(s: seq<Pair<K, V>>, m: map<K, V>) {
    && |s| == |m|
    && (forall i | 0 <= i < |s| :: s[i].key in m && m[s[i].key] == s[i].value)
    && (forall k | k in m :: Find(s, k) < |s|)
  }

  lemma EachBindingOnce<K(!new), V>(s: seq<Pair<K, V>>)
    requires Distinct(s)
    ensures ListsOnce(s, MapOf(s))
  {
    MapSize(s);
    forall i | 0 <= i < |s| ensures s[i].key in MapOf(s) && MapOf(s)[s[i].key] == s[i].value {
      LookupMember(s, s[i]);
    }
    forall k | k in MapOf(s) ensures Find(s, k) < |s| {
      InMapIff(s, k);
    }
  }

  lemma GrownGet<K(!new), V>(hash: K -> nat, t: Table<K, V>, key: K)
    requires Valid(hash, t)
    ensures Get(Grown(hash, t), key) == Get(t, key)
  {
    GrownKeeps(hash, t);
    GetIsLookup(t, key);
    GetIsLookup(Grown(hash, t), key);
  }

  /** Setting a key acts on the map as an update, and keeps the serial of a key that is present. */
  lemma SetIsUpdate<K(!new), V>(hash: K -> nat, t: Table<K, V>, key: K, serial: nat, value: V)
    requires Valid(hash, t)
    ensures Valid(hash, Set(hash, t, key, serial, value))
    ensures MapOf(Set(hash, t, key, serial, value).order) == MapOf(t.order)[key := value]
    ensures SerialsOf(Set(hash, t, key, serial, value).order)
            == if key in SerialsOf(t.order) then SerialsOf(t.order) else SerialsOf(t.order)[key := serial]
  {
    hide InsertAt, Buckets;
    GrownKeeps(hash, t);
    var g := Grown(hash, t);
    var n := Size(g.level);
    var r := Set(hash, t, key, serial, value);
    var i := Find(g.order, key);
    if i < |g.order| {
      assert Buckets(hash, n, r.order) == Buckets(hash, n, g.order);
      ReplacedValue(g.order, i, value);
    } else {
      var p := Pair(key, serial, value);
      InsertKeeps(hash, n, g.order, p);
      SameBag(r.order, g.order + [p]);
      AppendedPair(g.order, p);
      SameMap(r.order, g.order + [p]);
    }
  }

  lemma LookupRemoved<K(!new), V>(s: seq<Pair<K, V>>, i: nat, k: K)
    requires Distinct(s) && i < |s| && Distinct(RemoveAt(s, i))
    ensures Lookup(RemoveAt(s, i), k) == if k == s[i].key then None else Lookup(s, k)
  {
    hide RemoveAt, Buckets;
    var r := RemoveAt(s, i);
    if k == s[i].key {
      assert forall j | 0 <= j < |r| :: r[j].key != k;
    } else if Lookup(s, k).Some? {
      var f := Find(s, k);
      assert r[if f < i then f else f - 1] == s[f];
      LookupMember(r, s[f]);
    } else {
      assert forall j | 0 <= j < |r| :: r[j].key != k;
    }
  }

  lemma RemovedPair<K(!new), V>(s: seq<Pair<K, V>>, i: nat)
    requires Distinct(s) && i < |s|
    ensures Distinct(RemoveAt(s, i))
    ensures MapOf(RemoveAt(s, i)) == MapOf(s) - {s[i].key} && SerialsOf(RemoveAt(s, i)) == SerialsOf(s) - {s[i].key}
  {
    hide RemoveAt, Buckets;
    var r := RemoveAt(s, i);
    assert Distinct(r) by {
    }
    forall k ensures Lookup(r, k) == if k == s[i].key then None else Lookup(s, k) {
      LookupRemoved(s, i, k);
    }
    MapsFromLookups(r, MapOf(s) - {s[i].key}, SerialsOf(s) - {s[i].key});
  }

  lemma RemoveKeeps<K(!new), V>(hash: K -> nat, t: Table<K, V>, i: nat)
    requires Valid(hash, t) && i < |t.order|
    ensures Valid(hash, Table(t.level, RemoveAt(t.order, i)))
  {
    hide RemoveAt, Buckets;
    RemovedPair(t.order, i);
    RemovedBuckets(hash, Size(t.level), t.order, i);
    RemoveClustered(Buckets(hash, Size(t.level), t.order), i);
  }

  /** Deleting a key acts on the map as removal; an absent key changes nothing. */
  lemma DelIsRemoval<K(!new), V>(hash: K -> nat, t: Table<K, V>, key: K)
    requires Valid(hash, t)
    ensures Valid(hash, Del(t, key))
    ensures MapOf(Del(t, key).order) == MapOf(t.order) - {key}
    ensures SerialsOf(Del(t, key).order) == SerialsOf(t.order) - {key}
  {
    hide RemoveAt, Buckets, MapOf, SerialsOf, Lookup, Valid;
    var i := Find(t.order, key);
    if i < |t.order| {
      ValidIsDistinct(hash, t);
      RemovedPair(t.order, i);
      RemoveKeeps(hash, t, i);
    } else {
      AbsentKey(t.order, key);
    }
  }

  lemma ValidIsDistinct<K(!new), V>(hash: K -> nat, t: Table<K, V>)
    requires Valid(hash, t)
    ensures Distinct(t.order)
  {
  }

  lemma AbsentKey<K(!new), V>(s: seq<Pair<K, V>>, key: K)
    requires Find(s, key) == |s|
    ensures MapOf(s) == MapOf(s) - {key} && SerialsOf(s) == SerialsOf(s) - {key}
  {
    InMaps(s, key);
    hide Find, Lookup, MapOf, SerialsOf;
    var m, n := MapOf(s), SerialsOf(s);
    assert m - {key} == m && n - {key} == n;
  }

  lemma InMaps<K(!new), V>(s: seq<Pair<K, V>>, key: K)
    ensures key in MapOf(s) <==> Find(s, key) < |s|
    ensures key in SerialsOf(s) <==> Find(s, key) < |s|
  {
    hide Find;
    assert key in Keys(s) <==> Lookup(s, key).Some?;
  }

  lemma EmptyIsValid<K(!new), V>(hash: K -> nat)
    ensures Valid(hash, EmptyTable<K, V>())
    ensures forall b: nat :: FirstIn(Buckets<K, V>(hash, Size(0), []), b) == 0 &&
                             LastIn(Buckets<K, V>(hash, Size(0), []), b) == -1
  {
    assert Buckets<K, V>(hash, Size(0), []) == [];
  }
}
