/** The object operations of `value.c` on the counted heap. */
module Objects {
  import opened Bytes
  import opened Containers
  import opened Heaps
  import opened Stores
  import J = Json
  import T = Tables
  import Utf8

  /** The hash table of an object is one that the table operations built, and holds no null pointer. */
  ghost predicate Regular(h: Heap, r: Ref) {
    IsObject(h, r) ==> T.Valid(J.HashStr, h[r].node.members) && NULL !in ValuesIn(h[r].node.members.order)
  }

  // ---------------------------------------------------------------- the slots of an object

  lemma {:induction false} ValuesAt(order: seq<T.Pair<Text, Ref>>, i: nat)
    requires i < |order|
    ensures ValuesIn(order)[i] == order[i].value
  {
    if i > 0 {
      ValuesAt(order[1..], i - 1);
    }
  }

  lemma ValuesInserted(order: seq<T.Pair<Text, Ref>>, i: nat, p: T.Pair<Text, Ref>)
    requires i <= |order|
    ensures ValuesIn(T.InsertAt(order, i, p)) == T.InsertAt(ValuesIn(order), i, p.value)
  {
    hide T.InsertAt, ValuesIn;
    var r, v := T.InsertAt(order, i, p), T.InsertAt(ValuesIn(order), i, p.value);
    forall k | 0 <= k < |r| ensures ValuesIn(r)[k] == v[k] {
      ValueInserted(order, i, p, k);
    }
  }

  lemma ValueInserted(order: seq<T.Pair<Text, Ref>>, i: nat, p: T.Pair<Text, Ref>, k: nat)
    requires i <= |order| && k <= |order|
    ensures ValuesIn(T.InsertAt(order, i, p))[k] == T.InsertAt(ValuesIn(order), i, p.value)[k]
  {
    hide T.InsertAt, ValuesIn;
    ValuesAt(T.InsertAt(order, i, p), k);
    if k < i {
      ValuesAt(order, k);
    } else if k > i {
      ValuesAt(order, k - 1);
    }
  }

  lemma ValuesRemoved(order: seq<T.Pair<Text, Ref>>, i: nat)
    requires i < |order|
    ensures ValuesIn(T.RemoveAt(order, i)) == T.RemoveAt(ValuesIn(order), i)
  {
    hide T.RemoveAt, ValuesIn;
    var r, v := T.RemoveAt(order, i), T.RemoveAt(ValuesIn(order), i);
    forall k | 0 <= k < |r| ensures ValuesIn(r)[k] == v[k] {
      ValuesAt(r, k);
      ValuesAt(order, if k < i then k else k + 1);
    }
  }

  lemma Cancel<X>(a: multiset<X>, b: multiset<X>, x: X)
    requires a + multiset{x} == b + multiset{x}
    ensures a == b
  {
    assert a == a + multiset{x} - multiset{x};
    assert b == b + multiset{x} - multiset{x};
  }

  /** The order of the pairs does not matter. */
  lemma {:induction false} ValuesPermuted(a: seq<T.Pair<Text, Ref>>, b: seq<T.Pair<Text, Ref>>)
    requires multiset(a) == multiset(b)
    ensures multiset(ValuesIn(a)) == multiset(ValuesIn(b))
    decreases |a|
  {
    if a == [] {
      assert |multiset(b)| == |b|;
    } else {
      var p, rest := a[0], a[1..];
      assert a == [p] + rest;
      assert p in multiset(b);
      var j :| 0 <= j < |b| && b[j] == p;
      T.RemovedBag(b, j);
      Cancel(multiset(rest), multiset(T.RemoveAt(b, j)), p);
      ValuesPermuted(rest, T.RemoveAt(b, j));
      ValuesRemoved(b, j);
      ValuesAt(b, j);
      T.RemovedBag(ValuesIn(b), j);
    }
  }

  lemma {:induction false} ValuesReplaced(order: seq<T.Pair<Text, Ref>>, i: nat, value: Ref)
    requires i < |order|
    ensures ValuesIn(order[i := order[i].(value := value)]) == ValuesIn(order)[i := value]
  {
    var r := order[i := order[i].(value := value)];
    if i == 0 {
      assert r[1..] == order[1..];
    } else {
      assert r[1..] == order[1..][i - 1 := order[1..][i - 1].(value := value)];
      ValuesReplaced(order[1..], i - 1, value);
    }
  }

  lemma ReplacedSlot(order: seq<T.Pair<Text, Ref>>, i: nat, value: Ref, level: nat, serial: nat)
    requires i < |order|
    ensures var n := Object(T.Table(level, order), serial);
            var m := Object(T.Table(level, order[i := order[i].(value := value)]), serial);
            && order[i].value in Children(n) && |Children(m)| == |Children(n)|
            && (forall q: Ref :: Occurs(m, q) + multiset{order[i].value}[q] == Occurs(n, q) + multiset{value}[q])
            && (forall q: Ref :: q in Children(m) ==> q == value || q in Children(n))
  {
    hide ValuesIn;
    ValuesAt(order, i);
    ValuesReplaced(order, i, value);
    ReplacedItem(ValuesIn(order), i, value);
  }

  lemma InsertedSlot(members: Members, n: nat, p: T.Pair<Text, Ref>, serial: nat)
    requires n > 0
    ensures forall q: Ref :: Occurs(Object(members.(order := T.Insert(J.HashStr, n, members.order, p)), serial), q)
                             == Occurs(Object(members, serial), q) + multiset{p.value}[q]
    ensures |Children(Object(members.(order := T.Insert(J.HashStr, n, members.order, p)), serial))| ==
              |Children(Object(members, serial))| + 1
  {
    hide T.InsertAt, ValuesIn;
    var at := T.FirstIn(T.Buckets(J.HashStr, n, members.order), J.HashStr(p.key) % n);
    ValuesInserted(members.order, at, p);
    T.InsertedBag(ValuesIn(members.order), at, p.value);
  }

  lemma GrownBag(members: Members)
    requires T.Valid(J.HashStr, members)
    ensures var g := T.Grown(J.HashStr, members);
            multiset(g.order) == multiset(members.order) && |g.order| == |members.order|
  {
    hide T.Grown, T.Valid;
    T.GrownKeeps(J.HashStr, members);
  }

  lemma GrownSlots(members: Members, serial: nat, serial': nat)
    requires T.Valid(J.HashStr, members)
    ensures forall q: Ref ::
              Occurs(Object(T.Grown(J.HashStr, members), serial'), q) == Occurs(Object(members, serial), q)
    ensures |Children(Object(T.Grown(J.HashStr, members), serial'))| == |Children(Object(members, serial))|
    ensures forall q: Ref :: q in Children(Object(T.Grown(J.HashStr, members), serial')) <==>
              q in Children(Object(members, serial))
  {
    var g := T.Grown(J.HashStr, members);
    GrownBag(members);
    hide T.Grown, T.Valid, ValuesIn;
    ValuesPermuted(g.order, members.order);
    T.SameBag(ValuesIn(g.order), ValuesIn(members.order));
  }

  // ---------------------------------------------------------------- set

  /** What `json_object_set_new_nocheck` makes of an object: the key gets the next serial. */
  function SetNode(n: Node, key: Text, value: Ref): (r: Node)
    requires n.Object?
    ensures r.Object?
  {
    Object(T.Set(J.HashStr, n.members, key, n.serial, value), n.serial + 1)
  }

  /** The object `json` survives the loss of what `key` is bound to. */
  ghost predicate SparesAt(h: Heap, owned: multiset<Ref>, json: Ref, key: Text, s: set<Ref>) {
    IsObject(h, json) && T.Get(h[json].node.members, key).Some? ==>
      Spares(h, owned, json, T.Get(h[json].node.members, key).value, s)
  }

  /** A guarded object survives the loss of anything it holds. */
  lemma GuardedSpares(h: Heap, owned: multiset<Ref>, json: Ref, key: Text, s: set<Ref>)
    requires Guarded(h, owned, json, s)
    ensures SparesAt(h, owned, json, key, s)
  {
    if IsObject(h, json) && T.Get(h[json].node.members, key).Some? {
      var order := h[json].node.members.order;
      ValuesAt(order, T.Find(order, key));
    }
  }

  /** `hashtable_set` on a key that is present: the old value is released before the new one is stored. */
  method ReplaceMember(st: Store, json: Ref, i: nat, value: Ref, ghost s: set<Ref>)
    requires st.Valid() && IsObject(st.cells, json) && value in st.owned
    requires i < |st.cells[json].node.members.order|
    requires Spares(st.cells, st.owned, json, st.cells[json].node.members.order[i].value, s)
    modifies st
    ensures st.Valid() && st.owned == old(st.owned) - multiset{value} && Outside(old(st.cells), st.cells, json, s)
    ensures old(st.cells[json].node.members.order[i].value in st.owned) ==>
              SameNodes(old(st.cells)[json := st.cells[json]], st.cells)
    ensures var n := old(st.cells)[json].node; var p := n.members.order[i];
            Became(old(st.cells), st.cells, json,
                n.(members := n.members.(order := n.members.order[i := p.(value := value)])))
    ensures Total(st) <= old(Total(st))
  {
    hide Balanced, Closed, Occurs, Slots, AllSlots, Children;
    var m, counter := st.cells[json].node.members, st.cells[json].node.serial;
    var gap := m.order[i := m.order[i].(value := NULL)];
    ReplacedSlot(m.order, i, NULL, m.level, counter);
    DropSlot(st, json, Object(T.Table(m.level, gap), counter), m.order[i].value, s);
    ReplacedSlot(gap, i, value, m.level, counter);
    FillSlot(st, json, Object(T.Table(m.level, gap[i := gap[i].(value := value)]), counter), value);
    assert gap[i := gap[i].(value := value)] == m.order[i := m.order[i].(value := value)];
  }

  /** `hashtable_set` inside an object, behind the serial's increment and the rehash. */
  method PutMember(st: Store, json: Ref, key: Text, serial: nat, value: Ref, ghost s: set<Ref>)
    requires st.Valid() && IsObject(st.cells, json) && value in st.owned && SparesAt(st.cells, st.owned, json, key, s)
    modifies st
    ensures st.Valid() && st.owned == old(st.owned) - multiset{value} && Outside(old(st.cells), st.cells, json, s)
    ensures var n := old(st.cells)[json].node; var m := n.members;
            var i := T.Find(m.order, key);
            var order := if i < |m.order| then m.order[i := m.order[i].(value := value)]
                         else T.Insert(J.HashStr, T.Size(m.level), m.order, T.Pair(key, serial, value));
            && Became(old(st.cells), st.cells, json, n.(members := m.(order := order)))
            && (i == |m.order| || m.order[i].value in old(st.owned) ==>
                  SameNodes(old(st.cells)[json := st.cells[json]], st.cells))
    ensures Total(st) <= old(Total(st))
  {
    hide Balanced, Closed, Occurs, Slots, AllSlots, Children, T.Insert;
    var m := st.cells[json].node.members;
    var i := T.Find(m.order, key);
    if i < |m.order| {
      ReplaceMember(st, json, i, value, s);
    } else {
      var p := T.Pair(key, serial, value);
      InsertedSlot(m, T.Size(m.level), p, st.cells[json].node.serial);
      FillSlot(st, json,
          Object(m.(order := T.Insert(J.HashStr, T.Size(m.level), m.order, p)), st.cells[json].node.serial), value);
    }
  }

  /** `json_object_set_new_nocheck`; with a null key or value nothing is taken from the caller. */
  method ObjectSetNewNocheck(st: Store, json: Ref, key: Option<Text>, value: Ref, ghost s: set<Ref>) returns (rc: int)
    requires st.Valid() && Pointer(st.cells, json) && (value == NULL || value in st.owned)
    requires Regular(st.cells, json) && (key.Some? ==> SparesAt(st.cells, st.owned, json, key.value, s))
    modifies st
    ensures st.Valid() && (rc == 0 || rc == -1)
    ensures rc == 0 <==> old(key.Some? && value != NULL && IsObject(st.cells, json) && json != value)
    ensures st.owned == if key.None? || value == NULL then old(st.owned) else old(st.owned) - multiset{value}
    ensures Total(st) <= old(Total(st))
    ensures rc == 0 ==> Became(old(st.cells), st.cells, json, SetNode(old(st.cells)[json].node, key.value, value))
    ensures rc == 0 ==> Outside(old(st.cells), st.cells, json, s)
    ensures rc == 0 && Harmless(T.Get(old(st.cells)[json].node.members, key.value), old(st.owned)) ==>
              SameNodes(old(st.cells)[json := st.cells[json]], st.cells)
    ensures rc != 0 ==> Survives(old(st.cells), st.cells)
  {
    hide Balanced, Closed, Occurs, Slots, AllSlots, Children, T.Grown, T.Find, T.Valid, T.Get, Spares, Became, SetNode,
        T.Set, T.Insert, Outside, SameNodes, SparesAt;
    if key.None? || value == NULL {
      return -1;
    }
    if !IsObject(st.cells, json) || json == value {
      Decref(st, value);
      return -1;
    }
    var members, serial := st.cells[json].node.members, st.cells[json].node.serial;
    var grown := T.Grown(J.HashStr, members);
    GrownSlots(members, serial, serial + 1);
    SparesGrown(st.cells, st.owned, json, key.value, serial + 1, s);
    GrownMember(members, key.value);
    ghost var before := st.cells;
    MoveNull(st, json, Object(grown, serial + 1));
    ghost var now := st.cells;
    PutMember(st, json, key.value, serial, value, s);
    SetNodeIs(before[json].node, key.value, value);
    Through(before, now, st.cells, json, SetNode(before[json].node, key.value, value), s);
    return 0;
  }

  /** A set seen from before the rehash. */
  lemma Through(before: Heap, now: Heap, after: Heap, json: Ref, node: Node, s: set<Ref>)
    requires json < |before| == |now| && now == before[json := before[json].(node := now[json].node)]
    requires Became(now, after, json, node) && Outside(now, after, json, s)
    ensures Became(before, after, json, node) && Outside(before, after, json, s) && json < |after| == |before|
    ensures SameNodes(now[json := after[json]], after) ==> SameNodes(before[json := after[json]], after)
  {
    assert now[json := after[json]] == before[json := after[json]];
  }

  lemma SetNodeIs(n: Node, key: Text, value: Ref)
    requires n.Object?
    ensures var g := T.Grown(J.HashStr, n.members); var i := T.Find(g.order, key);
            SetNode(n, key, value) ==
            Object(g.(order := if i < |g.order| then g.order[i := g.order[i].(value := value)]
                               else T.Insert(J.HashStr, T.Size(g.level), g.order, T.Pair(key, n.serial, value))),
              n.serial + 1)
  {
    hide T.Grown, T.Insert;
  }

  lemma GrownMember(members: Members, key: Text)
    requires T.Valid(J.HashStr, members)
    ensures var g := T.Grown(J.HashStr, members); var i := T.Find(g.order, key);
            T.Get(members, key) == if i < |g.order| then Some(g.order[i].value) else None
  {
    T.GrownGet(J.HashStr, members, key);
  }

  /** The rehash does not change what the object survives. */
  lemma SparesGrown(h: Heap, owned: multiset<Ref>, json: Ref, key: Text, serial: nat, s: set<Ref>)
    requires IsObject(h, json) && T.Valid(J.HashStr, h[json].node.members) && SparesAt(h, owned, json, key, s)
    ensures var g := T.Grown(J.HashStr, h[json].node.members);
            SparesAt(h[json := h[json].(node := Object(g, serial))], owned, json, key, s)
  {
    hide T.Grown, T.Get, T.Valid, ValuesIn;
    var members := h[json].node.members;
    T.GrownGet(J.HashStr, members, key);
    GrownSlots(members, h[json].node.serial, serial);
  }

  /** `json_object_set_new`: a key that is not valid UTF-8 is refused. */
  method ObjectSetNew(st: Store, json: Ref, key: Option<Text>, value: Ref, ghost s: set<Ref>) returns (rc: int)
    requires st.Valid() && Pointer(st.cells, json) && (value == NULL || value in st.owned)
    requires Regular(st.cells, json) && (key.Some? ==> SparesAt(st.cells, st.owned, json, key.value, s))
    modifies st
    ensures st.Valid() && (rc == 0 || rc == -1)
    ensures rc == 0 <==>
              old(key.Some? && Utf8.Valid(key.value) && value != NULL && IsObject(st.cells, json) && json != value)
    ensures value != NULL ==> st.owned == old(st.owned) - multiset{value}
    ensures rc == 0 ==> Became(old(st.cells), st.cells, json, SetNode(old(st.cells)[json].node, key.value, value))
    ensures rc == 0 ==> Outside(old(st.cells), st.cells, json, s)
    ensures rc == 0 && Harmless(T.Get(old(st.cells)[json].node.members, key.value), old(st.owned)) ==>
              SameNodes(old(st.cells)[json := st.cells[json]], st.cells)
    ensures rc != 0 ==> Survives(old(st.cells), st.cells)
  {
    hide Balanced, Closed, Occurs, Slots, AllSlots, Children, T.Grown, T.Find, T.Valid, T.Set, Utf8.Valid, SparesAt;
    if key.None? {
      Decref(st, value);
      return -1;
    }
    var ok := Utf8.CheckString(key.value);
    if !ok {
      Decref(st, value);
      return -1;
    }
    rc := ObjectSetNewNocheck(st, json, key, value, s);
  }

  /** `json_object_set_nocheck`: the caller keeps its own reference. */
  method ObjectSetNocheck(st: Store, json: Ref, key: Text, value: Ref, ghost s: set<Ref>) returns (rc: int)
    requires st.Valid() && Pointer(st.cells, json) && Pointer(st.cells, value) && Room(st.cells, st.owned, 1)
    requires Regular(st.cells, json)
    requires SparesAt(st.cells, st.owned, json, key, s) || Bound(st.cells, json, key, value)
    modifies st
    ensures st.Valid() && (rc == 0 || rc == -1) && (value != NULL ==> st.owned == old(st.owned))
    ensures Total(st) <= old(Total(st)) + 1
    ensures rc == 0 <==> old(value != NULL && IsObject(st.cells, json) && json != value)
    ensures rc == 0 ==> Became(old(st.cells), st.cells, json, SetNode(old(st.cells)[json].node, key, value))
    ensures rc == 0 ==> Outside(old(st.cells), st.cells, json, s)
    ensures rc == 0 && Harmless(T.Get(old(st.cells)[json].node.members, key), old(st.owned) + multiset{value}) ==>
              SameNodes(old(st.cells)[json := st.cells[json]], st.cells)
    ensures rc != 0 ==> Survives(old(st.cells), st.cells)
  {
    hide Balanced, Closed, Occurs, Slots, AllSlots, Children, T.Grown, T.Find, T.Valid, T.Set, T.Get, SparesAt, Bound;
    ghost var before := st.cells;
    Incref(st, value);
    SparesCounts(before, st.cells, old(st.owned), value, json, key, s);
    rc := ObjectSetNewNocheck(st, json, Some(key), value, s);
    assert value != NULL ==> old(st.owned) + multiset{value} - multiset{value} == old(st.owned);
  }

  /** Releasing the value keeps every node: there is none, or a caller owns it too. */
  ghost predicate Harmless(released: Option<Ref>, owned: multiset<Ref>) {
    released.None? || released.value in owned
  }

  ghost predicate Bound(h: Heap, json: Ref, key: Text, value: Ref) {
    IsObject(h, json) && T.Get(h[json].node.members, key) == Some(value)
  }

  lemma SparesCounts(h: Heap, g: Heap, owned: multiset<Ref>, value: Ref, json: Ref, key: Text, s: set<Ref>)
    requires SparesAt(h, owned, json, key, s) || Bound(h, json, key, value)
    requires |g| == |h| && forall q: Ref :: q < |g| ==> g[q] == h[q].(refcount := g[q].refcount)
    ensures SparesAt(g, owned + multiset{value}, json, key, s)
  {
    forall r: Ref ensures r < |g| ==> g[r].node == h[r].node {
    }
    if Closed(h, s) {
      forall r: Ref, c: Ref | r in s && r < |g| && c in Children(g[r].node) ensures c in s {
        assert g[r].node == h[r].node;
      }
    }
  }

  // ---------------------------------------------------------------- del and clear

  /** `json_object_del`: the pair is unlinked, then its value is released. */
  method ObjectDel(st: Store, json: Ref, key: Text, ghost s: set<Ref>) returns (rc: int)
    requires st.Valid() && Pointer(st.cells, json) && Guarded(st.cells, st.owned, json, s)
    modifies st
    ensures st.Valid() && st.owned == old(st.owned) && (rc == 0 || rc == -1)
    ensures rc == 0 <==> old(IsObject(st.cells, json) && T.Get(st.cells[json].node.members, key).Some?)
    ensures rc == 0 ==>
              Became(old(st.cells), st.cells, json,
                  old(st.cells)[json].node.(members := T.Del(old(st.cells)[json].node.members, key)))
    ensures rc != 0 ==> st.cells == old(st.cells)
  {
    hide Balanced, Closed, Occurs, Slots, AllSlots, Children, T.RemoveAt;
    if !IsObject(st.cells, json) {
      return -1;
    }
    var node := st.cells[json].node;
    var i := T.Find(node.members.order, key);
    if i == |node.members.order| {
      return -1;
    }
    RemovedSlot(node, i);
    DropSlot(st, json, node.(members := T.Del(node.members, key)), node.members.order[i].value, s);
    return 0;
  }

  lemma BagLess(a: seq<Ref>, b: seq<Ref>, c: Ref)
    requires multiset(a) == multiset(b) + multiset{c}
    ensures forall q: Ref :: multiset(b)[q] + multiset{c}[q] == multiset(a)[q]
    ensures c in a && forall q: Ref :: q in b ==> q in a
  {
    forall q: Ref | q in b ensures q in a {
      assert q in multiset(b) && q in multiset(a);
    }
    assert c in multiset(a);
  }

  lemma RemovedValues(order: seq<T.Pair<Text, Ref>>, i: nat)
    requires i < |order|
    ensures var r := T.RemoveAt(order, i);
            && order[i].value in ValuesIn(order) && (forall q: Ref :: q in ValuesIn(r) ==> q in ValuesIn(order))
            && forall q: Ref ::
                 multiset(ValuesIn(r))[q] + multiset{order[i].value}[q] == multiset(ValuesIn(order))[q]
  {
    hide T.RemoveAt, ValuesIn;
    ValuesAt(order, i);
    ValuesRemoved(order, i);
    T.RemovedBag(ValuesIn(order), i);
    BagLess(ValuesIn(order), ValuesIn(T.RemoveAt(order, i)), order[i].value);
  }

  lemma RemovedSlot(n: Node, i: nat)
    requires n.Object? && i < |n.members.order|
    ensures var m := n.(members := n.members.(order := T.RemoveAt(n.members.order, i)));
            && n.members.order[i].value in Children(n)
            && (forall q: Ref :: Occurs(m, q) + multiset{n.members.order[i].value}[q] == Occurs(n, q))
            && (forall q: Ref :: q in Children(m) ==> q in Children(n))
  {
    hide T.RemoveAt, ValuesIn;
    RemovedValues(n.members.order, i);
  }

  /** `json_object_clear`. */
  method ObjectClear(st: Store, json: Ref, ghost s: set<Ref>) returns (rc: int)
    requires st.Valid() && Pointer(st.cells, json) && Guarded(st.cells, st.owned, json, s)
    modifies st
    ensures st.Valid() && st.owned == old(st.owned) && (rc == 0 <==> old(IsObject(st.cells, json))) &&
              (rc == 0 || rc == -1)
    ensures rc == 0 ==> |st.cells| == |old(st.cells)| && st.cells[json].node == Emptied(old(st.cells)[json].node)
    ensures rc == 0 ==>
              var n := old(st.cells)[json].node;
              st.cells[json].node == Object(T.Table(n.members.level, []), n.serial)
    ensures rc == 0 ==> Survives(old(st.cells)[json := st.cells[json]], st.cells)
    ensures rc != 0 ==> st.cells == old(st.cells)
  {
    hide Balanced, Closed, Occurs, Slots, AllSlots, Children;
    if !IsObject(st.cells, json) {
      return -1;
    }
    st.ReleaseSlots(json, {}, s);
    return 0;
  }

  // ---------------------------------------------------------------- update

  /** The pairs are set in turn. */
  function SetAll(n: Node, order: seq<T.Pair<Text, Ref>>): (r: Node)
    requires n.Object?
    ensures r.Object?
    decreases |order|
  {
    if order == [] then n else SetAll(SetNode(n, order[0].key, order[0].value), order[1..])
  }

  lemma SetNodeMap(n: Node, key: Text, value: Ref)
    requires n.Object? && T.Valid(J.HashStr, n.members)
    ensures T.Valid(J.HashStr, SetNode(n, key, value).members)
    ensures T.MapOf(SetNode(n, key, value).members.order) == T.MapOf(n.members.order)[key := value]
  {
    T.SetIsUpdate(J.HashStr, n.members, key, n.serial, value);
  }

  /** Setting a key updates the map, counts the serial up, and gives the old one to a key that was absent. */
  lemma SetNodeIsUpdate(n: Node, key: Text, value: Ref)
    requires n.Object? && T.Valid(J.HashStr, n.members)
    ensures var r := SetNode(n, key, value);
            && T.MapOf(r.members.order) == T.MapOf(n.members.order)[key := value] && r.serial == n.serial + 1
            && T.SerialsOf(r.members.order) == if key in T.SerialsOf(n.members.order) then T.SerialsOf(n.members.order)
                                               else T.SerialsOf(n.members.order)[key := n.serial]
  {
    hide T.MapOf, T.SerialsOf, T.Valid, T.Set;
    T.SetIsUpdate(J.HashStr, n.members, key, n.serial, value);
  }

  /** Updating an object adds the other map to it; the other map's values win. */
  lemma {:induction false} SetAllIsUnion(n: Node, order: seq<T.Pair<Text, Ref>>)
    requires n.Object? && T.Valid(J.HashStr, n.members) && T.Distinct(order)
    ensures T.Valid(J.HashStr, SetAll(n, order).members)
    ensures T.MapOf(SetAll(n, order).members.order) == T.MapOf(n.members.order) + T.MapOf(order)
    decreases |order|
  {
    hide T.MapOf, T.Valid, SetNode;
    if order == [] {
      EmptyMap();
      assert T.MapOf(n.members.order) + map[] == T.MapOf(n.members.order);
    } else {
      var p := order[0];
      assert T.Distinct(order[1..]);
      SetNodeMap(n, p.key, p.value);
      SetAllIsUnion(SetNode(n, p.key, p.value), order[1..]);
      FirstPair(order);
      assert T.MapOf(n.members.order)[p.key := p.value] + T.MapOf(order[1..]) ==
          T.MapOf(n.members.order) + T.MapOf(order);
    }
  }

  lemma EmptyMap()
    ensures T.MapOf<Text, Ref>([]) == map[]
  {
  }

  lemma FirstPair(order: seq<T.Pair<Text, Ref>>)
    requires order != [] && T.Distinct(order)
    ensures T.MapOf(order) == map[order[0].key := order[0].value] + T.MapOf(order[1..])
  {
    var p, rest := order[0], order[1..];
    assert p.key !in T.MapOf(rest) by {
      T.FindIs(rest, p.key, |rest|);
      T.InMapIff(rest, p.key);
    }
    forall k: Text ensures T.Lookup(order, k) == if k == p.key then Some(p) else T.Lookup(rest, k) {
    }
    T.MapFromLookups(order, map[p.key := p.value] + T.MapOf(rest));
  }

  // ---------------------------------------------------------------- the children after a set

  lemma {:induction false} ValuesHave(order: seq<T.Pair<Text, Ref>>, c: Ref)
    requires c in ValuesIn(order)
    ensures exists i :: 0 <= i < |order| && order[i].value == c
  {
    var i :| 0 <= i < |order| && ValuesIn(order)[i] == c;
    ValuesAt(order, i);
  }

  lemma SetNodeChild(n: Node, key: Text, value: Ref, c: Ref)
    requires n.Object? && T.Valid(J.HashStr, n.members) && c in Children(SetNode(n, key, value))
    ensures c == value || c in Children(n)
  {
    hide T.Valid, T.Grown, T.Insert, ValuesIn;
    GrownSlots(n.members, n.serial, n.serial);
    var g := T.Grown(J.HashStr, n.members);
    var i := T.Find(g.order, key);
    if i < |g.order| {
      ReplacedSlot(g.order, i, value, g.level, n.serial);
    } else {
      InsertedSlot(g, T.Size(g.level), T.Pair(key, n.serial, value), n.serial);
      var m := Object(g.(order := T.Insert(J.HashStr, T.Size(g.level), g.order, T.Pair(key, n.serial, value))),
          n.serial);
      assert Occurs(m, c) == Occurs(Object(g, n.serial), c) + multiset{value}[c];
      assert c in multiset(Children(m));
    }
  }

  // ---------------------------------------------------------------- what a set changes

  lemma SetAllStarts(n: Node, order: seq<T.Pair<Text, Ref>>)
    requires n.Object?
    ensures SetAll(n, order[0..]) == SetAll(n, order)
  {
    assert order[0..] == order;
  }

  lemma SetAllStep(n: Node, order: seq<T.Pair<Text, Ref>>, i: nat)
    requires n.Object? && i < |order|
    ensures SetAll(n, order[i..]) == SetAll(SetNode(n, order[i].key, order[i].value), order[i + 1..])
  {
    assert order[i..][1..] == order[i + 1..];
  }

  lemma SetAllEnds(n: Node, order: seq<T.Pair<Text, Ref>>)
    requires n.Object?
    ensures SetAll(n, order[|order|..]) == n
  {
  }

  lemma UpdateReady(h: Heap, owned: multiset<Ref>, other: Ref, i: nat)
    requires Balanced(h, owned) && IsObject(h, other) && i < |h[other].node.members.order|
    ensures var v := h[other].node.members.order[i].value; Pointer(h, v) && v in ValuesIn(h[other].node.members.order)
  {
    var order := h[other].node.members.order;
    ValuesAt(order, i);
    assert order[i].value in Children(h[other].node);
    ChildIsLive(h, owned, other, order[i].value);
  }

  lemma RegularAfterSet(h: Heap, g: Heap, json: Ref, key: Text, value: Ref)
    requires IsObject(h, json) && Regular(h, json) && value != NULL
    requires Became(h, g, json, SetNode(h[json].node, key, value))
    ensures IsObject(g, json) && Regular(g, json)
  {
    SetNodeMap(h[json].node, key, value);
    if NULL in Children(g[json].node) {
      SetNodeChild(h[json].node, key, value, NULL);
    }
  }

  lemma BecameTwice(a: Heap, b: Heap, c: Heap, json: Ref)
    requires json < |a| == |b| == |c| && Became(a, b, json, b[json].node) && Became(b, c, json, c[json].node)
    ensures Became(a, c, json, c[json].node)
  {
    forall r: Ref | r < |c| && !c[r].node.Freed? && r != json
      ensures c[r].node == a[r].node && c[r].visited == a[r].visited
    {
      assert c[r].node == b[r].node;
    }
  }

  lemma SetNodeGet(n: Node, key: Text, value: Ref, k: Text)
    requires n.Object? && T.Valid(J.HashStr, n.members)
    ensures T.Get(SetNode(n, key, value).members, k) == if k == key then Some(value) else T.Get(n.members, k)
  {
    SetNodeMap(n, key, value);
    T.GetIsLookup(n.members, k);
    T.GetIsLookup(SetNode(n, key, value).members, k);
  }

  lemma SetNodeSize(n: Node, key: Text, value: Ref)
    requires n.Object? && T.Valid(J.HashStr, n.members) && T.Get(n.members, key).None?
    ensures |SetNode(n, key, value).members.order| == |n.members.order| + 1
  {
    hide T.Get, SetNode, T.MapOf, T.Keys, T.Valid, T.Distinct;
    SetNodeMap(n, key, value);
    T.GetIsLookup(n.members, key);
    T.ValidIsDistinct(J.HashStr, n.members);
    T.ValidIsDistinct(J.HashStr, SetNode(n, key, value).members);
    T.MapSize(n.members.order);
    T.MapSize(SetNode(n, key, value).members.order);
    var m := T.MapOf(n.members.order);
    assert m[key := value].Keys == m.Keys + {key};
  }

  // ---------------------------------------------------------------- neat heaps

  /** No slot holds a null pointer, and a hash table is one that the table operations built. */
  ghost predicate Neat(n: Node) {
    NULL !in Children(n) && (n.Object? ==> T.Valid(J.HashStr, n.members))
  }

  ghost predicate AllNeat(h: Heap) {
    forall q: Ref :: q < |h| ==> Neat(h[q].node)
  }

  lemma NeatAfter(before: Heap, after: Heap, json: Ref, node: Node)
    requires AllNeat(before) && Became(before, after, json, node) && Neat(node)
    ensures AllNeat(after)
  {
    hide Neat;
    FreedIsNeat();
    forall q: Ref | q < |after| ensures Neat(after[q].node) {
      if q != json && !after[q].node.Freed? {
        assert after[q].node == before[q].node;
      }
    }
  }

  lemma NeatSurvives(before: Heap, after: Heap)
    requires AllNeat(before) && Survives(before, after)
    ensures AllNeat(after)
  {
    hide Neat;
    FreedIsNeat();
    forall q: Ref | q < |after| ensures Neat(after[q].node) {
      if !after[q].node.Freed? {
        assert after[q].node == before[q].node;
      }
    }
  }

  lemma FreedIsNeat()
    ensures Neat(Freed)
  {
  }

  lemma NeatSet(n: Node, key: Text, value: Ref)
    requires n.Object? && Neat(n) && value != NULL
    ensures Neat(SetNode(n, key, value))
  {
    hide T.Valid, SetNode;
    SetNodeMap(n, key, value);
    if NULL in Children(SetNode(n, key, value)) {
      SetNodeChild(n, key, value, NULL);
    }
  }

  lemma NeatDel(n: Node, key: Text)
    requires n.Object? && Neat(n)
    ensures Neat(n.(members := T.Del(n.members, key)))
  {
    hide T.Valid, T.RemoveAt, ValuesIn;
    T.DelIsRemoval(J.HashStr, n.members, key);
    var i := T.Find(n.members.order, key);
    if i < |n.members.order| {
      RemovedSlot(n, i);
    }
  }

  lemma NeatEmptied(n: Node)
    ensures Neat(n) && (n.Array? || n.Object?) ==> Neat(Emptied(n))
  {
    if n.Object? {
      assert T.Buckets(J.HashStr, T.Size(n.members.level), Emptied(n).members.order) == [];
    }
  }

  lemma {:induction false} NeatSetAll(n: Node, order: seq<T.Pair<Text, Ref>>)
    requires n.Object? && Neat(n) && NULL !in ValuesIn(order)
    ensures Neat(SetAll(n, order))
    decreases |order|
  {
    hide Neat, SetNode;
    if order != [] {
      assert ValuesIn(order)[0] == order[0].value && ValuesIn(order)[1..] == ValuesIn(order[1..]);
      NeatSet(n, order[0].key, order[0].value);
      NeatSetAll(SetNode(n, order[0].key, order[0].value), order[1..]);
    }
  }
}
