/** `json_copy`: a new container that shares what the old one holds. */
module Copies {
  import opened Bytes
  import opened Containers
  import opened Heaps
  import opened Objects
  import opened Stores
  import J = Json
  import T = Tables

  const EMPTY: Node := Object(T.Table(0, []), 0)

  /** The cells of `before` are still there, counts apart. */
  ghost predicate Extends(before: Heap, after: Heap) {
    |before| <= |after| && forall q: Ref :: q < |before| ==> after[q] == before[q].(refcount := after[q].refcount)
  }

  /** `json_array_append`: the caller keeps its own reference. */
  method ArrayAppend(st: Store, json: Ref, value: Ref) returns (rc: int)
    requires st.Valid() && Pointer(st.cells, json) && Pointer(st.cells, value) && Room(st.cells, st.owned, 1)
    modifies st
    ensures st.Valid() && (rc == 0 || rc == -1) && (value != NULL ==> st.owned == old(st.owned))
    ensures rc == 0 <==> old(value != NULL && IsArray(st.cells, json) && json != value)
    ensures rc == 0 ==>
              |st.cells| == |old(st.cells)| && SameNodes(old(st.cells)[json := st.cells[json]], st.cells) &&
                  st.cells[json].node == Array(old(st.cells)[json].node.items + [value])
    ensures rc == 0 ==> Total(st) <= old(Total(st)) + 1
    ensures rc != 0 ==> Survives(old(st.cells), st.cells)
  {
    hide Balanced, Occurs, Slots, AllSlots;
    Incref(st, value);
    rc := ArrayAppendNew(st, json, value);
    assert value != NULL ==> old(st.owned) + multiset{value} - multiset{value} == old(st.owned);
  }

  /** `json_array_copy`. */
  method ArrayCopy(st: Store, json: Ref) returns (r: Ref)
    requires st.Valid() && IsArray(st.cells, json) && NULL !in st.cells[json].node.items
    requires Room(st.cells, st.owned, |st.cells[json].node.items| + 1)
    modifies st
    ensures st.Valid() && st.owned == old(st.owned) + multiset{r}
    ensures r == |old(st.cells)| && |st.cells| == r + 1 && Extends(old(st.cells), st.cells)
    ensures st.cells[r].node == old(st.cells)[json].node
  {
    hide Balanced, Occurs, Slots, AllSlots, Tight, References;
    ghost var before, items := st.cells, st.cells[json].node.items;
    ItemsAreOlder(st.cells, st.owned, json);
    assert Children(st.cells[json].node) == items;
    r := NewNode(st, Array([]));
    ghost var total := Total(st);
    var i := 0;
    while i < |st.cells[json].node.items|
      invariant st.Valid() && 0 <= i <= |items| && |st.cells| == r + 1 && Extends(before, st.cells)
      invariant st.owned == old(st.owned) + multiset{r} && Total(st) <= total + i
      invariant st.cells[r].node == Array(items[..i]) && st.cells[json].node == Array(items)
    {
      ItemIsPointer(st.cells, st.owned, json, i);
      ghost var now := st.cells;
      assert items[i] in items && items[i] != r;
      var _ := ArrayAppend(st, r, st.cells[json].node.items[i]);
      assert items[..i + 1] == items[..i] + [items[i]];
      ExtendsStep(before, now, st.cells, r);
      i := i + 1;
    }
    assert items[..i] == items;
  }

  /** What a container holds is older than a node that is still to come. */
  lemma ItemsAreOlder(h: Heap, owned: multiset<Ref>, json: Ref)
    requires Balanced(h, owned) && json < |h|
    ensures forall c: Ref :: c in Children(h[json].node) ==> c < |h|
  {
    forall c: Ref | c in Children(h[json].node) ensures c < |h| {
      ChildIsLive(h, owned, json, c);
    }
  }

  lemma ExtendsStep(before: Heap, now: Heap, next: Heap, r: Ref)
    requires Extends(before, now) && |before| == r < |now| && |next| == |now| && SameNodes(now[r := next[r]], next)
    ensures Extends(before, next)
  {
  }

  // ---------------------------------------------------------------- objects

  /** Where the loop of `json_object_copy` stands. */
  ghost predicate Copying(h: Heap, owned: multiset<Ref>, before: Heap, r: Ref, order: seq<T.Pair<Text, Ref>>, i: nat)
    requires i <= |order|
  {
    && |before| == r && |h| == r + 1 && Extends(before, h) && r in owned
    && IsObject(h, r) && Regular(h, r) && SetAll(h[r].node, order[i..]) == SetAll(EMPTY, order)
    && forall j | i <= j < |order| :: T.Get(h[r].node.members, order[j].key).None?
  }

  lemma CopyStep(now: Heap, next: Heap, owned: multiset<Ref>, before: Heap, r: Ref, order: seq<T.Pair<Text, Ref>>,
          i: nat)
    requires i < |order| && Copying(now, owned, before, r, order, i) && T.Distinct(order) && order[i].value != NULL
    requires |next| == |now| && SameNodes(now[r := next[r]], next) &&
              Became(now, next, r, SetNode(now[r].node, order[i].key, order[i].value))
    ensures Copying(next, owned, before, r, order, i + 1)
  {
    hide SetNode, SetAll, T.Valid, T.Get, ValuesIn;
    var p := order[i];
    ExtendsStep(before, now, next, r);
    RegularAfterSet(now, next, r, p.key, p.value);
    SetAllStep(now[r].node, order, i);
    forall j | i + 1 <= j < |order| ensures T.Get(next[r].node.members, order[j].key).None? {
      StillAbsent(now[r].node, p.key, p.value, order[j].key);
    }
  }

  lemma StillAbsent(n: Node, key: Text, value: Ref, k: Text)
    requires n.Object? && T.Valid(J.HashStr, n.members) && T.Get(n.members, k).None? && k != key
    ensures T.Get(SetNode(n, key, value).members, k).None?
  {
    SetNodeMap(n, key, value);
    T.GetIsLookup(n.members, k);
    T.GetIsLookup(SetNode(n, key, value).members, k);
  }

  lemma CopyReady(h: Heap, owned: multiset<Ref>, before: Heap, r: Ref, order: seq<T.Pair<Text, Ref>>, i: nat)
    requires i < |order| && Copying(h, owned, before, r, order, i)
    ensures IsObject(h, r) && T.Get(h[r].node.members, order[i].key).None?
  {
  }

  lemma RegularIsDistinct(h: Heap, r: Ref)
    requires IsObject(h, r) && Regular(h, r)
    ensures T.Distinct(h[r].node.members.order) && NULL !in Children(h[r].node)
  {
  }

  lemma CopyStarts(h: Heap, owned: multiset<Ref>, before: Heap, order: seq<T.Pair<Text, Ref>>)
    requires h == before + [Cell(1, false, EMPTY)] && |before| in owned
    ensures Copying(h, owned, before, |before|, order, 0)
  {
    assert order[0..] == order;
  }

  /** `json_object_copy`; the serials of the copy start anew, in list order. */
  method ObjectCopy(st: Store, json: Ref) returns (r: Ref)
    requires st.Valid() && IsObject(st.cells, json) && Regular(st.cells, json)
    requires Room(st.cells, st.owned, |st.cells[json].node.members.order| + 1)
    modifies st
    ensures st.Valid() && st.owned == old(st.owned) + multiset{r}
    ensures r == |old(st.cells)| && |st.cells| == r + 1 && Extends(old(st.cells), st.cells)
    ensures st.cells[r].node == SetAll(EMPTY, old(st.cells)[json].node.members.order)
  {
    hide Balanced, Closed, Occurs, Slots, AllSlots, Tight, References, T.Set, T.Valid, SetAll, Guarded, T.Get;
    ghost var before, order := st.cells, st.cells[json].node.members.order;
    ItemsAreOlder(st.cells, st.owned, json);
    RegularIsDistinct(st.cells, json);
    r := NewNode(st, EMPTY);
    CopyStarts(st.cells, st.owned, before, order);
    ghost var total := Total(st);
    var i := 0;
    while i < |st.cells[json].node.members.order|
      invariant st.Valid() && 0 <= i <= |order| && Copying(st.cells, st.owned, before, r, order, i)
      invariant st.owned == old(st.owned) + multiset{r} && Total(st) <= total + i
      invariant st.cells[json].node.members.order == order
    {
      var p := st.cells[json].node.members.order[i];
      ghost var now := st.cells;
      UpdateReady(st.cells, st.owned, json, i);
      assert p.value in Children(before[json].node);
      OwnedIsGuarded(st.cells, st.owned, r);
      CopyReady(st.cells, st.owned, before, r, order, i);
      var _ := ObjectSetNocheck(st, r, p.key, p.value, Everything(st.cells));
      CopyStep(now, st.cells, st.owned, before, r, order, i);
      i := i + 1;
    }
    SetAllEnds(st.cells[r].node, order);
  }

  /** The copy of an object denotes the same map. */
  lemma CopyIsSameMap(members: Members)
    requires T.Distinct(members.order)
    ensures T.MapOf(SetAll(EMPTY, members.order).members.order) == T.MapOf(members.order)
  {
    EmptyMap();
    T.EmptyIsValid<Text, Ref>(J.HashStr);
    hide SetAll, T.Valid, T.MapOf, T.Distinct;
    SetAllIsUnion(EMPTY, members.order);
    assert map[] + T.MapOf(members.order) == T.MapOf(members.order);
  }

  predicate IsScalar(n: Node) { n.Str? || n.Integer? || n.Real? }

  /**
   `json_copy`; the singletons are returned as they are, and since they are not counted it makes no
   difference that the model takes a reference to them.
   */
  method Copy(st: Store, json: Ref) returns (r: Ref)
    requires st.Valid() && Pointer(st.cells, json) && Regular(st.cells, json)
    requires IsArray(st.cells, json) ==> NULL !in st.cells[json].node.items
    requires Room(st.cells, st.owned, if json == NULL then 1 else |Children(st.cells[json].node)| + 1)
    modifies st
    ensures st.Valid() && st.owned == old(st.owned) + multiset{r} && Extends(old(st.cells), st.cells) && r < |st.cells|
    ensures |st.cells| == if r == |old(st.cells)| then r + 1 else |old(st.cells)|
    ensures old(IsArray(st.cells, json) || (json < |st.cells| && IsScalar(st.cells[json].node))) ==>
              r == |old(st.cells)| && st.cells[r].node == old(st.cells)[json].node
    ensures old(IsObject(st.cells, json)) ==>
              r == |old(st.cells)| && st.cells[r].node == SetAll(EMPTY, old(st.cells)[json].node.members.order)
    ensures (old(!IsArray(st.cells, json) && !IsObject(st.cells, json)) &&
             old(json < |st.cells| ==> !IsScalar(st.cells[json].node))) ==> r == json
  {
    hide Balanced, Closed, Occurs, Slots, AllSlots, Tight, References, SetAll;
    if json == NULL {
      r := NULL;
      Incref(st, r);
    } else if IsObject(st.cells, json) {
      ObjectWidth(st.cells[json].node);
      r := ObjectCopy(st, json);
    } else if IsArray(st.cells, json) {
      r := ArrayCopy(st, json);
    } else if IsScalar(st.cells[json].node) {
      r := NewNode(st, st.cells[json].node);
    } else {
      r := json;
      Incref(st, json);
    }
  }

  lemma ObjectWidth(n: Node)
    requires n.Object?
    ensures |Children(n)| == |n.members.order|
  {
  }
}
