/** The container operations of `value.c` on the counted heap: what each does to slots, counts and owners. */
module Containers {
  import opened Bytes
  import opened Heaps
  import opened Stores
  import J = Json
  import T = Tables
  import Utf8

  /** There is room for `n` more references: their number never reaches SIZE_MAX. */
  ghost predicate Room(h: Heap, owned: multiset<Ref>, n: nat) {
    References(h, owned) + n < SIZE_MAX
  }

  /**
   The container `json` survives the loss of what it holds: a caller owns it, or it is not among the
   nodes `s` that its slots lead to.
   */
  ghost predicate Guarded(h: Heap, owned: multiset<Ref>, json: Ref, s: set<Ref>) {
    && json < |h| && Closed(h, s) && (json in owned || json !in s)
    && forall c: Ref :: c in Children(h[json].node) ==> c in s
  }

  /**
   The container `json` survives the loss of `c`: a caller owns `c` and keeps it alive, or a caller owns
   `json`, or it is not among the nodes `s` that `c` leads to.
   */
  ghost predicate Spares(h: Heap, owned: multiset<Ref>, json: Ref, c: Ref, s: set<Ref>) {
    json < |h| && (c in owned || (Closed(h, s) && c in s && (json in owned || json !in s)))
  }

  /** Nodes outside `s`, other than `json`, keep their contents. */
  ghost predicate Outside(before: Heap, after: Heap, json: Ref, s: set<Ref>) {
    |after| == |before| &&
    forall q: Ref :: q < |after| && q !in s && q != json ==> after[q].node == before[q].node
  }

  predicate Holder(n: Node) { n.Array? || n.Object? }

  predicate IsArray(h: Heap, r: Ref) { r < |h| && h[r].node.Array? }

  predicate IsObject(h: Heap, r: Ref) { r < |h| && h[r].node.Object? }

  /** A pointer that may be handed to an operation: null, or to a node that exists. */
  predicate Pointer(h: Heap, r: Ref) { r == NULL || Live(h, r) }

  predicate InHeap(h: Heap, r: Ref) { r < |h| }

  ghost function Everything(h: Heap): set<Ref> {
    set r: Ref | 0 <= r < |h| && InHeap(h, r)
  }

  lemma EverythingIsClosed(h: Heap, owned: multiset<Ref>)
    requires Balanced(h, owned)
    ensures Closed(h, Everything(h))
  {
    forall r: Ref, c: Ref | r in Everything(h) && r < |h| && c in Children(h[r].node) ensures c in Everything(h) {
      ChildIsLive(h, owned, r, c);
    }
  }

  /** In a heap without cycles every container is guarded, by what ranks below it. */
  lemma AcyclicIsGuarded(h: Heap, owned: multiset<Ref>, rank: Ref -> nat, json: Ref)
    requires Balanced(h, owned) && json < |h|
    requires forall r: Ref, c: Ref :: r < |h| && c in Children(h[r].node) ==> rank(c) < rank(r)
    ensures Guarded(h, owned, json, set r: Ref | 0 <= r < |h| && rank(r) < rank(json))
  {
    var s := set r: Ref | 0 <= r < |h| && rank(r) < rank(json);
    forall r: Ref, c: Ref | r < |h| && c in Children(h[r].node) ensures c < |h| {
      ChildIsLive(h, owned, r, c);
    }
  }

  lemma OwnedIsGuarded(h: Heap, owned: multiset<Ref>, json: Ref)
    requires Balanced(h, owned) && json in owned
    ensures Guarded(h, owned, json, Everything(h))
  {
    EverythingIsClosed(h, owned);
    OwnerLives(h, owned, json);
    assert BalancedAt(h, owned, NULL);
    forall c: Ref | c in Children(h[json].node) ensures c in Everything(h) {
      ChildIsLive(h, owned, json, c);
    }
  }

  // ---------------------------------------------------------------- references and constructors

  /** `json_incref`. */
  method Incref(st: Store, r: Ref)
    requires st.Valid() && Pointer(st.cells, r) && Room(st.cells, st.owned, 1)
    modifies st
    ensures st.Valid() && st.owned == old(st.owned) + multiset{r}
    ensures |st.cells| == |old(st.cells)| && forall q: Ref :: q < |st.cells| ==>
              st.cells[q] == old(st.cells)[q].(refcount := st.cells[q].refcount)
    ensures References(st.cells, st.owned) == old(References(st.cells, st.owned)) + 1
  {
    hide Balanced, Occurs, Slots, AllSlots;
    if r == NULL || st.cells[r].refcount == SIZE_MAX {
      AddUncounted(st.cells, st.owned, r);
    } else {
      var count := st.cells[r].refcount + 1;
      HoldsAtMost(st.cells, st.owned, r);
      CountReference(st.cells, st.owned, r, count, st.owned + multiset{r});
      st.cells := st.cells[r := st.cells[r].(refcount := count)];
    }
    st.owned := st.owned + multiset{r};
  }

  /** `json_decref` by a caller that owns a reference. */
  method Decref(st: Store, r: Ref)
    requires st.Valid() && (r == NULL || r in st.owned)
    modifies st
    ensures st.Valid() && st.owned == old(st.owned) - multiset{r} && Survives(old(st.cells), st.cells)
    ensures References(st.cells, st.owned) <= old(References(st.cells, st.owned))
  {
    hide Balanced, Closed, Occurs, Slots, AllSlots;
    EverythingIsClosed(st.cells, st.owned);
    OwnerLives(st.cells, st.owned, r);
    st.Decref(r, {}, Everything(st.cells));
  }

  /** `json_object`, `json_array`, `json_string`, `json_integer`: a new node with one reference. */
  method NewNode(st: Store, node: Node) returns (r: Ref)
    requires st.Valid() && !node.Freed? && !Singleton(node) && Children(node) == []
    modifies st
    ensures st.Valid() && st.cells == old(st.cells) + [Cell(1, false, node)] && r == |old(st.cells)|
    ensures st.owned == old(st.owned) + multiset{r}
    ensures References(st.cells, st.owned) == old(References(st.cells, st.owned)) + 1
  {
    hide Balanced, Occurs, Slots, AllSlots, Children;
    NewCell(st.cells, st.owned, node);
    r := |st.cells|;
    st.cells := st.cells + [Cell(1, false, node)];
    st.owned := st.owned + multiset{r};
  }

  lemma AddUncounted(h: Heap, owned: multiset<Ref>, r: Ref)
    requires Balanced(h, owned) && (r == NULL || (Live(h, r) && h[r].refcount == SIZE_MAX))
    ensures Balanced(h, owned + multiset{r}) && References(h, owned + multiset{r}) == References(h, owned) + 1
  {
    forall q: Ref ensures BalancedAt(h, owned + multiset{r}, q) {
      assert BalancedAt(h, owned, q);
    }
  }

  lemma HoldsAtMost(h: Heap, owned: multiset<Ref>, r: Ref)
    requires Balanced(h, owned) && Counted(h, r) && r != NULL
    ensures h[r].refcount <= References(h, owned)
  {
    assert BalancedAt(h, owned, r);
    SlotsAtMost(h, r);
    assert owned[r] <= |owned| by {
      assert owned == owned[r := 0] + multiset{}[r := owned[r]];
    }
  }

  lemma {:induction false} SlotsAtMost(h: Heap, r: Ref)
    ensures Slots(h, r) <= AllSlots(h)
  {
    if h != [] {
      SlotsAtMost(h[..|h| - 1], r);
      var s := multiset(Children(h[|h| - 1].node));
      assert s == s[r := 0] + multiset{}[r := s[r]];
      assert |s| == |Children(h[|h| - 1].node)|;
    }
  }

  // ---------------------------------------------------------------- slots

  ghost function Total(st: Store): nat
    reads st
  {
    References(st.cells, st.owned)
  }

  ghost function Width(st: Store, r: Ref): nat
    requires r < |st.cells|
    reads st
  {
    |Children(st.cells[r].node)|
  }

  /** Slots of `r` are taken out and handed to the caller. */
  method TakeSlot(st: Store, r: Ref, node: Node, child: Ref, ghost s: set<Ref>)
    requires st.Valid() && (IsArray(st.cells, r) || IsObject(st.cells, r)) && Holder(node) && Closed(st.cells, s)
    requires forall q: Ref :: q != NULL ==> Occurs(node, q) + multiset{child}[q] == Occurs(st.cells[r].node, q)
    requires forall q: Ref :: q in Children(node) ==> q == NULL || q in Children(st.cells[r].node)
    modifies st
    ensures st.Valid() && st.owned == old(st.owned) + multiset{child} && Closed(st.cells, s + {NULL})
    ensures st.cells == old(st.cells)[r := old(st.cells)[r].(node := node)]
    ensures Total(st) + old(Width(st, r)) == old(Total(st)) + Width(st, r) + 1
  {
    hide Balanced, Occurs, Slots, AllSlots;
    MoveReferences(st.cells, st.owned, r, node, st.owned + multiset{child});
    st.cells := st.cells[r := st.cells[r].(node := node)];
    st.owned := st.owned + multiset{child};
    assert st.cells[NULL].node.Freed?;
  }

  /** A slot of `r` takes over a reference that the caller owned. */
  method FillSlot(st: Store, r: Ref, node: Node, value: Ref)
    requires st.Valid() && (IsArray(st.cells, r) || IsObject(st.cells, r)) && Holder(node) && value in st.owned
    requires forall q: Ref :: q != NULL ==> Occurs(node, q) == Occurs(st.cells[r].node, q) + multiset{value}[q]
    modifies st
    ensures st.Valid() && st.owned == old(st.owned) - multiset{value}
    ensures st.cells == old(st.cells)[r := old(st.cells)[r].(node := node)]
    ensures Total(st) + old(Width(st, r)) + 1 == old(Total(st)) + Width(st, r)
  {
    hide Balanced, Occurs, Slots, AllSlots;
    MoveReferences(st.cells, st.owned, r, node, st.owned - multiset{value});
    st.cells := st.cells[r := st.cells[r].(node := node)];
    st.owned := st.owned - multiset{value};
  }

  /** `json` now holds `node`; what else survives keeps its contents. */
  ghost predicate Became(before: Heap, after: Heap, json: Ref, node: Node) {
    && json < |before| == |after| && after[json].node == node && after[json].visited == before[json].visited
    && Survives(before[json := after[json]], after)
  }

  /**
   A slot is released while its node stays where it is: the old reference is dropped, and `node`, the
   contents without it, is still there afterwards.
   */
  method DropSlot(st: Store, json: Ref, node: Node, child: Ref, ghost s: set<Ref>)
    requires st.Valid() && (IsArray(st.cells, json) || IsObject(st.cells, json)) && Holder(node)
    requires Spares(st.cells, st.owned, json, child, s)
    requires forall q: Ref :: q != NULL ==> Occurs(node, q) + multiset{child}[q] == Occurs(st.cells[json].node, q)
    requires forall q: Ref :: q in Children(node) ==> q == NULL || q in Children(st.cells[json].node)
    modifies st
    ensures st.Valid() && st.owned == old(st.owned) && Became(old(st.cells), st.cells, json, node)
    ensures Outside(old(st.cells), st.cells, json, s)
    ensures child in st.owned ==> SameNodes(old(st.cells)[json := st.cells[json]], st.cells)
    ensures Total(st) + old(Width(st, json)) <= old(Total(st)) + Width(st, json) + 1
  {
    hide Balanced, Closed, Occurs, Slots, AllSlots, Children;
    hide Became, Outside, SameNodes, Survives, Spares, Everything, Based, Live;
    ghost var before, owned := st.cells, st.owned;
    ghost var t := Reach(before, owned, child, s);
    ReachIsClosed(before, owned, json, child, s);
    TakeSlot(st, json, node, child, t);
    ghost var taken := st.cells;
    st.Decref(child, {}, t + {NULL});
    assert owned + multiset{child} - multiset{child} == owned;
    Dropped(before, owned, json, node, child, s, taken, st.cells);
  }

  /** What releasing `child` may touch. */
  ghost function Reach(h: Heap, owned: multiset<Ref>, child: Ref, s: set<Ref>): set<Ref> {
    if child in owned then Everything(h) else s
  }

  lemma ReachIsClosed(h: Heap, owned: multiset<Ref>, json: Ref, child: Ref, s: set<Ref>)
    requires Balanced(h, owned) && Spares(h, owned, json, child, s)
    ensures Closed(h, Reach(h, owned, child, s)) && child in Reach(h, owned, child, s)
  {
    EverythingIsClosed(h, owned);
    OwnerLives(h, owned, child);
    assert BalancedAt(h, owned, NULL);
  }

  lemma Dropped(before: Heap, owned: multiset<Ref>, json: Ref, node: Node, child: Ref, s: set<Ref>, taken: Heap,
          after: Heap)
    requires Based(before) && (IsArray(before, json) || IsObject(before, json)) && Spares(before, owned, json, child, s)
    requires Holder(node) && taken == before[json := before[json].(node := node)] && Survives(taken, after)
    requires forall q: Ref :: q < |after| && q !in Reach(before, owned, child, s) + {NULL} ==> after[q] == taken[q]
    requires child in owned ==> SameNodes(taken, after)
    requires Based(after) && Balanced(after, owned)
    ensures Became(before, after, json, node) && Outside(before, after, json, s) && after[json].node == node
    ensures child in owned ==> SameNodes(before[json := after[json]], after)
  {
    hide Balanced, Closed, Children;
    if child !in owned {
      OwnerLives(after, owned, json);
    }
  }

  // ---------------------------------------------------------------- arrays

  /** The old item is released before the new one is stored. */
  method ReplaceItem(st: Store, json: Ref, index: nat, value: Ref, ghost s: set<Ref>)
    requires st.Valid() && IsArray(st.cells, json) && index < |st.cells[json].node.items| && value in st.owned
    requires Guarded(st.cells, st.owned, json, s)
    modifies st
    ensures st.Valid() && st.owned == old(st.owned) - multiset{value}
    ensures Became(old(st.cells), st.cells, json, Array(old(st.cells)[json].node.items[index := value]))
  {
    hide Balanced, Closed, Occurs, Slots, AllSlots, Children;
    var items := st.cells[json].node.items;
    ReplacedItem(items, index, NULL);
    DropSlot(st, json, Array(items[index := NULL]), items[index], s);
    ReplacedItem(items[index := NULL], index, value);
    FillSlot(st, json, Array(items[index := NULL][index := value]), value);
    assert items[index := NULL][index := value] == items[index := value];
  }

  /** `json_array_set_new`. */
  method ArraySetNew(st: Store, json: Ref, index: nat, value: Ref, ghost s: set<Ref>) returns (rc: int)
    requires st.Valid() && Pointer(st.cells, json) && (value == NULL || value in st.owned)
    requires Guarded(st.cells, st.owned, json, s)
    modifies st
    ensures st.Valid() && (rc == 0 || rc == -1)
    ensures rc == 0 <==>
              old(value != NULL && IsArray(st.cells, json) && json != value && index < |st.cells[json].node.items|)
    ensures st.owned == if value == NULL then old(st.owned) else old(st.owned) - multiset{value}
    ensures rc == 0 ==> Became(old(st.cells), st.cells, json, Array(old(st.cells[json].node.items)[index := value]))
    ensures rc != 0 ==> Survives(old(st.cells), st.cells)
  {
    hide Balanced, Closed, Occurs, Slots, AllSlots, Children;
    if value == NULL {
      return -1;
    }
    if !IsArray(st.cells, json) || json == value {
      Decref(st, value);
      return -1;
    }
    var items := st.cells[json].node.items;
    if index >= |items| {
      Decref(st, value);
      return -1;
    }
    ReplaceItem(st, json, index, value, s);
    return 0;
  }

  lemma ReplacedItem(items: seq<Ref>, i: nat, value: Ref)
    requires i < |items|
    ensures forall q: Ref ::
              Occurs(Array(items[i := value]), q) + multiset{items[i]}[q] ==
                  Occurs(Array(items), q) + multiset{value}[q]
    ensures forall q: Ref :: q in Children(Array(items[i := value])) ==> q == value || q in Children(Array(items))
    ensures items[i] in Children(Array(items))
  {
  }

  lemma InsertedItem(items: seq<Ref>, i: nat, value: Ref)
    requires i <= |items|
    ensures forall q: Ref ::
              Occurs(Array(T.InsertAt(items, i, value)), q) == Occurs(Array(items), q) + multiset{value}[q]
    ensures |Children(Array(T.InsertAt(items, i, value)))| == |Children(Array(items))| + 1
  {
    T.InsertedBag(items, i, value);
  }

  lemma RemovedItem(items: seq<Ref>, i: nat)
    requires i < |items|
    ensures forall q: Ref :: Occurs(Array(T.RemoveAt(items, i)), q) + multiset{items[i]}[q] == Occurs(Array(items), q)
    ensures forall q: Ref :: q in Children(Array(T.RemoveAt(items, i))) ==> q in Children(Array(items))
    ensures items[i] in Children(Array(items))
  {
    T.RemovedBag(items, i);
  }

  /** `json_array_insert_new`. */
  method ArrayInsertNew(st: Store, json: Ref, index: nat, value: Ref) returns (rc: int)
    requires st.Valid() && Pointer(st.cells, json) && (value == NULL || value in st.owned)
    modifies st
    ensures st.Valid() && (rc == 0 || rc == -1)
    ensures rc == 0 <==>
              old(value != NULL && IsArray(st.cells, json) && json != value && index <= |st.cells[json].node.items|)
    ensures st.owned == if value == NULL then old(st.owned) else old(st.owned) - multiset{value}
    ensures rc == 0 ==>
              var items := T.InsertAt(old(st.cells)[json].node.items, index, value);
              st.cells == old(st.cells)[json := old(st.cells)[json].(node := Array(items))]
    ensures rc != 0 ==> Survives(old(st.cells), st.cells)
  {
    hide Balanced, Closed, Occurs, Slots, AllSlots, Children, T.InsertAt;
    if value == NULL {
      return -1;
    }
    if !IsArray(st.cells, json) || json == value {
      Decref(st, value);
      return -1;
    }
    var items := st.cells[json].node.items;
    if index > |items| {
      Decref(st, value);
      return -1;
    }
    InsertedItem(items, index, value);
    FillSlot(st, json, Array(T.InsertAt(items, index, value)), value);
    return 0;
  }

  /** `json_array_append_new`. */
  method ArrayAppendNew(st: Store, json: Ref, value: Ref) returns (rc: int)
    requires st.Valid() && Pointer(st.cells, json) && (value == NULL || value in st.owned)
    modifies st
    ensures st.Valid() && (rc == 0 || rc == -1)
    ensures rc == 0 <==> old(value != NULL && IsArray(st.cells, json) && json != value)
    ensures st.owned == if value == NULL then old(st.owned) else old(st.owned) - multiset{value}
    ensures rc == 0 ==>
              st.cells == old(st.cells)[json := old(st.cells)[json].(node := Array(old(st.cells)[json].node.items +
                  [value]))]
    ensures Total(st) <= old(Total(st))
    ensures rc != 0 ==> Survives(old(st.cells), st.cells)
  {
    hide Balanced, Closed, Occurs, Slots, AllSlots, Children;
    if value == NULL {
      return -1;
    }
    if !IsArray(st.cells, json) || json == value {
      Decref(st, value);
      return -1;
    }
    var items := st.cells[json].node.items;
    InsertedItem(items, |items|, value);
    assert T.InsertAt(items, |items|, value) == items + [value];
    FillSlot(st, json, Array(items + [value]), value);
    return 0;
  }

  /** `json_array_remove`. */
  method ArrayRemove(st: Store, json: Ref, index: nat, ghost s: set<Ref>) returns (rc: int)
    requires st.Valid() && Pointer(st.cells, json) && Guarded(st.cells, st.owned, json, s)
    modifies st
    ensures st.Valid() && st.owned == old(st.owned) && (rc == 0 || rc == -1)
    ensures rc == 0 <==> old(IsArray(st.cells, json) && index < |st.cells[json].node.items|)
    ensures rc == 0 ==> Became(old(st.cells), st.cells, json, Array(T.RemoveAt(old(st.cells[json].node.items), index)))
    ensures rc != 0 ==> st.cells == old(st.cells)
  {
    hide Balanced, Closed, Occurs, Slots, AllSlots, Children;
    if !IsArray(st.cells, json) {
      return -1;
    }
    var items := st.cells[json].node.items;
    if index >= |items| {
      return -1;
    }
    ReplacedItem(items, index, NULL);
    DropSlot(st, json, Array(items[index := NULL]), items[index], s);
    var node := Array(T.RemoveAt(items, index));
    forall q: Ref | q != NULL ensures Occurs(node, q) == Occurs(st.cells[json].node, q) {
      ClosedUp(items, index, q);
    }
    MoveNull(st, json, node);
    return 0;
  }

  lemma ClosedUp(items: seq<Ref>, i: nat, q: Ref)
    requires i < |items| && q != NULL
    ensures Occurs(Array(T.RemoveAt(items, i)), q) == Occurs(Array(items[i := NULL]), q)
  {
    RemovedItem(items, i);
    ReplacedItem(items, i, NULL);
  }

  /** The emptied slot is closed up. */
  method MoveNull(st: Store, r: Ref, node: Node)
    requires st.Valid() && (IsArray(st.cells, r) || IsObject(st.cells, r)) && Holder(node)
    requires forall q: Ref :: q != NULL ==> Occurs(node, q) == Occurs(st.cells[r].node, q)
    modifies st
    ensures st.Valid() && st.owned == old(st.owned)
    ensures st.cells == old(st.cells)[r := old(st.cells)[r].(node := node)]
    ensures Total(st) + old(Width(st, r)) == old(Total(st)) + Width(st, r)
  {
    hide Balanced, Occurs, Slots, AllSlots;
    MoveReferences(st.cells, st.owned, r, node, st.owned);
    st.cells := st.cells[r := st.cells[r].(node := node)];
  }

  /** `json_array_clear`. */
  method ArrayClear(st: Store, json: Ref, ghost s: set<Ref>) returns (rc: int)
    requires st.Valid() && Pointer(st.cells, json) && Guarded(st.cells, st.owned, json, s)
    modifies st
    ensures st.Valid() && st.owned == old(st.owned) && (rc == 0 <==> old(IsArray(st.cells, json))) &&
              (rc == 0 || rc == -1)
    ensures rc == 0 ==>
              |st.cells| == |old(st.cells)| && st.cells[json].node == Array([]) &&
                  Survives(old(st.cells)[json := st.cells[json]], st.cells)
    ensures rc != 0 ==> st.cells == old(st.cells)
  {
    hide Balanced, Closed, Occurs, Slots, AllSlots, Children;
    if !IsArray(st.cells, json) {
      return -1;
    }
    st.ReleaseSlots(json, {}, s);
    return 0;
  }

  /** `json_array_extend`; an array may extend itself. */
  method ArrayExtend(st: Store, json: Ref, other: Ref) returns (rc: int)
    requires st.Valid() && Pointer(st.cells, json) && Pointer(st.cells, other)
    requires IsArray(st.cells, other) ==> Room(st.cells, st.owned, |st.cells[other].node.items|)
    modifies st
    ensures st.Valid() && st.owned == old(st.owned) && (rc == 0 || rc == -1)
    ensures rc == 0 <==> old(IsArray(st.cells, json) && IsArray(st.cells, other))
    ensures rc == 0 ==> |st.cells| == |old(st.cells)| && forall q: Ref :: q < |st.cells| ==>
              st.cells[q].node ==
                  (if q == json then Array(old(st.cells[json].node.items + st.cells[other].node.items))
                      else old(st.cells)[q].node)
    ensures rc != 0 ==> st.cells == old(st.cells)
  {
    hide Balanced, Closed, Occurs, Slots, AllSlots, Children;
    if !IsArray(st.cells, json) || !IsArray(st.cells, other) {
      return -1;
    }
    ghost var added := st.cells[other].node.items;
    ghost var owners := st.owned;
    IncrefItems(st, other);
    ExtraOwned(owners, added);
    FillSlots(st, json, st.cells[json].node.items, st.cells[other].node.items);
    return 0;
  }

  lemma ExtraOwned(owned: multiset<Ref>, s: seq<Ref>)
    ensures multiset(s) <= owned + multiset(s) && owned + multiset(s) - multiset(s) == owned
  {
  }

  /** The loop of `json_array_extend` that takes a reference to each item. */
  method IncrefItems(st: Store, other: Ref)
    requires st.Valid() && IsArray(st.cells, other) && Room(st.cells, st.owned, |st.cells[other].node.items|)
    modifies st
    ensures st.Valid() && SameNodes(old(st.cells), st.cells)
    ensures st.owned == old(st.owned) + multiset(old(st.cells)[other].node.items)
  {
    hide Balanced, Closed, Occurs, Slots, AllSlots, Children, Tight, References, SameNodes;
    ghost var before := st.cells;
    ghost var added := st.cells[other].node.items;
    SameNodesStep(before, before, st.cells);
    var i := 0;
    while i < |st.cells[other].node.items|
      invariant st.Valid() && SameNodes(before, st.cells) && IsArray(st.cells, other) &&
                st.cells[other].node.items == added
      invariant 0 <= i <= |added| && st.owned == old(st.owned) + multiset(added[..i])
      invariant References(st.cells, st.owned) + |added| - i < SIZE_MAX
    {
      ItemIsPointer(st.cells, st.owned, other, i);
      ghost var now := st.cells;
      Incref(st, st.cells[other].node.items[i]);
      SameNodesStep(before, now, st.cells);
      OneMore(old(st.owned), added, i);
      i := i + 1;
    }
    assert added[..i] == added;
  }

  lemma SameNodesStep(a: Heap, b: Heap, c: Heap)
    requires a == b || SameNodes(a, b)
    requires b == c || (|c| == |b| && forall q: Ref :: q < |c| ==> c[q] == b[q].(refcount := c[q].refcount))
    ensures SameNodes(a, c)
  {
  }

  lemma OneMore(owned: multiset<Ref>, s: seq<Ref>, i: nat)
    requires i < |s|
    ensures owned + multiset(s[..i]) + multiset{s[i]} == owned + multiset(s[..i + 1])
  {
    assert s[..i + 1] == s[..i] + [s[i]];
  }

  lemma ItemIsPointer(h: Heap, owned: multiset<Ref>, r: Ref, i: nat)
    requires Balanced(h, owned) && IsArray(h, r) && i < |h[r].node.items|
    ensures Pointer(h, h[r].node.items[i])
  {
    assert h[r].node.items[i] in Children(h[r].node);
    ChildIsLive(h, owned, r, h[r].node.items[i]);
  }

  method FillSlots(st: Store, json: Ref, items: seq<Ref>, added: seq<Ref>)
    requires st.Valid() && IsArray(st.cells, json) && items == st.cells[json].node.items && multiset(added) <= st.owned
    modifies st
    ensures st.Valid() && st.owned == old(st.owned) - multiset(added)
    ensures st.cells == old(st.cells)[json := old(st.cells)[json].(node := Array(items + added))]
  {
    hide Balanced, Occurs, Slots, AllSlots, Children;
    ExtendedItems(items, added, st.owned);
    MoveReferences(st.cells, st.owned, json, Array(items + added), st.owned - multiset(added));
    st.cells := st.cells[json := st.cells[json].(node := Array(items + added))];
    st.owned := st.owned - multiset(added);
  }

  lemma ExtendedItems(items: seq<Ref>, added: seq<Ref>, owned: multiset<Ref>)
    requires multiset(added) <= owned
    ensures forall q: Ref ::
              Occurs(Array(items + added), q) + (owned - multiset(added))[q] == Occurs(Array(items), q) + owned[q]
  {
    assert multiset(items + added) == multiset(items) + multiset(added);
  }
}
