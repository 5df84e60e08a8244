/**
 Runs of operations on the counted heap.  Each operation needs a heap in which slots lead to nodes and
 hash tables are regular, and leaves such a heap, so that this holds over every run.
 */
module Runs {
  import opened Bytes
  import opened Containers
  import opened Copies
  import opened DeepCopies
  import opened Graphs
  import opened Heaps
  import opened Objects
  import opened Stores
  import opened Updates
  import J = Json
  import T = Tables

  datatype Op =
    | Incref(r: Ref)
    | Decref(r: Ref)
    | New(node: Node)
    | ArraySet(json: Ref, index: nat, value: Ref)
    | ArrayAppend(json: Ref, value: Ref)
    | ArrayInsert(json: Ref, index: nat, value: Ref)
    | ArrayRemove(json: Ref, index: nat)
    | ArrayClear(json: Ref)
    | ArrayExtend(json: Ref, other: Ref)
    | ObjectSet(json: Ref, key: Option<Text>, value: Ref)
    | ObjectDel(json: Ref, name: Text)
    | ObjectClear(json: Ref)
    | ObjectUpdate(json: Ref, other: Ref)
    | Copy(json: Ref)
    | DeepCopy(json: Ref)

  /** A pointer that the operation takes over: null, or a reference that the caller owns. */
  predicate Given(owned: multiset<Ref>, value: Ref) { value == NULL || value in owned }

  /** What the caller of an operation has to see to; nothing of it is about the hash tables. */
  ghost predicate Allowed(h: Heap, owned: multiset<Ref>, op: Op, s: set<Ref>) {
    match op
    case Incref(r) => Pointer(h, r) && Room(h, owned, 1)
    case Decref(r) => Given(owned, r)
    case New(node) => node == Array([]) || node == EMPTY || IsScalar(node)
    case ArraySet(json, _, value) => Pointer(h, json) && Given(owned, value) && Guarded(h, owned, json, s)
    case ArrayAppend(json, value) => Pointer(h, json) && Given(owned, value)
    case ArrayInsert(json, _, value) => Pointer(h, json) && Given(owned, value)
    case ArrayRemove(json, _) => Pointer(h, json) && Guarded(h, owned, json, s)
    case ArrayClear(json) => Pointer(h, json) && Guarded(h, owned, json, s)
    case ArrayExtend(json, other) =>
      Pointer(h, json) && Pointer(h, other) && (IsArray(h, other) ==> Room(h, owned, |h[other].node.items|))
    case ObjectSet(json, key, value) =>
      Pointer(h, json) && Given(owned, value) && (key.Some? ==> SparesAt(h, owned, json, key.value, s))
    case ObjectDel(json, _) => Pointer(h, json) && Guarded(h, owned, json, s)
    case ObjectClear(json) => Pointer(h, json) && Guarded(h, owned, json, s)
    case ObjectUpdate(json, other) =>
      && Pointer(h, json) && Pointer(h, other)
      && (IsObject(h, other) ==> Room(h, owned, |h[other].node.members.order|))
      && (if json == other then CanGrow(h, json) else Updatable(h, owned, json, other, s))
    case Copy(json) => Pointer(h, json) && Room(h, owned, if json == NULL then 1 else |Children(h[json].node)| + 1)
    case DeepCopy(json) => Live(h, json) && !CycleReachable(h, json)
  }

  // ---------------------------------------------------------------- neat heaps are tidy

  lemma TidyIsNeat(h: Heap, owned: multiset<Ref>)
    requires Balanced(h, owned) && Based(h)
    ensures Tidy(h) <==> AllNeat(h)
  {
    hide Balanced;
    if Tidy(h) {
      forall q: Ref | q < |h| ensures Neat(h[q].node) {
        assert Regular(h, q) && !Live(h, NULL);
        assert NULL !in Children(h[q].node);
      }
    }
    if AllNeat(h) {
      forall q: Ref | Live(h, q)
        ensures forall c: Ref :: c in Children(h[q].node) ==> Live(h, c)
        ensures h[q].node.Object? ==> T.Distinct(h[q].node.members.order)
      {
        assert Neat(h[q].node);
        forall c: Ref | c in Children(h[q].node) ensures Live(h, c) {
          ChildIsLive(h, owned, q, c);
        }
      }
      forall q: Ref | q < |h| ensures Regular(h, q) {
        assert Neat(h[q].node);
      }
    }
  }

  lemma TidyNode(h: Heap, owned: multiset<Ref>, q: Ref)
    requires Balanced(h, owned) && Based(h) && Tidy(h) && q < |h|
    ensures AllNeat(h) && Neat(h[q].node) && Regular(h, q)
  {
    TidyIsNeat(h, owned);
  }

  lemma PointerIsThere(h: Heap, r: Ref)
    requires Based(h) && Pointer(h, r)
    ensures r < |h|
  {
  }

  // ---------------------------------------------------------------- single operations

  method SetItem(st: Store, json: Ref, index: nat, value: Ref, ghost s: set<Ref>)
    requires st.Valid() && Tidy(st.cells) && Pointer(st.cells, json) && Given(st.owned, value)
    requires Guarded(st.cells, st.owned, json, s)
    modifies st
    ensures st.Valid() && Tidy(st.cells)
  {
    hide Balanced, Based, Tight, Tidy, AllNeat, Became, Survives, Closed, Neat;
    ghost var h := st.cells;
    TidyIsNeat(st.cells, st.owned);
    var rc := ArraySetNew(st, json, index, value, s);
    if rc == 0 {
      NeatItems(h, json, index, value);
      NeatAfter(h, st.cells, json, Array(h[json].node.items[index := value]));
    } else {
      NeatSurvives(h, st.cells);
    }
    TidyIsNeat(st.cells, st.owned);
  }

  /** Items that are not null stay so under the operations on arrays. */
  lemma NeatItems(h: Heap, json: Ref, i: nat, value: Ref)
    requires AllNeat(h) && IsArray(h, json) && value != NULL
    ensures var items := h[json].node.items;
            && Neat(Array(items + [value])) && Neat(Array([]))
            && (i < |items| ==> Neat(Array(items[i := value])) && Neat(Array(T.RemoveAt(items, i))))
            && (i <= |items| ==> Neat(Array(T.InsertAt(items, i, value))))
  {
    assert Neat(h[json].node);
  }

  method InsertItem(st: Store, json: Ref, index: nat, value: Ref)
    requires st.Valid() && Tidy(st.cells) && Pointer(st.cells, json) && Given(st.owned, value)
    modifies st
    ensures st.Valid() && Tidy(st.cells)
  {
    hide Balanced, Based, Tight, Tidy, AllNeat, Survives, Closed, Neat;
    ghost var h := st.cells;
    TidyIsNeat(st.cells, st.owned);
    var rc := ArrayInsertNew(st, json, index, value);
    if rc == 0 {
      NeatItems(h, json, index, value);
      NeatPlace(h, st.cells, json, Array(T.InsertAt(h[json].node.items, index, value)));
    } else {
      NeatSurvives(h, st.cells);
    }
    TidyIsNeat(st.cells, st.owned);
  }

  lemma NeatPlace(h: Heap, g: Heap, json: Ref, node: Node)
    requires AllNeat(h) && json < |h| && g == h[json := h[json].(node := node)] && Neat(node)
    ensures AllNeat(g)
  {
  }

  method AppendItem(st: Store, json: Ref, value: Ref)
    requires st.Valid() && Tidy(st.cells) && Pointer(st.cells, json) && Given(st.owned, value)
    modifies st
    ensures st.Valid() && Tidy(st.cells)
  {
    hide Balanced, Based, Tight, Tidy, AllNeat, Survives, Closed, Neat;
    ghost var h := st.cells;
    TidyIsNeat(st.cells, st.owned);
    var rc := ArrayAppendNew(st, json, value);
    if rc == 0 {
      NeatItems(h, json, 0, value);
      NeatPlace(h, st.cells, json, Array(h[json].node.items + [value]));
    } else {
      NeatSurvives(h, st.cells);
    }
    TidyIsNeat(st.cells, st.owned);
  }

  method RemoveItem(st: Store, json: Ref, index: nat, ghost s: set<Ref>)
    requires st.Valid() && Tidy(st.cells) && Pointer(st.cells, json) && Guarded(st.cells, st.owned, json, s)
    modifies st
    ensures st.Valid() && Tidy(st.cells)
  {
    hide Balanced, Based, Tight, Tidy, AllNeat, Became, Survives, Closed, Neat;
    ghost var h := st.cells;
    TidyIsNeat(st.cells, st.owned);
    var rc := Containers.ArrayRemove(st, json, index, s);
    if rc == 0 {
      NeatItems(h, json, index, THE_NULL);
      NeatAfter(h, st.cells, json, Array(T.RemoveAt(h[json].node.items, index)));
    }
    TidyIsNeat(st.cells, st.owned);
  }

  method ClearItems(st: Store, json: Ref, ghost s: set<Ref>)
    requires st.Valid() && Tidy(st.cells) && Pointer(st.cells, json) && Guarded(st.cells, st.owned, json, s)
    modifies st
    ensures st.Valid() && Tidy(st.cells)
  {
    hide Balanced, Based, Tight, Tidy, AllNeat, Closed, Neat;
    ghost var h := st.cells;
    TidyIsNeat(st.cells, st.owned);
    var rc := Containers.ArrayClear(st, json, s);
    if rc == 0 {
      NeatItems(h, json, 0, THE_NULL);
      NeatCleared(h, st.cells, json);
    }
    TidyIsNeat(st.cells, st.owned);
  }

  lemma NeatCleared(h: Heap, g: Heap, json: Ref)
    requires AllNeat(h) && json < |h| == |g| && Survives(h[json := g[json]], g) && Neat(g[json].node)
    ensures AllNeat(g)
  {
    NeatPut(h, json, g[json]);
    NeatSurvives(h[json := g[json]], g);
  }

  lemma NeatPut(h: Heap, json: Ref, c: Cell)
    requires AllNeat(h) && json < |h| && Neat(c.node)
    ensures AllNeat(h[json := c])
  {
  }

  method ExtendItems(st: Store, json: Ref, other: Ref)
    requires st.Valid() && Tidy(st.cells) && Pointer(st.cells, json) && Pointer(st.cells, other)
    requires IsArray(st.cells, other) ==> Room(st.cells, st.owned, |st.cells[other].node.items|)
    modifies st
    ensures st.Valid() && Tidy(st.cells)
  {
    hide Balanced, Based, Tight, Tidy, AllNeat, Closed;
    ghost var h := st.cells;
    TidyIsNeat(st.cells, st.owned);
    var rc := Containers.ArrayExtend(st, json, other);
    if rc == 0 {
      NeatExtended(h, st.cells, json, other);
    }
    TidyIsNeat(st.cells, st.owned);
  }

  lemma NeatExtended(h: Heap, g: Heap, json: Ref, other: Ref)
    requires AllNeat(h) && IsArray(h, json) && IsArray(h, other) && |g| == |h|
    requires forall q: Ref :: q < |g| ==>
               g[q].node == if q == json then Array(h[json].node.items + h[other].node.items) else h[q].node
    ensures AllNeat(g)
  {
    assert Neat(h[json].node) && Neat(h[other].node);
  }

  method SetMember(st: Store, json: Ref, key: Option<Text>, value: Ref, ghost s: set<Ref>)
    requires st.Valid() && Tidy(st.cells) && Pointer(st.cells, json) && Given(st.owned, value)
    requires key.Some? ==> SparesAt(st.cells, st.owned, json, key.value, s)
    modifies st
    ensures st.Valid() && Tidy(st.cells)
  {
    hide Balanced, Based, Tight, Tidy, AllNeat, Became, Survives, Closed, Neat, SparesAt, SetNode, Outside, Harmless;
    ghost var h := st.cells;
    PointerIsThere(h, json);
    TidyNode(h, st.owned, json);
    var rc := ObjectSetNew(st, json, key, value, s);
    if rc == 0 {
      NeatSet(h[json].node, key.value, value);
      NeatAfter(h, st.cells, json, SetNode(h[json].node, key.value, value));
    } else {
      NeatSurvives(h, st.cells);
    }
    TidyIsNeat(st.cells, st.owned);
  }

  method RemoveMember(st: Store, json: Ref, key: Text, ghost s: set<Ref>)
    requires st.Valid() && Tidy(st.cells) && Pointer(st.cells, json) && Guarded(st.cells, st.owned, json, s)
    modifies st
    ensures st.Valid() && Tidy(st.cells)
  {
    hide Balanced, Based, Tight, Tidy, AllNeat, Became, Survives, Closed, Neat, T.Del, T.Get;
    ghost var h := st.cells;
    PointerIsThere(h, json);
    TidyNode(h, st.owned, json);
    var rc := Objects.ObjectDel(st, json, key, s);
    if rc == 0 {
      NeatDel(h[json].node, key);
      NeatAfter(h, st.cells, json, h[json].node.(members := T.Del(h[json].node.members, key)));
    }
    TidyIsNeat(st.cells, st.owned);
  }

  method ClearMembers(st: Store, json: Ref, ghost s: set<Ref>)
    requires st.Valid() && Tidy(st.cells) && Pointer(st.cells, json) && Guarded(st.cells, st.owned, json, s)
    modifies st
    ensures st.Valid() && Tidy(st.cells)
  {
    hide Balanced, Based, Tight, Tidy, AllNeat, Closed, Neat;
    ghost var h := st.cells;
    PointerIsThere(h, json);
    TidyNode(h, st.owned, json);
    var rc := Objects.ObjectClear(st, json, s);
    if rc == 0 {
      NeatEmptied(h[json].node);
      NeatCleared(h, st.cells, json);
    }
    TidyIsNeat(st.cells, st.owned);
  }

  method UpdateMembers(st: Store, json: Ref, other: Ref, ghost s: set<Ref>)
    requires st.Valid() && Tidy(st.cells) && Allowed(st.cells, st.owned, ObjectUpdate(json, other), s)
    modifies st
    ensures st.Valid() && Tidy(st.cells)
  {
    hide Balanced, Based, Tight, Tidy, AllNeat, Closed, Updatable, Became, SelfUpdated, Updated, MeetsItself, CanGrow,
        Regular;
    PointerIsThere(st.cells, json);
    PointerIsThere(st.cells, other);
    TidyNode(st.cells, st.owned, json);
    TidyNode(st.cells, st.owned, other);
    var _ := Updates.ObjectUpdate(st, json, other, s);
    TidyIsNeat(st.cells, st.owned);
  }

  method CopyNode(st: Store, json: Ref)
    requires st.Valid() && Tidy(st.cells) && Allowed(st.cells, st.owned, Copy(json), {})
    modifies st
    ensures st.Valid() && Tidy(st.cells)
  {
    hide Balanced, Based, Tight, Tidy, Closed, AllNeat, SetAll, Extends;
    ghost var h := st.cells;
    PointerIsThere(h, json);
    TidyNode(h, st.owned, json);
    var r := Copies.Copy(st, json);
    NeatCopy(h, st.cells, json, r);
    TidyIsNeat(st.cells, st.owned);
  }

  lemma NeatCopy(h: Heap, g: Heap, json: Ref, r: Ref)
    requires AllNeat(h) && json < |h| && Neat(h[json].node) && Extends(h, g) && r < |g|
    requires if IsObject(h, json) then r == |h| && g[r].node == SetAll(EMPTY, h[json].node.members.order)
             else if IsArray(h, json) || IsScalar(h[json].node) then r == |h| && g[r].node == h[json].node
             else r == json
    requires |g| == if r == |h| then r + 1 else |h|
    ensures AllNeat(g)
  {
    hide Neat, SetAll;
    if IsObject(h, json) {
      EmptyIsNeat();
      NeatHasNoNull(h[json].node);
      NeatSetAll(EMPTY, h[json].node.members.order);
    }
    forall q: Ref | q < |g| ensures Neat(g[q].node) {
      if q < |h| {
        assert g[q].node == h[q].node;
      }
    }
  }

  lemma NeatHasNoNull(n: Node)
    requires Neat(n) && n.Object?
    ensures NULL !in ValuesIn(n.members.order)
  {
  }

  lemma EmptyIsNeat()
    ensures Neat(EMPTY)
  {
    assert T.Buckets(J.HashStr, T.Size(0), EMPTY.members.order) == [];
  }

  // ---------------------------------------------------------------- runs

  /** One operation, whatever it is and whether it succeeds or not, leaves a balanced and tidy heap. */
  method Perform(st: Store, op: Op, ghost s: set<Ref>)
    requires st.Valid() && Tidy(st.cells) && Allowed(st.cells, st.owned, op, s)
    modifies st
    ensures st.Valid() && Tidy(st.cells)
  {
    hide Balanced, Based, Tight, Tidy, AllNeat, Closed, Guarded, SparesAt, Room, CycleReachable, Survives, Extends,
        Unfold,
        Clear;
    match op {
      case Incref(r) =>
        ghost var h := st.cells;
        TidyIsNeat(st.cells, st.owned);
        Containers.Incref(st, r);
        SameIsNeat(h, st.cells);
        TidyIsNeat(st.cells, st.owned);
      case Decref(r) =>
        ghost var h := st.cells;
        TidyIsNeat(st.cells, st.owned);
        Containers.Decref(st, r);
        NeatSurvives(h, st.cells);
        TidyIsNeat(st.cells, st.owned);
      case New(node) =>
        ghost var h := st.cells;
        var _ := NewNode(st, node);
        TidyAppend(h, node);
      case ArraySet(json, index, value) => SetItem(st, json, index, value, s);
      case ArrayAppend(json, value) => AppendItem(st, json, value);
      case ArrayInsert(json, index, value) => InsertItem(st, json, index, value);
      case ArrayRemove(json, index) => RemoveItem(st, json, index, s);
      case ArrayClear(json) => ClearItems(st, json, s);
      case ArrayExtend(json, other) => ExtendItems(st, json, other);
      case ObjectSet(json, key, value) => SetMember(st, json, key, value, s);
      case ObjectDel(json, key) => RemoveMember(st, json, key, s);
      case ObjectClear(json) => ClearMembers(st, json, s);
      case ObjectUpdate(json, other) => UpdateMembers(st, json, other, s);
      case Copy(json) => CopyNode(st, json);
      case DeepCopy(json) => var _ := DeepCopyWhole(st, json);
    }
  }

  lemma SameIsNeat(h: Heap, g: Heap)
    requires AllNeat(h) && |g| == |h| && forall q: Ref :: q < |g| ==> g[q] == h[q].(refcount := g[q].refcount)
    ensures AllNeat(g)
  {
  }
}
