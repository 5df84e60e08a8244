/** `json_object_update` on the counted heap: from another object, owned or only borrowed, and from itself. */
module Updates {
  import opened Bytes
  import opened Containers
  import opened Heaps
  import opened Objects
  import opened Stores
  import J = Json
  import T = Tables

  // ---------------------------------------------------------------- the other object stays alive

  /** A node that the released values do not lead to holds `other`. */
  ghost predicate HeldBy(h: Heap, x: Ref, json: Ref, other: Ref, s: set<Ref>) {
    x < |h| && x != json && x !in s && other in Children(h[x].node)
  }

  /** The updated object holds `other` under a key that is not set. */
  ghost predicate KeptAt(h: Heap, k: Text, json: Ref, other: Ref, order: seq<T.Pair<Text, Ref>>) {
    Bound(h, json, k, other) && forall i :: 0 <= i < |order| ==> order[i].key != k
  }

  /**
   Releasing nodes of `s` leaves `other` alive: a caller owns it, or nothing that is released leads to it,
   or something else holds it.
   */
  ghost predicate Anchored(h: Heap, owned: multiset<Ref>, json: Ref, other: Ref, order: seq<T.Pair<Text, Ref>>,
          s: set<Ref>)
  {
    || other in owned || other !in s
    || (exists x: Ref :: HeldBy(h, x, json, other, s))
    || (exists k: Text :: KeptAt(h, k, json, other, order))
  }

  /** What the keys of `order` are bound to in `json` is in `s`. */
  ghost predicate Released(h: Heap, json: Ref, order: seq<T.Pair<Text, Ref>>, s: set<Ref>) {
    IsObject(h, json) ==>
      forall i :: 0 <= i < |order| && T.Get(h[json].node.members, order[i].key).Some? ==>
        T.Get(h[json].node.members, order[i].key).value in s
  }

  /**
   The update of `json` releases only nodes of `s`, and both objects survive that.  When `json` is
   itself in `s`, so is what it is given.
   */
  ghost predicate Updatable(h: Heap, owned: multiset<Ref>, json: Ref, other: Ref, s: set<Ref>) {
    IsObject(h, json) && IsObject(h, other) ==>
      var order := h[other].node.members.order;
      && Closed(h, s) && (json in owned || json !in s)
      && (json in s ==> forall c: Ref :: c in ValuesIn(order) ==> c in s)
      && Released(h, json, order, s) && Anchored(h, owned, json, other, order, s)
  }

  /** Two objects that callers own can be updated from each other. */
  lemma OwnedIsUpdatable(h: Heap, owned: multiset<Ref>, json: Ref, other: Ref)
    requires Balanced(h, owned) && json in owned && other in owned
    ensures Updatable(h, owned, json, other, Everything(h))
  {
    OwnedIsGuarded(h, owned, json);
    OwnedIsGuarded(h, owned, other);
    GuardedReleases(h, owned, json, other, Everything(h));
  }

  /** An object is updated from a borrowed one, as long as what it holds does not lead to either. */
  lemma BorrowedIsUpdatable(h: Heap, owned: multiset<Ref>, json: Ref, other: Ref, s: set<Ref>)
    requires Guarded(h, owned, json, s) && json !in s && other !in s
    ensures Updatable(h, owned, json, other, s)
  {
    GuardedReleases(h, owned, json, other, s);
  }

  lemma GuardedReleases(h: Heap, owned: multiset<Ref>, json: Ref, other: Ref, s: set<Ref>)
    requires Guarded(h, owned, json, s)
    ensures IsObject(h, other) ==> Released(h, json, h[other].node.members.order, s)
  {
    if IsObject(h, json) && IsObject(h, other) {
      var order := h[other].node.members.order;
      forall i | 0 <= i < |order| && T.Get(h[json].node.members, order[i].key).Some?
        ensures T.Get(h[json].node.members, order[i].key).value in s
      {
        GuardedSpares(h, owned, json, order[i].key, s);
        BoundIsChild(h, json, order[i].key);
      }
    }
  }

  lemma BoundIsChild(h: Heap, json: Ref, key: Text)
    requires IsObject(h, json) && T.Get(h[json].node.members, key).Some?
    ensures T.Get(h[json].node.members, key).value in Children(h[json].node)
  {
    var order := h[json].node.members.order;
    ValuesAt(order, T.Find(order, key));
  }

  // ---------------------------------------------------------------- from another object

  /** Where the loop stands: the pairs of `order` before `i` are in. */
  ghost predicate Updating(h: Heap, owned: multiset<Ref>, before: Heap, json: Ref, other: Ref,
          order: seq<T.Pair<Text, Ref>>, i: nat, s: set<Ref>)
    requires i <= |order|
  {
    && json != other && other != NULL && json < |before| == |h| && before[json].node.Object?
    && IsObject(h, json) && Regular(h, json) && Closed(h, s) && (json in owned || json !in s)
    && IsObject(h, other) && h[other].node.members.order == order && NULL !in ValuesIn(order) && T.Distinct(order)
    && (json in s ==> forall c: Ref :: c in ValuesIn(order) ==> c in s)
    && Released(h, json, order[i..], s) && Anchored(h, owned, json, other, order, s)
    && SetAll(h[json].node, order[i..]) == SetAll(before[json].node, order)
    && Became(before, h, json, h[json].node)
  }

  lemma ClosedAfterSet(h: Heap, g: Heap, json: Ref, key: Text, value: Ref, s: set<Ref>)
    requires Closed(h, s) && IsObject(h, json) && T.Valid(J.HashStr, h[json].node.members) && (json in s ==> value in s)
    requires Became(h, g, json, SetNode(h[json].node, key, value))
    ensures Closed(g, s)
  {
    hide SetNode, T.Valid;
    forall r: Ref, c: Ref | r in s && r < |g| && c in Children(g[r].node) ensures c in s {
      if r != json {
        assert !g[r].node.Freed?;
        assert g[r].node == h[r].node;
      } else {
        SetNodeChild(h[json].node, key, value, c);
      }
    }
  }

  /** The next set leaves `other` as it is. */
  lemma AnchorHolds(now: Heap, next: Heap, owned: multiset<Ref>, json: Ref, other: Ref, order: seq<T.Pair<Text, Ref>>,
          i: nat, s: set<Ref>)
    requires Balanced(next, owned) && json != other && other != NULL && json < |now| && other < |now|
    requires IsObject(now, json) && Regular(now, json) && i < |order| && Anchored(now, owned, json, other, order, s)
    requires Became(now, next, json, SetNode(now[json].node, order[i].key, order[i].value)) &&
              Outside(now, next, json, s)
    ensures Anchored(next, owned, json, other, order, s) && next[other].node == now[other].node
  {
    hide Balanced, SetNode, T.Valid, Children, T.Get;
    if other in owned {
      OwnerLives(next, owned, other);
    } else if exists x: Ref :: HeldBy(now, x, json, other, s) {
      var x: Ref :| HeldBy(now, x, json, other, s);
      ChildIsLive(next, owned, x, other);
      assert HeldBy(next, x, json, other, s);
    } else if exists k: Text :: KeptAt(now, k, json, other, order) {
      var k: Text :| KeptAt(now, k, json, other, order);
      SetNodeGet(now[json].node, order[i].key, order[i].value, k);
      BoundIsChild(next, json, k);
      ChildIsLive(next, owned, json, other);
      assert KeptAt(next, k, json, other, order);
    }
  }

  /** What later keys are bound to does not change. */
  lemma ReleasedAfterSet(now: Heap, next: Heap, json: Ref, order: seq<T.Pair<Text, Ref>>, i: nat, s: set<Ref>)
    requires IsObject(now, json) && Regular(now, json) && i < |order| && T.Distinct(order)
    requires json < |next| && next[json].node == SetNode(now[json].node, order[i].key, order[i].value)
    requires Released(now, json, order[i..], s)
    ensures Released(next, json, order[i + 1..], s)
  {
    hide SetNode, T.Valid, T.Get;
    var rest := order[i + 1..];
    forall j | 0 <= j < |rest| && T.Get(next[json].node.members, rest[j].key).Some?
      ensures T.Get(next[json].node.members, rest[j].key).value in s
    {
      assert rest[j] == order[i..][j + 1] == order[i + 1 + j];
      SetNodeGet(now[json].node, order[i].key, order[i].value, rest[j].key);
    }
  }

  lemma UpdateStep(now: Heap, next: Heap, owned: multiset<Ref>, before: Heap, json: Ref, other: Ref,
          order: seq<T.Pair<Text, Ref>>, i: nat, s: set<Ref>)
    requires i < |order| && Updating(now, owned, before, json, other, order, i, s) && Balanced(next, owned)
    requires Became(now, next, json, SetNode(now[json].node, order[i].key, order[i].value)) &&
              Outside(now, next, json, s)
    requires order[i].value in ValuesIn(order)
    ensures Updating(next, owned, before, json, other, order, i + 1, s)
  {
    hide Balanced, SetNode, SetAll, T.Valid, Closed, ValuesIn, Anchored, Released, T.Distinct;
    var p := order[i];
    ClosedAfterSet(now, next, json, p.key, p.value, s);
    RegularAfterSet(now, next, json, p.key, p.value);
    SetAllStep(now[json].node, order, i);
    AnchorHolds(now, next, owned, json, other, order, i, s);
    ReleasedAfterSet(now, next, json, order, i, s);
    BecameTwice(before, now, next, json);
  }

  /** The next key can be set. */
  lemma StepIsSpared(h: Heap, owned: multiset<Ref>, before: Heap, json: Ref, other: Ref, order: seq<T.Pair<Text, Ref>>,
          i: nat, s: set<Ref>)
    requires i < |order| && Updating(h, owned, before, json, other, order, i, s)
    ensures SparesAt(h, owned, json, order[i].key, s)
  {
    hide T.Valid, SetAll, Became, Anchored;
    assert order[i..][0] == order[i];
  }

  lemma UpdateStarts(h: Heap, owned: multiset<Ref>, json: Ref, other: Ref, s: set<Ref>)
    requires IsObject(h, json) && IsObject(h, other) && json != other && Regular(h, json) && Regular(h, other)
    requires other != NULL && Updatable(h, owned, json, other, s)
    ensures Updating(h, owned, h, json, other, h[other].node.members.order, 0, s)
  {
    hide SetAll, Closed, Anchored;
    var order := h[other].node.members.order;
    SetAllStarts(h[json].node, order);
    assert order[0..] == order;
  }

  /** One set, whether it succeeds or not, keeps the heap neat. */
  lemma NeatStep(now: Heap, next: Heap, json: Ref, key: Text, value: Ref, rc: int)
    requires IsObject(now, json) && value != NULL
    requires rc == 0 ==> Became(now, next, json, SetNode(now[json].node, key, value))
    requires rc != 0 ==> Survives(now, next)
    ensures AllNeat(now) ==> AllNeat(next)
  {
    hide Neat, SetNode, Became, Survives;
    if AllNeat(now) {
      if rc == 0 {
        NeatSet(now[json].node, key, value);
        NeatAfter(now, next, json, SetNode(now[json].node, key, value));
      } else {
        NeatSurvives(now, next);
      }
    }
  }

  /** `json_object_update` with another object, whoever owns it. */
  method UpdateFrom(st: Store, json: Ref, other: Ref, ghost s: set<Ref>) returns (rc: int)
    requires st.Valid() && IsObject(st.cells, json) && IsObject(st.cells, other) && json != other
    requires Regular(st.cells, json) && Regular(st.cells, other) && Updatable(st.cells, st.owned, json, other, s)
    requires Room(st.cells, st.owned, |st.cells[other].node.members.order|)
    modifies st
    ensures st.Valid() && st.owned == old(st.owned) && (rc == 0 || rc == -1)
    ensures old(AllNeat(st.cells)) ==> AllNeat(st.cells)
    ensures rc == 0 <==> json !in old(ValuesIn(st.cells[other].node.members.order))
    ensures rc == 0 ==>
              Became(old(st.cells), st.cells, json,
                SetAll(old(st.cells)[json].node, old(st.cells)[other].node.members.order))
  {
    hide Balanced, Closed, Occurs, Slots, AllSlots, Tight, T.Set, T.Valid, References, SetAll, ValuesIn, Updatable,
        Anchored, Released, T.Distinct, SparesAt, AllNeat, SetNode, Became, Survives;
    ghost var before, owned := st.cells, st.owned;
    ghost var order := st.cells[other].node.members.order;
    ghost var total := Total(st);
    UpdateStarts(st.cells, st.owned, json, other, s);
    var i := 0;
    while i < |st.cells[other].node.members.order|
      invariant 0 <= i <= |order| && st.Valid() && Updating(st.cells, st.owned, before, json, other, order, i, s)
      invariant st.owned == owned && Total(st) <= total + i && (AllNeat(before) ==> AllNeat(st.cells))
      invariant forall k :: 0 <= k < i ==> order[k].value != json
      decreases |order| - i
    {
      var p := st.cells[other].node.members.order[i];
      ghost var now := st.cells;
      UpdateReady(st.cells, st.owned, other, i);
      StepIsSpared(st.cells, st.owned, before, json, other, order, i, s);
      var result := ObjectSetNocheck(st, json, p.key, p.value, s);
      NeatStep(now, st.cells, json, p.key, p.value, result);
      if result != 0 {
        return -1;
      }
      UpdateStep(now, st.cells, st.owned, before, json, other, order, i, s);
      i := i + 1;
    }
    SetAllEnds(st.cells[json].node, order);
    if json in ValuesIn(order) {
      ValuesHave(order, json);
    }
    return 0;
  }

  // ---------------------------------------------------------------- from itself

  /**
   The pairs that the loop visits when an object is updated from itself: the first set may rehash the
   table, and the iterator goes on from the first pair in the new order.
   */
  ghost function Visited(members: Members): seq<T.Pair<Text, Ref>> {
    if members.order == [] then []
    else
      var g := T.Grown(J.HashStr, members).order;
      var at := T.Find(g, members.order[0].key);
      if at < |g| then g[at..] else []
  }

  /** The object after `n` of those sets: only its counter and the order of its pairs have changed. */
  ghost function SelfSet(n: Node, count: nat): Node
    requires n.Object?
  {
    if count == 0 then n else Object(T.Grown(J.HashStr, n.members), n.serial + count)
  }

  /** Rehashing keeps the map. */
  lemma SelfSetKeeps(n: Node, count: nat)
    requires n.Object? && T.Valid(J.HashStr, n.members)
    ensures T.MapOf(SelfSet(n, count).members.order) == T.MapOf(n.members.order)
    ensures T.SerialsOf(SelfSet(n, count).members.order) == T.SerialsOf(n.members.order)
    ensures T.Valid(J.HashStr, SelfSet(n, count).members)
  {
    T.GrownKeeps(J.HashStr, n.members);
  }

  lemma VisitedStarts(members: Members)
    requires T.Valid(J.HashStr, members) && members.order != []
    ensures var g := T.Grown(J.HashStr, members).order; var at := T.Find(g, members.order[0].key);
            at < |g| && g[at] == members.order[0] && Visited(members) == g[at..]
  {
    hide T.Grown, T.Valid;
    GrownDistinct(members);
    var g, p := T.Grown(J.HashStr, members).order, members.order[0];
    assert p in multiset(members.order) && p in multiset(g);
    var i :| 0 <= i < |g| && g[i] == p;
    T.FindAt(g, i);
  }

  lemma GrownDistinct(members: Members)
    requires T.Valid(J.HashStr, members)
    ensures var g := T.Grown(J.HashStr, members);
            && T.Distinct(g.order) && multiset(g.order) == multiset(members.order) && |g.order| == |members.order|
            && (g.level < |T.PRIMES| ==> T.Grown(J.HashStr, g) == g)
  {
    T.GrownKeeps(J.HashStr, members);
  }

  /** Setting a pair of the table to what it is already bound to leaves the table as it is, but for the rehash. */
  lemma SetSame(members: Members, p: T.Pair<Text, Ref>)
    requires T.Valid(J.HashStr, members) && p in T.Grown(J.HashStr, members).order
    ensures T.Set(J.HashStr, members, p.key, 0, p.value) == T.Grown(J.HashStr, members)
    ensures forall serial: nat :: T.Set(J.HashStr, members, p.key, serial, p.value) == T.Grown(J.HashStr, members)
    ensures T.Get(members, p.key) == Some(p.value)
  {
    hide T.Grown, T.Valid;
    GrownDistinct(members);
    GrownMember(members, p.key);
    var g := T.Grown(J.HashStr, members);
    var i :| 0 <= i < |g.order| && g.order[i] == p;
    T.FindAt(g.order, i);
    assert g.order[i := g.order[i].(value := p.value)] == g.order;
    assert g.(order := g.order) == g;
  }

  /** Where the loop stands behind `n` sets, with the iterator at the place `i` of the list. */
  ghost predicate Rewriting(h: Heap, before: Heap, json: Ref, n: nat, i: nat)
  {
    && json < |before| == |h| && before[json].node.Object? && T.Valid(J.HashStr, before[json].node.members)
    && SameNodes(before[json := h[json]], h) && h[json].node == SelfSet(before[json].node, n)
    && h[json].visited == before[json].visited
    && n <= |Visited(before[json].node.members)|
    && i == (if n == 0 then 0
             else |before[json].node.members.order| - |Visited(before[json].node.members)| + n)
  }

  /** The pair at the iterator is the next one to be visited. */
  lemma RewritingAt(h: Heap, before: Heap, json: Ref, n: nat, i: nat)
    requires Rewriting(h, before, json, n, i)
    ensures i <= |h[json].node.members.order|
    ensures i < |h[json].node.members.order| <==> n < |Visited(before[json].node.members)|
    ensures i < |h[json].node.members.order| ==> h[json].node.members.order[i] == Visited(before[json].node.members)[n]
  {
    hide T.Grown, T.Valid, SameNodes;
    var members := before[json].node.members;
    if members.order != [] {
      VisitedStarts(members);
      GrownDistinct(members);
    } else {
      GrownDistinct(members);
    }
  }

  lemma RewritingStep(now: Heap, next: Heap, before: Heap, json: Ref, n: nat, i: nat)
    requires Rewriting(now, before, json, n, i) && i < |now[json].node.members.order|
    requires T.Grown(J.HashStr, before[json].node.members).level < |T.PRIMES|
    requires var p := now[json].node.members.order[i];
             Became(now, next, json, SetNode(now[json].node, p.key, p.value))
    requires SameNodes(now[json := next[json]], next)
    ensures IsObject(next, json)
    ensures var p := now[json].node.members.order[i];
            Rewriting(next, before, json, n + 1, T.Find(next[json].node.members.order, p.key) + 1)
  {
    hide T.Grown, T.Valid, T.Set, T.Get, T.Distinct, SameNodes;
    var members := before[json].node.members;
    var p := now[json].node.members.order[i];
    RewritingAt(now, before, json, n, i);
    VisitedStarts(members);
    GrownDistinct(members);
    var g := T.Grown(J.HashStr, members);
    assert p == g.order[|g.order| - |Visited(members)| + n];
    T.FindAt(g.order, |g.order| - |Visited(members)| + n);
    SelfSetKeeps(before[json].node, n);
    assert T.Grown(J.HashStr, now[json].node.members) == g;
    SetSame(now[json].node.members, p);
    assert next[json].node == SelfSet(before[json].node, n + 1);
    SameTwice(before, now, next, json);
  }

  lemma SameTwice(a: Heap, b: Heap, c: Heap, json: Ref)
    requires json < |a| == |b| == |c| && SameNodes(a[json := b[json]], b) && SameNodes(b[json := c[json]], c)
    ensures SameNodes(a[json := c[json]], c)
  {
    forall q: Ref | q < |c| ensures c[q] == a[json := c[json]][q].(refcount := c[q].refcount) {
      assert b[q] == a[json := b[json]][q].(refcount := b[q].refcount);
      assert c[q] == b[json := c[json]][q].(refcount := c[q].refcount);
    }
  }

  /** What the iterator is at can be set again without any precaution. */
  lemma SetAgain(h: Heap, owned: multiset<Ref>, before: Heap, json: Ref, n: nat, i: nat)
    requires Balanced(h, owned) && Rewriting(h, before, json, n, i) && i < |h[json].node.members.order|
    requires NULL !in ValuesIn(before[json].node.members.order)
    ensures var p := h[json].node.members.order[i];
            && Pointer(h, p.value) && p.value != NULL && Bound(h, json, p.key, p.value) && IsObject(h, json)
            && Regular(h, json)
            && Harmless(T.Get(h[json].node.members, p.key), owned + multiset{p.value})
  {
    hide T.Grown, T.Valid, Balanced, T.Distinct, SameNodes, T.Get, ValuesIn, T.MapOf, T.SerialsOf, T.Find, Visited;
    var members := before[json].node.members;
    var order := h[json].node.members.order;
    SelfSetKeeps(before[json].node, n);
    GrownDistinct(members);
    ValuesPermuted(order, members.order);
    T.SameBag(ValuesIn(order), ValuesIn(members.order));
    ValuesAt(order, i);
    ChildIsLive(h, owned, json, order[i].value);
    IsBound(h[json].node.members, i);
  }

  lemma IsBound(members: Members, i: nat)
    requires T.Valid(J.HashStr, members) && i < |members.order|
    ensures T.Get(members, members.order[i].key) == Some(members.order[i].value)
  {
    T.FindAt(members.order, i);
  }

  /** The whole effect on the heap. */
  ghost predicate SelfUpdated(before: Heap, after: Heap, json: Ref) {
    && json < |before| == |after| && before[json].node.Object?
    && after[json].node == SelfSet(before[json].node, |Visited(before[json].node.members)|)
    && after[json].visited == before[json].visited && SameNodes(before[json := after[json]], after)
  }

  /** One of the values that are set again is the object itself, which is refused. */
  ghost predicate MeetsItself(h: Heap, json: Ref) {
    IsObject(h, json) && json in ValuesIn(Visited(h[json].node.members))
  }

  /** The list of primes is long enough for one more rehash. */
  ghost predicate CanGrow(h: Heap, json: Ref) {
    IsObject(h, json) ==> T.Grown(J.HashStr, h[json].node.members).level < |T.PRIMES|
  }

  /**
   `json_object_update` of an object from itself: no reference is gained or lost and the map stays as it
   is; only the counter goes on, and the table may be rehashed while it is iterated over.
   */
  method UpdateSelf(st: Store, json: Ref) returns (rc: int)
    requires st.Valid() && IsObject(st.cells, json) && Regular(st.cells, json)
    requires Room(st.cells, st.owned, |st.cells[json].node.members.order|)
    requires CanGrow(st.cells, json)
    modifies st
    ensures st.Valid() && st.owned == old(st.owned) && (rc == 0 || rc == -1)
    ensures old(AllNeat(st.cells)) ==> AllNeat(st.cells)
    ensures rc == 0 <==> !MeetsItself(old(st.cells), json)
    ensures rc == 0 ==> SelfUpdated(old(st.cells), st.cells, json)
  {
    hide Balanced, Occurs, Slots, AllSlots, Tight, T.Set, T.Valid, T.Grown, References, ValuesIn, SparesAt, Visited,
        SelfSet, SameNodes, Became, AllNeat, SetNode, Survives;
    ghost var before, owned := st.cells, st.owned;
    ghost var members := before[json].node.members;
    ghost var total := Total(st);
    ghost var n: nat := 0;
    NothingSet(before, json);
    var i: nat := 0;
    while i < |st.cells[json].node.members.order|
      invariant st.Valid() && st.owned == owned && json < |st.cells| && IsObject(st.cells, json)
      invariant Rewriting(st.cells, before, json, n, i) && Total(st) <= total + n
      invariant AllNeat(before) ==> AllNeat(st.cells)
      invariant forall k :: 0 <= k < n ==> Visited(members)[k].value != json
      decreases |Visited(members)| - n
    {
      RewritingAt(st.cells, before, json, n, i);
      VisitedAtMost(members);
      SetAgain(st.cells, st.owned, before, json, n, i);
      var p := st.cells[json].node.members.order[i];
      ghost var now := st.cells;
      var result := ObjectSetNocheck(st, json, p.key, p.value, {});
      NeatStep(now, st.cells, json, p.key, p.value, result);
      if result != 0 {
        VisitedValue(members, n);
        return -1;
      }
      RewritingStep(now, st.cells, before, json, n, i);
      i := T.Find(st.cells[json].node.members.order, p.key) + 1;
      n := n + 1;
    }
    RewritingAt(st.cells, before, json, n, i);
    if json in ValuesIn(Visited(members)) {
      ValuesHave(Visited(members), json);
    }
    return 0;
  }

  lemma NothingSet(h: Heap, json: Ref)
    requires IsObject(h, json) && Regular(h, json)
    ensures Rewriting(h, h, json, 0, 0)
  {
  }

  lemma VisitedAtMost(members: Members)
    requires T.Valid(J.HashStr, members)
    ensures |Visited(members)| <= |members.order|
  {
    GrownDistinct(members);
  }

  lemma VisitedValue(members: Members, n: nat)
    requires n < |Visited(members)|
    ensures Visited(members)[n].value in ValuesIn(Visited(members))
  {
    ValuesAt(Visited(members), n);
  }

  /** `json_object_update`, which is one loop in either case. */
  method ObjectUpdate(st: Store, json: Ref, other: Ref, ghost s: set<Ref>) returns (rc: int)
    requires st.Valid() && Pointer(st.cells, json) && Pointer(st.cells, other)
    requires Regular(st.cells, json) && Regular(st.cells, other)
    requires IsObject(st.cells, other) ==> Room(st.cells, st.owned, |st.cells[other].node.members.order|)
    requires json != other ==> Updatable(st.cells, st.owned, json, other, s)
    requires json == other ==> CanGrow(st.cells, json)
    modifies st
    ensures st.Valid() && st.owned == old(st.owned) && (rc == 0 || rc == -1)
    ensures old(AllNeat(st.cells)) ==> AllNeat(st.cells)
    ensures old(!IsObject(st.cells, json) || !IsObject(st.cells, other)) ==> rc == -1 && st.cells == old(st.cells)
    ensures old(IsObject(st.cells, json) && IsObject(st.cells, other)) ==>
              (rc == 0 <==> old(if json == other then !MeetsItself(st.cells, json)
                                else json !in ValuesIn(st.cells[other].node.members.order)))
    ensures rc == 0 ==> Became(old(st.cells), st.cells, json, Updated(old(st.cells), json, other))
    ensures rc == 0 && json == other ==> SelfUpdated(old(st.cells), st.cells, json)
  {
    hide Balanced, Closed, Occurs, Slots, AllSlots, Tight, T.Set, T.Valid, T.Grown, References, SetAll, ValuesIn,
        Updatable, Visited, SelfSet, AllNeat;
    if !IsObject(st.cells, json) || !IsObject(st.cells, other) {
      return -1;
    }
    ghost var before := st.cells;
    if json == other {
      rc := UpdateSelf(st, json);
      if rc == 0 {
        SameBecame(before, st.cells, json);
      }
    } else {
      rc := UpdateFrom(st, json, other, s);
    }
  }

  lemma SameBecame(before: Heap, after: Heap, json: Ref)
    requires json < |before| == |after| && SameNodes(before[json := after[json]], after)
    requires after[json].visited == before[json].visited
    ensures Became(before, after, json, after[json].node)
  {
  }

  /** The updated object. */
  ghost function Updated(h: Heap, json: Ref, other: Ref): Node
    requires IsObject(h, json) && IsObject(h, other)
  {
    if json == other then SelfSet(h[json].node, |Visited(h[json].node.members)|)
    else SetAll(h[json].node, h[other].node.members.order)
  }

  /** It is the union of the maps, the other object winning. */
  lemma UpdatedIsUnion(h: Heap, json: Ref, other: Ref)
    requires IsObject(h, json) && IsObject(h, other) && Regular(h, json) && Regular(h, other)
    ensures T.MapOf(Updated(h, json, other).members.order)
            == T.MapOf(h[json].node.members.order) + T.MapOf(h[other].node.members.order)
  {
    hide T.Valid, SetAll, SelfSet;
    if json == other {
      SelfSetKeeps(h[json].node, |Visited(h[json].node.members)|);
      var m := T.MapOf(h[json].node.members.order);
      assert m + m == m;
    } else {
      RegularDistinctKeys(h, other);
      SetAllIsUnion(h[json].node, h[other].node.members.order);
    }
  }

  lemma RegularDistinctKeys(h: Heap, r: Ref)
    requires IsObject(h, r) && Regular(h, r)
    ensures T.Distinct(h[r].node.members.order)
  {
  }
}
