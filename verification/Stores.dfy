/**
 Reference counting in `value.c`.  The ghost multiset `owned` holds the references that callers have;
 every operation keeps each count equal to the slots and callers that hold the node, and deletes a
 node exactly when that number reaches zero.
 */
module Stores {
  import opened Bytes
  import opened Heaps
  import J = Json
  import T = Tables

  predicate Singleton(n: Node) { n.Null? || n.True? || n.False? }

  /** The null pointer and the three singletons; no node of their types is counted. */
  ghost predicate Based(h: Heap) {
    && (forall r: Ref :: r < |h| && Singleton(h[r].node) ==> h[r].refcount == SIZE_MAX)
    && |h| >= 4 && h[NULL].node.Freed? && h[THE_NULL].node.Null? && h[THE_TRUE].node.True? && h[THE_FALSE].node.False?
    && h[THE_NULL].refcount == h[THE_TRUE].refcount == h[THE_FALSE].refcount == SIZE_MAX
  }

  /** The slots of a container after the first. */
  function Popped(n: Node): Node {
    match n
    case Array(items) => if items == [] then n else Array(items[1..])
    case Object(members, serial) => if members.order == [] then n
        else Object(members.(order := members.order[1..]), serial)
    case _ => n
  }

  function Emptied(n: Node): Node {
    match n
    case Array(_) => Array([])
    case Object(members, serial) => Object(members.(order := []), serial)
    case _ => n
  }

  lemma PoppedChildren(n: Node)
    ensures Children(n) == [] ==> Emptied(n) == n
    ensures Children(n) != [] ==>
              Children(Popped(n)) == Children(n)[1..] && Emptied(Popped(n)) == Emptied(n) && !Popped(n).Freed?
    ensures Children(n) != [] ==> forall q: Ref :: Occurs(Popped(n), q) + multiset{Children(n)[0]}[q] == Occurs(n, q)
    ensures Children(Emptied(n)) == []
  {
    if Children(n) != [] {
      var s := Children(n);
      assert s == [s[0]] + s[1..];
      assert multiset(s) == multiset{s[0]} + multiset(s[1..]);
    }
  }

  class Store {
    var cells: Heap
    ghost var owned: multiset<Ref>

    ghost predicate Sound(dying: set<Ref>)
      reads this
    {
      Based(cells) && Balanced(cells, owned) && Tight(cells, dying)
    }

    /** No deletion is under way. */
    ghost predicate Valid()
      reads this
    {
      Sound({})
    }

    /**
     `json_decref`: the caller's reference is given up.  `s` is any closed set that `r` is in; nothing
     outside it is touched, nor is a node whose deletion is already under way.  When the caller owns
     another reference, only the count changes.
     */
    method Decref(r: Ref, ghost dying: set<Ref>, ghost s: set<Ref>)
      requires Sound(dying) && (r == NULL || r in owned) && r in s && Closed(cells, s)
      modifies this
      ensures Sound(dying) && owned == old(owned) - multiset{r} && Survives(old(cells), cells)
      ensures forall q: Ref :: q < |cells| && (q !in s || q in dying) ==> cells[q] == old(cells)[q]
      ensures old(owned)[r] > 1 ==> SameNodes(old(cells), cells)
      ensures References(cells, owned) <= old(References(cells, owned))
      decreases References(cells, owned), 0
    {
      hide Balanced, Closed, Occurs, Slots, AllSlots, Holds, Children, Singleton;
      if r == NULL {
        DropNull(cells, owned);
        owned := owned - multiset{r};
        return;
      }
      OwnedIsLive(cells, owned, r);
      if cells[r].refcount == SIZE_MAX {
        DropSingleton(cells, owned, r);
        owned := owned - multiset{r};
        return;
      }
      var count := cells[r].refcount - 1;
      OwnedIsCounted(cells, owned, r);
      CountReference(cells, owned, r, count, owned - multiset{r});
      KeepsClosed(cells, r, cells[r].(refcount := count), s);
      cells := cells[r := cells[r].(refcount := count)];
      owned := owned - multiset{r};
      if count == 0 {
        Delete(r, dying + {r}, s);
        assert dying + {r} - {r} == dying;
      }
    }

    /** `json_delete`: the slots are released, then the cell is freed. */
    method Delete(r: Ref, ghost dying: set<Ref>, ghost s: set<Ref>)
      requires Sound(dying) && r in dying && r in s && Closed(cells, s)
      modifies this
      ensures Sound(dying - {r}) && owned == old(owned) && Survives(old(cells), cells)
      ensures forall q: Ref :: q < |cells| && (q !in s || q in dying) && q != r ==> cells[q] == old(cells)[q]
      ensures References(cells, owned) <= old(References(cells, owned))
      decreases References(cells, owned), 2
    {
      hide Balanced, Closed, Occurs, Slots, AllSlots;
      ChildrenInside(cells, r, s);
      ReleaseSlots(r, dying, s);
      PoppedChildren(old(cells)[r].node);
      var freed := Cell(0, false, Freed);
      FreeCell(cells, owned, r, freed);
      cells := cells[r := freed];
    }

    /** The loops of `json_delete_array`, `json_array_clear` and `hashtable_do_clear` over the slots of `r`. */
    method ReleaseSlots(r: Ref, ghost dying: set<Ref>, ghost s: set<Ref>)
      requires Sound(dying) && Live(cells, r) && (r !in s || r in dying || r in owned)
      requires Closed(cells, s) && forall c: Ref :: c in Children(cells[r].node) ==> c in s
      modifies this
      ensures Sound(dying) && owned == old(owned)
      ensures |cells| == |old(cells)| && cells[r].node == Emptied(old(cells)[r].node)
      ensures (r !in s || r in dying) ==> cells[r] == old(cells)[r].(node := cells[r].node)
      ensures Survives(old(cells)[r := cells[r]], cells)
      ensures forall q: Ref :: q < |cells| && (q !in s || q in dying) && q != r ==> cells[q] == old(cells)[q]
      ensures References(cells, owned) <= old(References(cells, owned))
      decreases References(cells, owned), 1
    {
      hide Balanced, Closed, Occurs, Slots, AllSlots, Children, Popped, Emptied, Releasing, References, Tight;
      ghost var before := cells;
      ReleasingStarts(cells, r, dying, s);
      while Children(cells[r].node) != []
        invariant Sound(dying) && owned == old(owned) && Live(cells, r)
        invariant Releasing(before, cells, r, dying, s) && Closed(cells, s)
        invariant References(cells, owned) <= old(References(cells, owned))
        decreases |Children(cells[r].node)|
      {
        ghost var now := cells;
        ReleasingHas(before, cells, r, dying, s);
        PoppedChildren(cells[r].node);
        var child := ReleaseSlot(r, dying, s);
        ghost var popped := cells;
        Decref(child, dying, s);
        OwnerLives(cells, owned, r);
        ReleasingStep(before, now, popped, cells, r, dying, s);
        SurvivesClosed(popped, cells, s);
      }
      ReleasingHas(before, cells, r, dying, s);
      PoppedChildren(cells[r].node);
    }

    /** Where the loop stands that releases the slots of `r`. */
    static ghost predicate Releasing(before: Heap, now: Heap, r: Ref, dying: set<Ref>, s: set<Ref>) {
      && |now| == |before| && r < |now| && Emptied(now[r].node) == Emptied(before[r].node)
      && ((r !in s || r in dying) ==> now[r] == before[r].(node := now[r].node))
      && (forall c: Ref :: c in Children(now[r].node) ==> c in s)
      && Survives(before[r := now[r]], now)
      && (forall q: Ref :: q < |now| && (q !in s || q in dying) && q != r ==> now[q] == before[q])
    }

    static lemma ReleasingStarts(h: Heap, r: Ref, dying: set<Ref>, s: set<Ref>)
      requires r < |h| && forall c: Ref :: c in Children(h[r].node) ==> c in s
      ensures Releasing(h, h, r, dying, s)
    {
      assert h[r := h[r]] == h;
    }

    static lemma ReleasingHas(before: Heap, now: Heap, r: Ref, dying: set<Ref>, s: set<Ref>)
      requires Releasing(before, now, r, dying, s)
      ensures |now| == |before| && r < |now| && Emptied(now[r].node) == Emptied(before[r].node)
      ensures (r !in s || r in dying) ==> now[r] == before[r].(node := now[r].node)
      ensures forall c: Ref :: c in Children(now[r].node) ==> c in s
      ensures Survives(before[r := now[r]], now)
      ensures forall q: Ref :: q < |now| && (q !in s || q in dying) && q != r ==> now[q] == before[q]
    {
    }

    static lemma ReleasingStep(before: Heap, now: Heap, popped: Heap, next: Heap, r: Ref, dying: set<Ref>, s: set<Ref>)
      requires Releasing(before, now, r, dying, s) && Children(now[r].node) != [] && Live(next, r)
      requires popped == now[r := now[r].(node := Popped(now[r].node))] && Survives(popped, next)
      requires forall q: Ref :: q < |next| && (q !in s || q in dying) ==> next[q] == popped[q]
      ensures Releasing(before, next, r, dying, s) && Children(next[r].node) == Children(now[r].node)[1..]
    {
      hide Children, Popped, Emptied;
      PoppedChildren(now[r].node);
      assert next[r].node == popped[r].node;
      forall c: Ref | c in Children(next[r].node) ensures c in s {
        assert c in Children(now[r].node)[1..];
      }
    }

    /** The first slot of `r` is given to the caller. */
    method ReleaseSlot(r: Ref, ghost dying: set<Ref>, ghost s: set<Ref>) returns (child: Ref)
      requires Sound(dying) && Live(cells, r) && Children(cells[r].node) != []
      requires Closed(cells, s) && forall c: Ref :: c in Children(cells[r].node) ==> c in s
      modifies this
      ensures Sound(dying) && owned == old(owned) + multiset{child} && child in s
      ensures cells == old(cells)[r := old(cells)[r].(node := Popped(old(cells)[r].node))]
      ensures Closed(cells, s) && References(cells, owned) == old(References(cells, owned))
    {
      hide Balanced, Closed, Occurs, Slots, AllSlots;
      child := Children(cells[r].node)[0];
      PoppedChildren(cells[r].node);
      ChildIsLive(cells, owned, r, child);
      var node := Popped(cells[r].node);
      KeepsClosed(cells, r, cells[r].(node := node), s);
      MoveReferences(cells, owned, r, node, owned + multiset{child});
      cells := cells[r := cells[r].(node := node)];
      owned := owned + multiset{child};
    }
  }

  /** A node is alive exactly as long as a slot or a caller holds it; its count says how many do. */
  lemma LiveIffHeld(h: Heap, owned: multiset<Ref>, r: Ref)
    requires Balanced(h, owned) && Tight(h, {}) && r != NULL
    ensures Live(h, r) && h[r].refcount != SIZE_MAX ==> h[r].refcount == Holds(h, owned, r) > 0
    ensures Holds(h, owned, r) > 0 ==> Live(h, r)
  {
    assert BalancedAt(h, owned, r);
    assert Counted(h, r) ==> h[r].refcount != 0;
  }

  lemma OwnedIsCounted(h: Heap, owned: multiset<Ref>, r: Ref)
    requires Balanced(h, owned) && Counted(h, r) && r != NULL
    ensures h[r].refcount >= owned[r]
  {
    assert BalancedAt(h, owned, r);
  }

  lemma DropNull(h: Heap, owned: multiset<Ref>)
    requires Balanced(h, owned)
    ensures Balanced(h, owned - multiset{NULL}) && References(h, owned - multiset{NULL}) <= References(h, owned)
  {
    forall q: Ref ensures BalancedAt(h, owned - multiset{NULL}, q) {
      assert BalancedAt(h, owned, q);
    }
  }

  lemma DropSingleton(h: Heap, owned: multiset<Ref>, r: Ref)
    requires Balanced(h, owned) && Live(h, r) && h[r].refcount == SIZE_MAX && r in owned
    ensures Balanced(h, owned - multiset{r}) && References(h, owned - multiset{r}) < References(h, owned)
  {
    forall q: Ref ensures BalancedAt(h, owned - multiset{r}, q) {
      assert BalancedAt(h, owned, q);
    }
  }

  lemma KeepsClosed(h: Heap, r: Ref, c: Cell, s: set<Ref>)
    requires Closed(h, s) && r < |h|
    requires forall q: Ref :: q in Children(c.node) ==> q in Children(h[r].node)
    ensures Closed(h[r := c], s)
  {
    ClosedShrinks(h, h[r := c], s);
  }

  lemma ChildrenInside(h: Heap, r: Ref, s: set<Ref>)
    requires Closed(h, s) && r in s && r < |h|
    ensures forall c: Ref :: c in Children(h[r].node) ==> c in s
  {
  }

  lemma OwnerLives(h: Heap, owned: multiset<Ref>, r: Ref)
    requires Balanced(h, owned)
    ensures r in owned ==> r == NULL || Live(h, r)
  {
    assert BalancedAt(h, owned, r);
  }
}
