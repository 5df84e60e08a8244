/**
 The heap of `json_t` nodes of `value.c`, as a sequence of cells.  A reference is an index; index 0
 is the null pointer, and a deleted node's cell stays behind, marked as freed.
 */
module Heaps {
  import opened Bytes
  import T = Tables

  type Ref = nat

  const NULL: Ref := 0
  const THE_NULL: Ref := 1
  const THE_TRUE: Ref := 2
  const THE_FALSE: Ref := 3

  type Members = T.Table<Text, Ref>

  datatype Node =
    | Freed
    | Null
    | True
    | False
    | Integer(n: int)
    | Real(lexeme: Text)
    | Str(s: Text)
    | Array(items: seq<Ref>)
    | Object(members: Members, serial: nat)

  type Count = n: nat | n <= SIZE_MAX

  /** A reference count of SIZE_MAX marks a singleton, which is never counted. */
  datatype Cell = Cell(refcount: Count, visited: bool, node: Node)

  type Heap = seq<Cell>

  predicate Live(h: Heap, r: Ref) {
    r < |h| && !h[r].node.Freed?
  }

  predicate Counted(h: Heap, r: Ref) {
    Live(h, r) && h[r].refcount != SIZE_MAX
  }

  function ValuesIn(order: seq<T.Pair<Text, Ref>>): (s: seq<Ref>)
    ensures |s| == |order|
  {
    if order == [] then [] else [order[0].value] + ValuesIn(order[1..])
  }

  /** The slots of a node that hold references. */
  function Children(n: Node): seq<Ref> {
    match n
    case Array(items) => items
    case Object(members, _) => ValuesIn(members.order)
    case _ => []
  }

  /** How many slots of a node hold `r`. */
  ghost function Occurs(n: Node, r: Ref): nat {
    multiset(Children(n))[r]
  }

  /** How many container slots hold `r`. */
  ghost function Slots(h: Heap, r: Ref): nat {
    if h == [] then 0 else Slots(h[..|h| - 1], r) + Occurs(h[|h| - 1].node, r)
  }

  ghost function AllSlots(h: Heap): nat {
    if h == [] then 0 else AllSlots(h[..|h| - 1]) + |Children(h[|h| - 1].node)|
  }

  /** How many references to `r` there are: in slots, and owned by callers. */
  ghost function Holds(h: Heap, owned: multiset<Ref>, r: Ref): nat {
    Slots(h, r) + owned[r]
  }

  /** The count of a node is the number of references to it; there are none to what is freed. */
  ghost predicate BalancedAt(h: Heap, owned: multiset<Ref>, r: Ref) {
    if r == NULL then |h| > 0 && h[NULL].node.Freed?
    else if Live(h, r) then h[r].refcount != SIZE_MAX ==> h[r].refcount == Holds(h, owned, r)
    else Holds(h, owned, r) == 0
  }

  ghost predicate Balanced(h: Heap, owned: multiset<Ref>) {
    forall r: Ref :: BalancedAt(h, owned, r)
  }

  /** Only the nodes in `dying`, whose deletion is under way, have reached zero. */
  ghost predicate Tight(h: Heap, dying: set<Ref>) {
    && (forall r: Ref :: Counted(h, r) && h[r].refcount == 0 ==> r in dying)
    && (forall r: Ref :: r in dying ==> Counted(h, r) && h[r].refcount == 0)
  }

  ghost function References(h: Heap, owned: multiset<Ref>): nat {
    AllSlots(h) + |owned|
  }

  /** What the nodes of `s` refer to is in `s`. */
  ghost predicate Closed(h: Heap, s: set<Ref>) {
    forall r: Ref, c: Ref :: r in s && r < |h| && c in Children(h[r].node) ==> c in s
  }

  /** Cells may lose references or be freed; what survives keeps its contents. */
  ghost predicate Survives(before: Heap, after: Heap) {
    && |after| == |before|
    && forall r: Ref :: r < |after| ==>
        (!after[r].node.Freed? ==> after[r].node == before[r].node && after[r].visited == before[r].visited)
  }

  /** Only counts differ. */
  ghost predicate SameNodes(before: Heap, after: Heap) {
    |after| == |before| && forall q: Ref :: q < |after| ==> after[q] == before[q].(refcount := after[q].refcount)
  }

  // ---------------------------------------------------------------- slots under updates

  lemma {:induction false} SlotsUpdate(h: Heap, r: Ref, c: Cell, q: Ref)
    requires r < |h|
    ensures Slots(h[r := c], q) + Occurs(h[r].node, q) == Slots(h, q) + Occurs(c.node, q)
  {
    hide Occurs;
    var g := h[r := c];
    var n := |h| - 1;
    if r == n {
      assert g[..n] == h[..n];
    } else {
      assert g[..n] == h[..n][r := c];
      SlotsUpdate(h[..n], r, c, q);
    }
  }

  lemma {:induction false} AllSlotsUpdate(h: Heap, r: Ref, c: Cell)
    requires r < |h|
    ensures AllSlots(h[r := c]) + |Children(h[r].node)| == AllSlots(h) + |Children(c.node)|
  {
    hide Children;
    var g := h[r := c];
    var n := |h| - 1;
    if r == n {
      assert g[..n] == h[..n];
    } else {
      assert g[..n] == h[..n][r := c];
      AllSlotsUpdate(h[..n], r, c);
    }
  }

  lemma SlotsAppend(h: Heap, c: Cell, q: Ref)
    ensures Slots(h + [c], q) == Slots(h, q) + Occurs(c.node, q)
    ensures AllSlots(h + [c]) == AllSlots(h) + |Children(c.node)|
  {
    hide Occurs, Children;
    assert (h + [c])[..|h|] == h;
  }

  /** Whatever a slot holds is live. */
  lemma ChildIsLive(h: Heap, owned: multiset<Ref>, r: Ref, c: Ref)
    requires Balanced(h, owned) && r < |h| && c in Children(h[r].node)
    ensures c != NULL ==> Live(h, c)
    ensures c < |h|
  {
    hide Children;
    assert BalancedAt(h, owned, NULL);
    SlotsUpdate(h, r, Cell(0, false, Freed), c);
    FreedHasNone(c);
    assert c in multiset(Children(h[r].node));
    assert BalancedAt(h, owned, c);
  }

  lemma FreedHasNone(q: Ref)
    ensures Children(Freed) == [] && Occurs(Freed, q) == 0
  {
  }

  lemma OwnedIsLive(h: Heap, owned: multiset<Ref>, r: Ref)
    requires Balanced(h, owned) && r in owned && r != NULL
    ensures Live(h, r) && (h[r].refcount == SIZE_MAX || h[r].refcount > 0)
  {
    assert BalancedAt(h, owned, r);
  }

  /** References move between the slots of `r` and the callers; the counts need not change. */
  lemma MoveReferences(h: Heap, owned: multiset<Ref>, r: Ref, node: Node, after: multiset<Ref>)
    requires Balanced(h, owned) && Live(h, r) && !node.Freed?
    requires forall q: Ref :: q != NULL ==> Occurs(node, q) + after[q] == Occurs(h[r].node, q) + owned[q]
    ensures Balanced(h[r := h[r].(node := node)], after)
    ensures References(h[r := h[r].(node := node)], after) + |Children(h[r].node)| + |owned|
            == References(h, owned) + |Children(node)| + |after|
  {
    hide Occurs, Children;
    var g := h[r := h[r].(node := node)];
    AllSlotsUpdate(h, r, g[r]);
    assert BalancedAt(h, owned, NULL);
    forall q: Ref ensures BalancedAt(g, after, q) {
      SlotsUpdate(h, r, g[r], q);
      assert BalancedAt(h, owned, q);
    }
  }

  /** A caller's reference comes or goes together with the count. */
  lemma CountReference(h: Heap, owned: multiset<Ref>, r: Ref, count: Count, after: multiset<Ref>)
    requires Balanced(h, owned) && Counted(h, r) && count != SIZE_MAX
    requires (count == h[r].refcount + 1 && after == owned + multiset{r})
          || (count + 1 == h[r].refcount && owned[r] > 0 && after == owned - multiset{r})
    ensures Balanced(h[r := h[r].(refcount := count)], after)
    ensures References(h[r := h[r].(refcount := count)], after) + h[r].refcount == References(h, owned) + count
  {
    hide Occurs, Children;
    var g := h[r := h[r].(refcount := count)];
    AllSlotsUpdate(h, r, g[r]);
    forall q: Ref ensures BalancedAt(g, after, q) {
      SlotsUpdate(h, r, g[r], q);
      assert BalancedAt(h, owned, q);
    }
  }

  /** A node without references or slots is freed. */
  lemma FreeCell(h: Heap, owned: multiset<Ref>, r: Ref, c: Cell)
    requires Balanced(h, owned) && Counted(h, r) && h[r].refcount == 0 && Children(h[r].node) == [] && c.node.Freed?
    ensures Balanced(h[r := c], owned) && References(h[r := c], owned) == References(h, owned)
  {
    var g := h[r := c];
    AllSlotsUpdate(h, r, c);
    forall q: Ref ensures BalancedAt(g, owned, q) {
      SlotsUpdate(h, r, c, q);
      assert Occurs(c.node, q) == 0 && Occurs(h[r].node, q) == 0;
      assert BalancedAt(h, owned, q);
    }
  }

  /** A new node is owned by its creator. */
  lemma NewCell(h: Heap, owned: multiset<Ref>, node: Node)
    requires Balanced(h, owned) && Children(node) == [] && !node.Freed?
    ensures Balanced(h + [Cell(1, false, node)], owned + multiset{|h|})
    ensures References(h + [Cell(1, false, node)], owned + multiset{|h|}) == References(h, owned) + 1
  {
    var c := Cell(1, false, node);
    SlotsAppend(h, c, 0);
    forall q: Ref ensures BalancedAt(h + [c], owned + multiset{|h|}, q) {
      SlotsAppend(h, c, q);
      assert Occurs(node, q) == 0;
      assert BalancedAt(h, owned, q);
    }
  }

  lemma ClosedShrinks(h: Heap, g: Heap, s: set<Ref>)
    requires Closed(h, s) && |g| == |h|
    requires forall r: Ref, c: Ref :: r < |g| && c in Children(g[r].node) ==> c in Children(h[r].node)
    ensures Closed(g, s)
  {
  }

  lemma SurvivesClosed(h: Heap, g: Heap, s: set<Ref>)
    requires Closed(h, s) && Survives(h, g)
    ensures Closed(g, s)
  {
    forall r: Ref, c: Ref | r < |g| && c in Children(g[r].node) ensures c in Children(h[r].node) {
      assert !g[r].node.Freed?;
    }
    ClosedShrinks(h, g, s);
  }
}
