/** `json_deep_copy`: a fresh graph of the same value. */
module DeepCopies {
  import opened Bytes
  import opened Containers
  import opened Copies
  import opened Graphs
  import opened Heaps
  import opened Objects
  import opened Stores
  import D = DocumentTrip
  import E = HeapEqual
  import J = Json
  import T = Tables

  /**
   In `g`, the node `c` is a deep copy of the node `r` of `h`: it is a new node, numbered from `lo` on,
   and what it holds are copies numbered behind it.  Singletons stand for themselves.
   */
  ghost predicate Copied(h: Heap, r: Ref, v: set<Ref>, g: Heap, c: Ref, lo: nat)
    requires Linked(h) && Live(h, r) && Clear(h, r, v)
    decreases All(h) - v, 1, 0
  {
    && c < |g|
    && match h[r].node
       case Array(items) =>
         (LessLeft(h, r, v);
          lo <= c && g[c].node.Array? && ItemsCopied(h, items, v + {r}, g, g[c].node.items, c + 1))
       case Object(members, _) =>
         (LessLeft(h, r, v);
          lo <= c && g[c].node.Object? && T.Valid(J.HashStr, g[c].node.members)
          && |g[c].node.members.order| == |members.order|
          && MembersCopied(h, members.order, |members.order|, v + {r}, g, g[c].node.members, c + 1))
       case Null => c == r && g[c].node == h[r].node
       case True => c == r && g[c].node == h[r].node
       case False => c == r && g[c].node == h[r].node
       case _ => lo <= c && g[c].node == h[r].node
  }

  ghost predicate SlotCopied(h: Heap, r: Ref, v: set<Ref>, g: Heap, c: Ref, lo: nat)
    requires Linked(h)
    decreases All(h) - v, 2, 0
  {
    Live(h, r) && Clear(h, r, v) && Copied(h, r, v, g, c, lo)
  }

  ghost predicate ItemsCopied(h: Heap, items: seq<Ref>, v: set<Ref>, g: Heap, cs: seq<Ref>, lo: nat)
    requires Linked(h)
    decreases All(h) - v, 3, 0
  {
    |cs| == |items| && forall i :: 0 <= i < |cs| ==> SlotCopied(h, items[i], v, g, cs[i], lo)
  }

  ghost predicate MembersCopied(h: Heap, order: seq<T.Pair<Text, Ref>>, n: nat, v: set<Ref>, g: Heap, members: Members,
          lo: nat)
    requires Linked(h) && n <= |order|
    decreases All(h) - v, 3, 0
  {
    forall i :: 0 <= i < n ==> MemberCopied(h, order[i], v, g, members, lo)
  }

  ghost predicate MemberCopied(h: Heap, p: T.Pair<Text, Ref>, v: set<Ref>, g: Heap, members: Members, lo: nat)
    requires Linked(h)
    decreases All(h) - v, 2, 1
  {
    T.Get(members, p.key).Some? && SlotCopied(h, p.value, v, g, T.Get(members, p.key).value, lo)
  }

  /** The nodes that a copy numbered from `lo` on may consist of are the same in `g` and in `k`. */
  ghost predicate Agree(h: Heap, g: Heap, k: Heap, lo: nat) {
    |g| <= |k| && forall q: Ref :: q < |g| && (q < |h| || lo <= q) ==> k[q].node == g[q].node
  }

  lemma {:induction false} CopiedStays(h: Heap, r: Ref, v: set<Ref>, g: Heap, c: Ref, lo: nat, k: Heap, lo': nat)
    requires Linked(h) && Live(h, r) && Clear(h, r, v) && Copied(h, r, v, g, c, lo) && Agree(h, g, k, lo) && lo' <= lo
    ensures Copied(h, r, v, k, c, lo')
    decreases All(h) - v, 1, 0
  {
    hide T.Valid, T.Get;
    match h[r].node
    case Array(items) =>
      LessLeft(h, r, v);
      var cs := g[c].node.items;
      forall i | 0 <= i < |cs| ensures SlotCopied(h, items[i], v + {r}, k, cs[i], c + 1) {
        assert SlotCopied(h, items[i], v + {r}, g, cs[i], c + 1);
        CopiedStays(h, items[i], v + {r}, g, cs[i], c + 1, k, c + 1);
      }
    case Object(members, _) =>
      LessLeft(h, r, v);
      MembersStay(h, members.order, |members.order|, v + {r}, g, g[c].node.members, c + 1, k);
    case _ =>
  }

  lemma {:induction false} MembersStay(h: Heap, order: seq<T.Pair<Text, Ref>>, n: nat, v: set<Ref>, g: Heap,
          members: Members, lo: nat, k: Heap)
    requires Linked(h) && n <= |order| && MembersCopied(h, order, n, v, g, members, lo) && Agree(h, g, k, lo)
    ensures MembersCopied(h, order, n, v, k, members, lo)
    decreases All(h) - v, 2, 0
  {
    forall i | 0 <= i < n ensures MemberCopied(h, order[i], v, k, members, lo) {
      assert MemberCopied(h, order[i], v, g, members, lo);
      assert SlotCopied(h, order[i].value, v, g, T.Get(members, order[i].key).value, lo);
      CopiedStays(h, order[i].value, v, g, T.Get(members, order[i].key).value, lo, k, lo);
    }
  }

  lemma ItemsStay(h: Heap, items: seq<Ref>, v: set<Ref>, g: Heap, cs: seq<Ref>, lo: nat, k: Heap)
    requires Linked(h) && ItemsCopied(h, items, v, g, cs, lo) && Agree(h, g, k, lo)
    ensures ItemsCopied(h, items, v, k, cs, lo)
  {
    forall i | 0 <= i < |cs| ensures SlotCopied(h, items[i], v, k, cs[i], lo) {
      assert SlotCopied(h, items[i], v, g, cs[i], lo);
      CopiedStays(h, items[i], v, g, cs[i], lo, k, lo);
    }
  }

  // ---------------------------------------------------------------- what a copy is

  /** A copy has no cycle, whatever marks there are below its numbers. */
  lemma {:induction false} CopyIsClear(h: Heap, r: Ref, v: set<Ref>, g: Heap, c: Ref, lo: nat, w: set<Ref>)
    requires Linked(h) && Live(h, r) && Clear(h, r, v) && Copied(h, r, v, g, c, lo)
    requires Linked(g) && Live(g, c) && forall q: Ref :: q in w ==> q < lo
    ensures Clear(g, c, w)
    decreases All(h) - v, 1, 0
  {
    hide T.Valid, T.Get;
    match h[r].node
    case Array(items) =>
      LessLeft(h, r, v);
      var cs := g[c].node.items;
      forall i | 0 <= i < |cs| ensures Live(g, cs[i]) && Clear(g, cs[i], w + {c}) {
        assert cs[i] in Children(g[c].node);
        assert SlotCopied(h, items[i], v + {r}, g, cs[i], c + 1);
        CopyIsClear(h, items[i], v + {r}, g, cs[i], c + 1, w + {c});
      }
      AllAreClear(g, cs, w + {c});
    case Object(members, _) =>
      LessLeft(h, r, v);
      MembersAreClear(h, members.order, v + {r}, g, g[c].node.members, c, w + {c});
    case _ =>
  }

  lemma {:induction false} AllAreClear(g: Heap, cs: seq<Ref>, w: set<Ref>)
    requires Linked(g) && forall i :: 0 <= i < |cs| ==> Live(g, cs[i]) && Clear(g, cs[i], w)
    ensures (forall c: Ref :: c in cs ==> Live(g, c)) && AllClear(g, cs, w)
    decreases |cs|
  {
    hide Clear, Linked;
    if cs != [] {
      AllAreClear(g, cs[1..], w);
    }
  }

  /** Every pair of a copied table is the copy of a pair: keys are distinct on both sides, and as many. */
  lemma CopiedPair(h: Heap, order: seq<T.Pair<Text, Ref>>, v: set<Ref>, g: Heap, members: Members, lo: nat, i: nat)
    returns (j: nat)
    requires Linked(h) && T.Distinct(order) && T.Distinct(members.order) && |members.order| == |order|
    requires MembersCopied(h, order, |order|, v, g, members, lo) && i < |members.order|
    ensures j < |order| && order[j].key == members.order[i].key &&
              SlotCopied(h, order[j].value, v, g, members.order[i].value, lo)
  {
    hide SlotCopied;
    SameKeys(h, order, v, g, members, lo);
    T.FindAt(members.order, i);
    assert members.order[i].key in T.Keys(members.order);
    j := T.Find(order, members.order[i].key);
    assert T.Lookup(order, members.order[i].key).Some?;
    assert MemberCopied(h, order[j], v, g, members, lo);
  }

  lemma SameKeys(h: Heap, order: seq<T.Pair<Text, Ref>>, v: set<Ref>, g: Heap, members: Members, lo: nat)
    requires Linked(h) && T.Distinct(order) && T.Distinct(members.order) && |members.order| == |order|
    requires MembersCopied(h, order, |order|, v, g, members, lo)
    ensures T.Keys(order) == T.Keys(members.order)
  {
    hide SlotCopied;
    forall k | k in T.Keys(order) ensures k in T.Keys(members.order) {
      var i := T.Find(order, k);
      assert MemberCopied(h, order[i], v, g, members, lo);
    }
    T.KeyCount(order);
    T.KeyCount(members.order);
    J.SameSizeKeys(T.Keys(order), T.Keys(members.order));
  }

  lemma {:induction false} MembersAreClear(h: Heap, order: seq<T.Pair<Text, Ref>>, v: set<Ref>, g: Heap,
          members: Members, c: Ref, w: set<Ref>)
    requires Linked(h) && T.Distinct(order) && T.Distinct(members.order) && |members.order| == |order|
    requires MembersCopied(h, order, |order|, v, g, members, c + 1)
    requires Linked(g) && Live(g, c) && g[c].node.Object? && g[c].node.members == members &&
              forall q: Ref :: q in w ==> q <= c
    ensures (forall q: Ref :: q in ValuesIn(members.order) ==> Live(g, q)) && AllClear(g, ValuesIn(members.order), w)
    decreases All(h) - v, 2, 0
  {
    hide Clear, T.Distinct, T.Get;
    var cs := ValuesIn(members.order);
    forall i | 0 <= i < |cs| ensures Live(g, cs[i]) && Clear(g, cs[i], w) {
      assert cs[i] in Children(g[c].node);
      ValuesAt(members.order, i);
      var j := CopiedPair(h, order, v, g, members, c + 1, i);
      CopyIsClear(h, order[j].value, v, g, cs[i], c + 1, w);
    }
    AllAreClear(g, cs, w);
  }

  /** A deep copy denotes the same value, so `json_equal` cannot tell it from the original. */
  lemma {:induction false} CopyDenotes(h: Heap, r: Ref, v: set<Ref>, g: Heap, c: Ref, lo: nat, w: set<Ref>)
    requires Linked(h) && Live(h, r) && Clear(h, r, v) && Copied(h, r, v, g, c, lo)
    requires Linked(g) && Live(g, c) && (forall q: Ref :: q in w ==> q < lo) && Clear(g, c, w)
    ensures J.ValueOf(Unfold(g, c, w)) == J.ValueOf(Unfold(h, r, v))
    decreases All(h) - v, 1, 0
  {
    hide T.Valid, T.Get;
    match h[r].node
    case Array(items) =>
      LessLeft(h, r, v);
      LessLeft(g, c, w);
      var cs := g[c].node.items;
      ItemsDenote(h, items, v + {r}, g, cs, c + 1, w + {c});
    case Object(members, _) =>
      ObjectDenotes(h, r, v, g, c, lo, w);
    case _ =>
  }

  lemma {:induction false} ItemsDenote(h: Heap, items: seq<Ref>, v: set<Ref>, g: Heap, cs: seq<Ref>, lo: nat,
          w: set<Ref>)
    requires Linked(h) && (forall q: Ref :: q in items ==> Live(h, q)) && AllClear(h, items, v) &&
              ItemsCopied(h, items, v, g, cs, lo)
    requires Linked(g) && (forall q: Ref :: q in cs ==> Live(g, q)) && AllClear(g, cs, w) &&
              forall q: Ref :: q in w ==> q < lo
    ensures J.ValuesOf(UnfoldItems(g, cs, w)) == J.ValuesOf(UnfoldItems(h, items, v))
    decreases All(h) - v, 2, |items|
  {
    hide Clear, J.ValueOf, Unfold, Linked, Copied;
    if items != [] {
      assert SlotCopied(h, items[0], v, g, cs[0], lo);
      CopyDenotes(h, items[0], v, g, cs[0], lo, w);
      forall i | 0 <= i < |cs[1..]| ensures SlotCopied(h, items[1..][i], v, g, cs[1..][i], lo) {
        assert SlotCopied(h, items[i + 1], v, g, cs[i + 1], lo);
      }
      ItemsDenote(h, items[1..], v, g, cs[1..], lo, w);
      var a, b := UnfoldItems(g, cs, w), UnfoldItems(h, items, v);
      assert a[1..] == UnfoldItems(g, cs[1..], w) && b[1..] == UnfoldItems(h, items[1..], v);
    }
  }

  lemma {:induction false} ObjectDenotes(h: Heap, r: Ref, v: set<Ref>, g: Heap, c: Ref, lo: nat, w: set<Ref>)
    requires Linked(h) && Live(h, r) && Clear(h, r, v) && Copied(h, r, v, g, c, lo) && h[r].node.Object?
    requires Linked(g) && Live(g, c) && (forall q: Ref :: q in w ==> q < lo) && Clear(g, c, w)
    ensures J.ValueOf(Unfold(g, c, w)) == J.ValueOf(Unfold(h, r, v))
    decreases All(h) - v, 0, 0
  {
    hide Clear, J.ValueOf, T.Get, T.MapOf, PairClear, EachClear, T.Valid, T.Distinct, MembersCopied;
    var a, b := Unfold(g, c, w), Unfold(h, r, v);
    var order, members := h[r].node.members.order, g[c].node.members;
    CopiedObject(h, r, v, g, c, lo);
    E.ObjectUnfolds(h, r, v);
    E.ObjectUnfolds(g, c, w);
    forall k: Text ensures k in D.DocMap(a) <==> k in D.DocMap(b)
                   ensures k in D.DocMap(a) ==> J.ValueOf(D.DocMap(a)[k]) == J.ValueOf(D.DocMap(b)[k])
    {
      DocMapAt(h, r, v, k);
      DocMapAt(g, c, w, k);
      SameKeysAt(h, order, v + {r}, g, members, c + 1, k);
      var i := T.Find(order, k);
      if i < |order| {
        CopiedAt(h, order, v + {r}, g, members, c + 1, i);
        var p := members.order[T.Find(members.order, k)];
        CopyDenotes(h, order[i].value, v + {r}, g, p.value, c + 1, w + {c});
      }
    }
    D.SameObject(a, b);
  }

  lemma CopiedObject(h: Heap, r: Ref, v: set<Ref>, g: Heap, c: Ref, lo: nat)
    requires Linked(h) && Live(h, r) && Clear(h, r, v) && Copied(h, r, v, g, c, lo) && h[r].node.Object?
    ensures lo <= c < |g| && g[c].node.Object? && T.Distinct(g[c].node.members.order) &&
              T.Distinct(h[r].node.members.order)
    ensures |g[c].node.members.order| == |h[r].node.members.order|
    ensures MembersCopied(h, h[r].node.members.order, |h[r].node.members.order|, v + {r}, g, g[c].node.members, c + 1)
    ensures All(h) - (v + {r}) < All(h) - v
  {
    LessLeft(h, r, v);
  }

  lemma SameKeysAt(h: Heap, order: seq<T.Pair<Text, Ref>>, v: set<Ref>, g: Heap, members: Members, lo: nat, k: Text)
    requires Linked(h) && T.Distinct(order) && T.Distinct(members.order) && |members.order| == |order|
    requires MembersCopied(h, order, |order|, v, g, members, lo)
    ensures T.Find(order, k) < |order| <==> T.Find(members.order, k) < |members.order|
  {
    SameKeys(h, order, v, g, members, lo);
    assert k in T.Keys(order) <==> T.Lookup(order, k).Some?;
    assert k in T.Keys(members.order) <==> T.Lookup(members.order, k).Some?;
  }

  lemma CopiedAt(h: Heap, order: seq<T.Pair<Text, Ref>>, v: set<Ref>, g: Heap, members: Members, lo: nat, i: nat)
    requires Linked(h) && i < |order| && MembersCopied(h, order, |order|, v, g, members, lo)
    ensures var j := T.Find(members.order, order[i].key);
            j < |members.order| && Live(h, order[i].value) && Clear(h, order[i].value, v) &&
                Copied(h, order[i].value, v, g, members.order[j].value, lo)
  {
    hide Copied, Clear;
    assert MemberCopied(h, order[i], v, g, members, lo);
  }

  /** What an unfolded object holds at a key. */
  lemma DocMapAt(h: Heap, r: Ref, v: set<Ref>, k: Text)
    requires Linked(h) && Live(h, r) && Clear(h, r, v) && h[r].node.Object?
    ensures var order := h[r].node.members.order; var i := T.Find(order, k); var d := Unfold(h, r, v);
            && d.Object? && (k in D.DocMap(d) <==> i < |order|)
            && (i < |order| ==>
                Live(h, order[i].value) && Clear(h, order[i].value, v + {r}) &&
                    D.DocMap(d)[k] == Unfold(h, order[i].value, v + {r}))
  {
    hide Clear, EachClear, PairClear, Linked, All;
    E.ObjectUnfolds(h, r, v);
    var members := h[r].node.members;
    E.GetUnfolds(h, members, k, v + {r});
    var t := T.Table(members.level, UnfoldPairs(h, members.order, v + {r}));
    T.GetIsLookup(t, k);
    if T.Find(members.order, k) < |members.order| {
      E.PairIsClear(h, members.order[T.Find(members.order, k)], v + {r});
    }
  }

  // ---------------------------------------------------------------- sharing

  /** Every node that a walk from the copy meets is new, or a singleton. */
  lemma {:induction false} CopyIsFresh(h: Heap, r: Ref, v: set<Ref>, g: Heap, c: Ref, lo: nat, p: seq<Ref>)
    requires Linked(h) && Live(h, r) && Clear(h, r, v) && Copied(h, r, v, g, c, lo) && WalkFrom(g, c, p)
    ensures forall i :: 0 <= i < |p| ==> lo <= p[i] || Singleton(g[p[i]].node)
    decreases |p|
  {
    hide T.Get, T.Valid, MembersCopied;
    if |p| > 1 {
      var q := p[1..];
      assert p[1] in Children(g[p[0]].node);
      assert forall i {:trigger q[i]} :: 0 <= i < |q| ==> q[i] == p[i + 1];
      assert Walk(g, q);
      var s, u := CopiedChild(h, r, v, g, c, lo, p[1]);
      CopyIsFresh(h, s, u, g, p[1], c + 1, q);
      forall i | 0 <= i < |p| ensures lo <= p[i] || Singleton(g[p[i]].node) {
        if i > 0 {
          assert p[i] == q[i - 1];
        } else {
          HasChildren(g[c].node, p[1]);
        }
      }
    }
  }

  /** A child of the copy is the copy of a child. */
  lemma CopiedChild(h: Heap, r: Ref, v: set<Ref>, g: Heap, c: Ref, lo: nat, x: Ref) returns (s: Ref, u: set<Ref>)
    requires Linked(h) && Live(h, r) && Clear(h, r, v) && Copied(h, r, v, g, c, lo) && x in Children(g[c].node)
    ensures Live(h, s) && Clear(h, s, u) && Copied(h, s, u, g, x, c + 1) && lo <= c
  {
    hide Clear, T.Get, MembersCopied;
    HasChildren(g[c].node, x);
    u := v + {r};
    if h[r].node.Array? {
      var i :| 0 <= i < |g[c].node.items| && g[c].node.items[i] == x;
      assert SlotCopied(h, h[r].node.items[i], u, g, x, c + 1);
      s := h[r].node.items[i];
    } else {
      CopiedObject(h, r, v, g, c, lo);
      var order := g[c].node.members.order;
      var i :| 0 <= i < |order| && ValuesIn(order)[i] == x;
      ValuesAt(order, i);
      var j := CopiedPair(h, h[r].node.members.order, u, g, g[c].node.members, c + 1, i);
      s := h[r].node.members.order[j].value;
    }
  }

  // ---------------------------------------------------------------- the copying loops

  /** The tidy heaps that the operations keep: slots lead to nodes, and every hash table is regular. */
  ghost predicate Tidy(g: Heap) {
    Linked(g) && forall q: Ref :: q < |g| ==> Regular(g, q)
  }

  lemma TidyAppend(g: Heap, node: Node)
    requires Tidy(g) && !node.Freed? && (node == Array([]) || node == EMPTY || !Container(node))
    ensures Tidy(g + [Cell(1, false, node)])
  {
    var k := g + [Cell(1, false, node)];
    forall q: Ref | Live(k, q)
      ensures (forall c: Ref :: c in Children(k[q].node) ==> Live(k, c)) &&
                (k[q].node.Object? ==> T.Distinct(k[q].node.members.order))
    {
      if q < |g| {
        assert Live(g, q);
      }
    }
    forall q: Ref | q < |k| ensures Regular(k, q) {
      if q < |g| {
        assert Regular(g, q);
      } else {
        assert T.Buckets(J.HashStr, T.Size(0), EMPTY.members.order) == [];
      }
    }
  }

  /** Another container's slots do not matter when one container gets a slot more. */
  lemma TidyUpdate(g: Heap, k: Heap, c: Ref)
    requires Tidy(g) && c < |g| == |k| && Live(k, c) && Live(g, c)
    requires forall q: Ref :: q < |g| && q != c ==> k[q].node == g[q].node
    requires (forall x: Ref :: x in Children(k[c].node) ==> Live(g, x)) && Regular(k, c)
    ensures Tidy(k)
  {
    hide ValuesIn, T.Valid;
    forall q: Ref ensures Live(k, q) <==> Live(g, q) {
    }
    forall q: Ref | Live(k, q)
      ensures (forall x: Ref :: x in Children(k[q].node) ==> Live(k, x)) &&
                (k[q].node.Object? ==> T.Distinct(k[q].node.members.order))
    {
      if q == c {
        RegularDistinct(k, c);
      }
    }
    forall q: Ref | q < |k| ensures Regular(k, q) {
      assert Regular(g, q);
    }
  }

  lemma RegularDistinct(k: Heap, c: Ref)
    requires c < |k| && Regular(k, c)
    ensures k[c].node.Object? ==> T.Distinct(k[c].node.members.order)
  {
  }

  /** `json_deep_copy`, of a node below which there is no cycle. */
  method DeepCopy(st: Store, r: Ref, ghost h: Heap, ghost v: set<Ref>) returns (c: Ref)
    requires st.Valid() && Tidy(st.cells) && Extends(h, st.cells)
    requires Linked(h) && Live(h, r) && Clear(h, r, v)
    modifies st
    ensures st.Valid() && st.owned == old(st.owned) + multiset{c} && Tidy(st.cells) && Extends(old(st.cells), st.cells)
    ensures c != NULL && Live(st.cells, c) && Copied(h, r, v, st.cells, c, |old(st.cells)|)
    decreases All(h) - v, 1, 0
  {
    hide Balanced, Tidy, Linked, Clear, T.Valid, MembersCopied, ItemsCopied, AllClear, All, Occurs, Slots, AllSlots;
    assert st.cells[r].node == h[r].node;
    if IsObject(st.cells, r) {
      c := ObjectDeepCopy(st, r, h, v);
    } else if IsArray(st.cells, r) {
      c := ArrayDeepCopy(st, r, h, v);
    } else if IsScalar(st.cells[r].node) {
      TidyAppend(st.cells, st.cells[r].node);
      c := NewNode(st, st.cells[r].node);
    } else {
      c := r;
      NotNull(st.cells, st.owned, h, r);
      AddUncounted(st.cells, st.owned, r);
      st.owned := st.owned + multiset{r};
    }
  }

  lemma NotNull(g: Heap, owned: multiset<Ref>, h: Heap, r: Ref)
    requires Balanced(g, owned) && Based(g) && Extends(h, g) && Live(h, r) && Live(g, r)
    ensures r != NULL && (Singleton(g[r].node) ==> g[r].refcount == SIZE_MAX)
  {
    assert BalancedAt(g, owned, NULL);
  }

  lemma ExtendsTwice(a: Heap, b: Heap, c: Heap)
    requires Extends(a, b) && Extends(b, c)
    ensures Extends(a, c)
  {
  }

  // arrays

  lemma ItemIsClear(h: Heap, r: Ref, v: set<Ref>, i: nat)
    requires Linked(h) && Live(h, r) && Clear(h, r, v) && h[r].node.Array? && i < |h[r].node.items|
    ensures Live(h, h[r].node.items[i]) && Clear(h, h[r].node.items[i], v + {r}) && All(h) - (v + {r}) < All(h) - v
  {
    LessLeft(h, r, v);
    assert h[r].node.items[i] in Children(h[r].node);
    AllClearAt(h, h[r].node.items, v + {r}, h[r].node.items[i]);
  }

  /** Where the loop of `json_array_deep_copy` stands. */
  ghost predicate ArrayCopying(g: Heap, owned: multiset<Ref>, h: Heap, r: Ref, v: set<Ref>, before: Heap, c: Ref,
          i: nat)
    requires Linked(h) && Live(h, r) && h[r].node.Array? && i <= |h[r].node.items|
  {
    && c == |before| < |g| && |h| <= c && Extends(before, g) && Tidy(g) && c in owned && IsArray(g, c)
    && ItemsCopied(h, h[r].node.items[..i], v + {r}, g, g[c].node.items, c + 1)
  }

  lemma ArrayCopyingIs(g: Heap, owned: multiset<Ref>, h: Heap, r: Ref, v: set<Ref>, before: Heap, c: Ref, i: nat)
    requires Linked(h) && Live(h, r) && h[r].node.Array? && i <= |h[r].node.items|
    requires ArrayCopying(g, owned, h, r, v, before, c, i) && Extends(h, before)
    ensures c == |before| < |g| && |h| <= c && Extends(before, g) && Tidy(g) && c in owned && IsArray(g, c)
    ensures Extends(h, g) && g[r].node == h[r].node
  {
    hide Tidy, ItemsCopied;
  }

  lemma ItemAppended(g: Heap, k: Heap, m: Heap, owned: multiset<Ref>, h: Heap, r: Ref, v: set<Ref>, before: Heap,
          c: Ref, i: nat, x: Ref)
    requires Linked(h) && Live(h, r) && Clear(h, r, v) && h[r].node.Array? && i < |h[r].node.items|
    requires ArrayCopying(g, owned, h, r, v, before, c, i) && Extends(g, k) && Tidy(k)
    requires SlotCopied(h, h[r].node.items[i], v + {r}, k, x, |g|) && Live(k, x)
    requires m == k[c := k[c].(node := Array(k[c].node.items + [x]))]
    ensures ArrayCopying(m, owned, h, r, v, before, c, i + 1)
  {
    hide Linked, Clear, Copied, Tidy, ItemsCopied, All;
    var items, u := h[r].node.items, v + {r};
    assert Agree(h, g, k, c + 1) && Agree(h, k, m, c + 1);
    ItemsStay(h, items[..i], u, g, g[c].node.items, c + 1, k);
    ItemsStay(h, items[..i], u, k, k[c].node.items, c + 1, m);
    CopiedStays(h, items[i], u, k, x, |g|, m, c + 1);
    OneMoreCopied(h, items, i, u, m, k[c].node.items, x, c + 1);
    SlotsAreLive(k, c);
    TidyUpdate(k, m, c);
  }

  lemma SlotsAreLive(k: Heap, c: Ref)
    requires Tidy(k) && Live(k, c)
    ensures forall x: Ref :: x in Children(k[c].node) ==> Live(k, x)
  {
  }

  lemma OneMoreCopied(h: Heap, items: seq<Ref>, i: nat, v: set<Ref>, g: Heap, cs: seq<Ref>, x: Ref, lo: nat)
    requires Linked(h) && i < |items| && ItemsCopied(h, items[..i], v, g, cs, lo) &&
              SlotCopied(h, items[i], v, g, x, lo)
    ensures ItemsCopied(h, items[..i + 1], v, g, cs + [x], lo)
  {
    hide SlotCopied, Linked;
    forall j | 0 <= j < |cs + [x]| ensures SlotCopied(h, items[..i + 1][j], v, g, (cs + [x])[j], lo) {
      if j < i {
        assert SlotCopied(h, items[..i][j], v, g, cs[j], lo);
      }
    }
  }

  lemma ArrayCopyStarts(g: Heap, owned: multiset<Ref>, h: Heap, r: Ref, v: set<Ref>, before: Heap)
    requires Linked(h) && Live(h, r) && h[r].node.Array? && Extends(h, before) && Tidy(before)
    requires g == before + [Cell(1, false, Array([]))] && |before| in owned
    ensures ArrayCopying(g, owned, h, r, v, before, |before|, 0)
  {
    hide Linked, Tidy;
    TidyAppend(before, Array([]));
  }

  lemma ArrayCopyEnds(g: Heap, owned: multiset<Ref>, h: Heap, r: Ref, v: set<Ref>, before: Heap, c: Ref)
    requires Linked(h) && Live(h, r) && Clear(h, r, v) && h[r].node.Array?
    requires ArrayCopying(g, owned, h, r, v, before, c, |h[r].node.items|)
    ensures Copied(h, r, v, g, c, |before|)
  {
    hide Linked, Tidy, ItemsCopied;
    assert h[r].node.items[..|h[r].node.items|] == h[r].node.items;
  }

  /** `json_array_deep_copy`. */
  method ArrayDeepCopy(st: Store, r: Ref, ghost h: Heap, ghost v: set<Ref>) returns (c: Ref)
    requires st.Valid() && Tidy(st.cells) && Extends(h, st.cells)
    requires Linked(h) && Live(h, r) && Clear(h, r, v) && h[r].node.Array?
    modifies st
    ensures st.Valid() && st.owned == old(st.owned) + multiset{c} && Tidy(st.cells) && Extends(old(st.cells), st.cells)
    ensures c != NULL && Live(st.cells, c) && Copied(h, r, v, st.cells, c, |old(st.cells)|)
    decreases All(h) - v, 0, 0
  {
    hide Balanced, Tidy, Linked, Clear, Copied, ItemsCopied, All, Occurs, Slots, AllSlots, Tight, ArrayCopying,
        References, Survives, Extends;
    ghost var before := st.cells;
    c := NewNode(st, Array([]));
    hide Children;
    ArrayCopyStarts(st.cells, st.owned, h, r, v, before);
    ArrayCopyingIs(st.cells, st.owned, h, r, v, before, c, 0);
    var i := 0;
    while i < |st.cells[r].node.items|
      invariant 0 <= i <= |h[r].node.items| && st.Valid() && st.owned == old(st.owned) + multiset{c}
      invariant ArrayCopying(st.cells, st.owned, h, r, v, before, c, i)
      invariant Extends(h, st.cells) && r < |st.cells| && st.cells[r].node == h[r].node
    {
      ArrayCopyingIs(st.cells, st.owned, h, r, v, before, c, i);
      ItemIsClear(h, r, v, i);
      ghost var g := st.cells;
      var x := DeepCopy(st, st.cells[r].node.items[i], h, v + {r});
      ghost var k := st.cells;
      KeptCell(g, k, c);
      NewOrOld(h, h[r].node.items[i], v + {r}, k, x, |g|);
      var _ := ArrayAppendNew(st, c, x);
      GivenBack(old(st.owned) + multiset{c}, x);
      ItemAppended(g, k, st.cells, st.owned, h, r, v, before, c, i, x);
      i := i + 1;
      ArrayCopyingIs(st.cells, st.owned, h, r, v, before, c, i);
    }
    ArrayCopyingIs(st.cells, st.owned, h, r, v, before, c, i);
    ArrayCopyEnds(st.cells, st.owned, h, r, v, before, c);
    NotNullCopy(st.cells, st.owned, c);
  }

  lemma KeptCell(g: Heap, k: Heap, c: Ref)
    requires Extends(g, k) && c < |g|
    ensures c < |g| <= |k| && k[c].node == g[c].node
  {
  }

  lemma GivenBack(a: multiset<Ref>, x: Ref)
    ensures a + multiset{x} - multiset{x} == a
  {
  }

  lemma NotNullCopy(g: Heap, owned: multiset<Ref>, c: Ref)
    requires Balanced(g, owned) && Live(g, c)
    ensures c != NULL
  {
    assert BalancedAt(g, owned, NULL);
  }

  /** A copy is a new node, or one that was there from the start. */
  lemma NewOrOld(h: Heap, r: Ref, v: set<Ref>, g: Heap, c: Ref, lo: nat)
    requires Linked(h) && Live(h, r) && Clear(h, r, v) && Copied(h, r, v, g, c, lo)
    ensures lo <= c || c < |h|
  {
  }

  // objects

  lemma MemberIsClear(h: Heap, r: Ref, v: set<Ref>, i: nat)
    requires Linked(h) && Live(h, r) && Clear(h, r, v) && h[r].node.Object? && i < |h[r].node.members.order|
    ensures var x := h[r].node.members.order[i].value;
            Live(h, x) && Clear(h, x, v + {r}) && All(h) - (v + {r}) < All(h) - v
  {
    LessLeft(h, r, v);
    PairsClear(h, h[r].node.members.order, v + {r});
    assert PairClear(h, h[r].node.members.order[i], v + {r});
  }

  /** Where the loop of `json_object_deep_copy` stands. */
  ghost predicate ObjectCopying(g: Heap, owned: multiset<Ref>, h: Heap, r: Ref, v: set<Ref>, before: Heap, c: Ref,
          i: nat)
    requires Linked(h) && Live(h, r) && h[r].node.Object? && i <= |h[r].node.members.order|
  {
    && c == |before| < |g| && |h| <= c && Extends(before, g) && Tidy(g) && c in owned && IsObject(g, c)
    && |g[c].node.members.order| == i
    && MembersCopied(h, h[r].node.members.order, i, v + {r}, g, g[c].node.members, c + 1)
    && forall j :: i <= j < |h[r].node.members.order| ==> T.Get(g[c].node.members, h[r].node.members.order[j].key).None?
  }

  lemma ObjectCopyingIs(g: Heap, owned: multiset<Ref>, h: Heap, r: Ref, v: set<Ref>, before: Heap, c: Ref, i: nat)
    requires Linked(h) && Live(h, r) && h[r].node.Object? && i <= |h[r].node.members.order|
    requires ObjectCopying(g, owned, h, r, v, before, c, i) && Extends(h, before)
    ensures c == |before| < |g| && |h| <= c && Extends(before, g) && Tidy(g) && c in owned && IsObject(g, c)
    ensures Extends(h, g) && g[r].node == h[r].node
    ensures forall j :: i <= j < |h[r].node.members.order| ==>
              T.Get(g[c].node.members, h[r].node.members.order[j].key).None?
  {
    hide Tidy, MembersCopied, T.Get;
  }

  lemma ExtendsAgree(h: Heap, g: Heap, k: Heap, lo: nat)
    requires Extends(g, k) || g == k
    ensures Agree(h, g, k, lo)
  {
  }

  lemma NewKey(k: Heap, owned: multiset<Ref>, c: Ref, key: Text, s: set<Ref>)
    requires IsObject(k, c) && T.Get(k[c].node.members, key).None?
    ensures SparesAt(k, owned, c, key, s) && Harmless(T.Get(k[c].node.members, key), owned)
  {
    hide T.Get;
  }

  lemma ExtendsAfter(before: Heap, k: Heap, m: Heap, c: Ref)
    requires Extends(before, k) && |before| <= c < |k| == |m| && SameNodes(k[c := m[c]], m)
    ensures Extends(before, m)
  {
  }

  lemma MemberSet(h: Heap, order: seq<T.Pair<Text, Ref>>, i: nat, v: set<Ref>, k: Heap, m: Heap, c: Ref, x: Ref,
          lo: nat)
    requires Linked(h) && i < |order| && T.Distinct(order) && |h| <= c < lo && c < |k| == |m| &&
              SameNodes(k[c := m[c]], m)
    requires IsObject(k, c) && T.Valid(J.HashStr, k[c].node.members) && m[c].node == SetNode(k[c].node, order[i].key, x)
    requires MembersCopied(h, order, i, v, k, k[c].node.members, lo) && SlotCopied(h, order[i].value, v, k, x, lo)
    requires forall j :: i <= j < |order| ==> T.Get(k[c].node.members, order[j].key).None?
    ensures MembersCopied(h, order, i + 1, v, m, m[c].node.members, lo)
    ensures forall j :: i + 1 <= j < |order| ==> T.Get(m[c].node.members, order[j].key).None?
    ensures |m[c].node.members.order| == |k[c].node.members.order| + 1
  {
    hide SetNode, T.Valid, T.Get, SlotCopied;
    assert Agree(h, k, m, lo);
    MembersStay(h, order, i, v, k, k[c].node.members, lo, m);
    SlotStays(h, order[i].value, v, k, x, lo, m);
    SetNodeSize(k[c].node, order[i].key, x);
    forall j | 0 <= j < i + 1 ensures MemberCopied(h, order[j], v, m, m[c].node.members, lo) {
      SetNodeGet(k[c].node, order[i].key, x, order[j].key);
      if j < i {
        assert MemberCopied(h, order[j], v, m, k[c].node.members, lo);
      }
    }
    forall j | i + 1 <= j < |order| ensures T.Get(m[c].node.members, order[j].key).None? {
      SetNodeGet(k[c].node, order[i].key, x, order[j].key);
    }
  }

  lemma SlotStays(h: Heap, r: Ref, v: set<Ref>, g: Heap, c: Ref, lo: nat, k: Heap)
    requires Linked(h) && SlotCopied(h, r, v, g, c, lo) && Agree(h, g, k, lo)
    ensures SlotCopied(h, r, v, k, c, lo)
  {
    CopiedStays(h, r, v, g, c, lo, k, lo);
  }

  lemma TidyAfterSet(k: Heap, m: Heap, c: Ref, key: Text, x: Ref)
    requires Tidy(k) && IsObject(k, c) && |m| == |k| && SameNodes(k[c := m[c]], m) &&
              m[c].node == SetNode(k[c].node, key, x) && Live(k, x)
    requires x != NULL
    ensures Tidy(m)
  {
    hide SetNode, Linked;
    assert Regular(k, c);
    SetNodeMap(k[c].node, key, x);
    forall y: Ref | y in Children(m[c].node) ensures Live(k, y) && y != NULL {
      SetNodeChild(k[c].node, key, x, y);
      SlotsAreLive(k, c);
      assert y == x || y in Children(k[c].node);
    }
    TidyUpdate(k, m, c);
  }

  lemma MemberAdded(g: Heap, k: Heap, m: Heap, owned: multiset<Ref>, h: Heap, r: Ref, v: set<Ref>, before: Heap,
          c: Ref, i: nat, x: Ref)
    requires Linked(h) && Live(h, r) && h[r].node.Object? && i < |h[r].node.members.order|
    requires ObjectCopying(g, owned, h, r, v, before, c, i) && Extends(g, k) && Tidy(k)
    requires SlotCopied(h, h[r].node.members.order[i].value, v + {r}, k, x, |g|) && Live(k, x) && x != NULL
    requires |m| == |k| && SameNodes(k[c := m[c]], m) &&
              m[c].node == SetNode(k[c].node, h[r].node.members.order[i].key, x)
    ensures ObjectCopying(m, owned, h, r, v, before, c, i + 1)
  {
    hide Clear, Copied, MembersCopied, All, SetNode, T.Valid, T.Get, Tidy, Extends, SameNodes, Agree;
    var order, u := h[r].node.members.order, v + {r};
    ExtendsAgree(h, g, k, c + 1);
    KeptCell(g, k, c);
    MembersStay(h, order, i, u, g, g[c].node.members, c + 1, k);
    ExtendsAgree(h, k, k, |g|);
    CopiedStays(h, order[i].value, u, k, x, |g|, k, c + 1);
    TidyRegular(k, c);
    MemberSet(h, order, i, u, k, m, c, x, c + 1);
    TidyAfterSet(k, m, c, order[i].key, x);
    ExtendsTwice(before, g, k);
    ExtendsAfter(before, k, m, c);
  }

  lemma TidyRegular(k: Heap, c: Ref)
    requires Tidy(k) && c < |k|
    ensures Regular(k, c)
  {
  }

  lemma ObjectCopyStarts(g: Heap, owned: multiset<Ref>, h: Heap, r: Ref, v: set<Ref>, before: Heap)
    requires Linked(h) && Live(h, r) && h[r].node.Object? && Extends(h, before) && Tidy(before)
    requires g == before + [Cell(1, false, EMPTY)] && |before| in owned
    ensures ObjectCopying(g, owned, h, r, v, before, |before|, 0)
  {
    hide Linked, Tidy;
    TidyAppend(before, EMPTY);
  }

  lemma ObjectCopyEnds(g: Heap, owned: multiset<Ref>, h: Heap, r: Ref, v: set<Ref>, before: Heap, c: Ref)
    requires Linked(h) && Live(h, r) && Clear(h, r, v) && h[r].node.Object?
    requires ObjectCopying(g, owned, h, r, v, before, c, |h[r].node.members.order|)
    ensures Copied(h, r, v, g, c, |before|)
  {
    hide Linked, MembersCopied;
    TidyRegular(g, c);
  }

  /** `json_object_deep_copy`; the serials of the copy start anew. */
  method ObjectDeepCopy(st: Store, r: Ref, ghost h: Heap, ghost v: set<Ref>) returns (c: Ref)
    requires st.Valid() && Tidy(st.cells) && Extends(h, st.cells)
    requires Linked(h) && Live(h, r) && Clear(h, r, v) && h[r].node.Object?
    modifies st
    ensures st.Valid() && st.owned == old(st.owned) + multiset{c} && Tidy(st.cells) && Extends(old(st.cells), st.cells)
    ensures c != NULL && Live(st.cells, c) && Copied(h, r, v, st.cells, c, |old(st.cells)|)
    decreases All(h) - v, 0, 0
  {
    hide Balanced, Tidy, Linked, Clear, Copied, MembersCopied, All, Occurs, Slots, AllSlots, Tight, T.Valid, T.Get,
        SetNode, Guarded, ObjectCopying, References, Survives, Extends, Spares, SparesAt, Outside, Harmless, SameNodes;
    ghost var before := st.cells;
    c := NewNode(st, EMPTY);
    hide Children;
    ObjectCopyStarts(st.cells, st.owned, h, r, v, before);
    ObjectCopyingIs(st.cells, st.owned, h, r, v, before, c, 0);
    var i := 0;
    while i < |st.cells[r].node.members.order|
      invariant 0 <= i <= |h[r].node.members.order| && st.Valid() && st.owned == old(st.owned) + multiset{c}
      invariant ObjectCopying(st.cells, st.owned, h, r, v, before, c, i)
      invariant Extends(h, st.cells) && r < |st.cells| && st.cells[r].node == h[r].node
    {
      ObjectCopyingIs(st.cells, st.owned, h, r, v, before, c, i);
      MemberIsClear(h, r, v, i);
      ghost var g := st.cells;
      var p := st.cells[r].node.members.order[i];
      var x := DeepCopy(st, p.value, h, v + {r});
      ghost var k := st.cells;
      KeptCell(g, k, c);
      NewOrOld(h, h[r].node.members.order[i].value, v + {r}, k, x, |g|);
      NewKey(k, st.owned, c, p.key, Everything(k));
      TidyRegular(k, c);
      var _ := ObjectSetNewNocheck(st, c, Some(p.key), x, Everything(k));
      GivenBack(old(st.owned) + multiset{c}, x);
      MemberAdded(g, k, st.cells, st.owned, h, r, v, before, c, i, x);
      i := i + 1;
      ObjectCopyingIs(st.cells, st.owned, h, r, v, before, c, i);
    }
    ObjectCopyingIs(st.cells, st.owned, h, r, v, before, c, i);
    ObjectCopyEnds(st.cells, st.owned, h, r, v, before, c);
    NotNullCopy(st.cells, st.owned, c);
  }

  /**
   `json_deep_copy` of a node of an acyclic graph: the copy is equal, no node that can be changed is
   shared, and nothing of the original is changed.
   */
  method DeepCopyWhole(st: Store, r: Ref) returns (c: Ref)
    requires st.Valid() && Tidy(st.cells) && Live(st.cells, r) && !CycleReachable(st.cells, r)
    modifies st
    ensures st.Valid() && st.owned == old(st.owned) + multiset{c} && Tidy(st.cells) && Extends(old(st.cells), st.cells)
    ensures Live(st.cells, c) && Clear(old(st.cells), r, {}) && Clear(st.cells, c, {})
    ensures J.Equal(Unfold(old(st.cells), r, {}), Unfold(st.cells, c, {}))
    ensures forall p: seq<Ref> | WalkFrom(st.cells, c, p) :: forall i :: 0 <= i < |p| ==>
              p[i] >= |old(st.cells)| || Singleton(st.cells[p[i]].node)
  {
    hide Balanced, Clear, Copied, J.Equal, Unfold, CycleReachable, WalkFrom;
    ghost var h := st.cells;
    ClearIffAcyclic(h, r);
    c := DeepCopy(st, r, h, {});
    ghost var g := st.cells;
    CopyIsClear(h, r, {}, g, c, |h|, {});
    CopyDenotes(h, r, {}, g, c, |h|, {});
    E.UnfoldWellFormed(h, r, {});
    E.UnfoldWellFormed(g, c, {});
    J.EqualIsSameValue(Unfold(h, r, {}), Unfold(g, c, {}));
    forall p: seq<Ref> | WalkFrom(g, c, p) ensures forall i :: 0 <= i < |p| ==> p[i] >= |h| || Singleton(g[p[i]].node) {
      CopyIsFresh(h, r, {}, g, c, |h|, p);
    }
  }
}
