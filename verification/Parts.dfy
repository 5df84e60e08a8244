/** The part of a heap that is reachable from a node: what is printed depends on nothing else. */
module Parts {
  import opened Bytes
  import opened Graphs
  import opened Heaps
  import opened Printing
  import J = Json
  import T = Tables

  // ---------------------------------------------------------------- reachable nodes

  ghost predicate Reaches(h: Heap, r: Ref, q: Ref) {
    exists p: seq<Ref> :: WalkFrom(h, r, p) && p[|p| - 1] == q
  }

  ghost function Below(h: Heap, r: Ref): set<Ref> {
    set q: Ref | 0 <= q < |h| && Reaches(h, r, q)
  }

  lemma RootIsBelow(h: Heap, r: Ref)
    requires Live(h, r)
    ensures r in Below(h, r)
  {
    WalkHere(h, r);
    assert [r][|[r]| - 1] == r;
  }

  lemma BelowIsClosed(h: Heap, r: Ref)
    requires Linked(h)
    ensures Closed(h, Below(h, r))
  {
    forall q: Ref, c: Ref | q in Below(h, r) && q < |h| && c in Children(h[q].node) ensures c in Below(h, r) {
      var p: seq<Ref> :| WalkFrom(h, r, p) && p[|p| - 1] == q;
      WalkOn(h, r, p, c);
      assert (p + [c])[|p + [c]| - 1] == c;
    }
  }

  lemma WalkOn(h: Heap, r: Ref, p: seq<Ref>, c: Ref)
    requires Linked(h) && WalkFrom(h, r, p) && c in Children(h[p[|p| - 1]].node)
    ensures WalkFrom(h, r, p + [c]) && Live(h, c)
  {
    hide Children;
    var w := p + [c];
    forall i {:trigger w[i]} | 0 < i < |w| ensures w[i] in Children(h[w[i - 1]].node) {
      if i < |p| {
        assert w[i] == p[i] && w[i - 1] == p[i - 1];
      }
    }
  }

  /** Every node below `r` can be written. */
  ghost predicate WritableFrom(h: Heap, r: Ref) {
    Linked(h) && forall q: Ref :: q in Below(h, r) ==> WritableNode(h[q].node)
  }

  // ---------------------------------------------------------------- the heap without the other nodes

  ghost function Only(h: Heap, s: set<Ref>): (g: Heap)
    ensures |g| == |h|
    ensures forall q: Ref :: q < |h| ==> g[q] == if q in s then h[q] else h[q].(node := Freed)
  {
    seq(|h|, q requires 0 <= q < |h| => if q in s then h[q] else h[q].(node := Freed))
  }

  lemma OnlyIsLinked(h: Heap, s: set<Ref>)
    requires Linked(h) && Closed(h, s)
    ensures Linked(Only(h, s))
  {
    var g := Only(h, s);
    forall r: Ref | Live(g, r)
      ensures (forall c: Ref :: c in Children(g[r].node) ==> Live(g, c)) &&
              (g[r].node.Object? ==> T.Distinct(g[r].node.members.order))
    {
      assert g[r] == h[r] && r in s && Live(h, r);
    }
  }

  lemma OnlyIsWritable(h: Heap, r: Ref)
    requires WritableFrom(h, r)
    ensures Linked(Only(h, Below(h, r))) && Writable(Only(h, Below(h, r)))
  {
    BelowIsClosed(h, r);
    OnlyIsLinked(h, Below(h, r));
  }

  lemma ChildrenKept(h: Heap, s: set<Ref>, r: Ref)
    requires Linked(h) && Closed(h, s) && Live(h, r) && r in s
    ensures Linked(Only(h, s)) && Live(Only(h, s), r) && Only(h, s)[r] == h[r] && All(Only(h, s)) == All(h)
    ensures forall c: Ref :: c in Children(h[r].node) ==> Live(h, c) && c in s && Live(Only(h, s), c)
  {
    OnlyIsLinked(h, s);
    assert forall q: Ref :: Here(Only(h, s), q) <==> Here(h, q);
  }

  /** The search from a node does not see what is not reachable. */
  lemma {:induction false} OnlyClear(h: Heap, s: set<Ref>, r: Ref, v: set<Ref>)
    requires Linked(h) && Closed(h, s) && Live(h, r) && r in s
    ensures Linked(Only(h, s)) && Live(Only(h, s), r)
    ensures Clear(Only(h, s), r, v) <==> Clear(h, r, v)
    decreases All(h) - v, 1, 0
  {
    hide Children, All, Closed, Linked;
    ChildrenKept(h, s, r);
    if Container(h[r].node) && r !in v {
      LessLeft(h, r, v);
      OnlyAllClear(h, s, Children(h[r].node), v + {r});
    }
  }

  lemma {:induction false} OnlyAllClear(h: Heap, s: set<Ref>, items: seq<Ref>, v: set<Ref>)
    requires Linked(h) && Closed(h, s) && forall c: Ref :: c in items ==> Live(h, c) && c in s
    ensures Linked(Only(h, s)) && forall c: Ref :: c in items ==> Live(Only(h, s), c)
    ensures AllClear(Only(h, s), items, v) <==> AllClear(h, items, v)
    decreases All(h) - v, 2, |items|
  {
    hide Children, All, Closed, Linked, Clear;
    OnlyIsLinked(h, s);
    if items != [] {
      OnlyClear(h, s, items[0], v);
      OnlyAllClear(h, s, items[1..], v);
    }
  }

  /** Nor does the unfolding. */
  lemma {:induction false} OnlyUnfolds(h: Heap, s: set<Ref>, r: Ref, v: set<Ref>)
    requires Linked(h) && Closed(h, s) && Live(h, r) && r in s && Clear(h, r, v)
    ensures Linked(Only(h, s)) && Live(Only(h, s), r) && Clear(Only(h, s), r, v)
    ensures Unfold(Only(h, s), r, v) == Unfold(h, r, v)
    decreases All(h) - v, 1, 0
  {
    hide All, Closed, Linked, UnfoldItems, UnfoldPairs;
    ChildrenKept(h, s, r);
    OnlyClear(h, s, r, v);
    match h[r].node
    case Array(items) =>
      LessLeft(h, r, v);
      OnlyItems(h, s, items, v + {r});
    case Object(members, _) =>
      LessLeft(h, r, v);
      PairsClear(h, members.order, v + {r});
      forall i | 0 <= i < |members.order| ensures members.order[i].value in s {
        PairValue(members.order, i);
      }
      OnlyPairs(h, s, members.order, v + {r});
    case _ =>
  }

  lemma {:induction false} OnlyItems(h: Heap, s: set<Ref>, items: seq<Ref>, v: set<Ref>)
    requires Linked(h) && Closed(h, s) && (forall c: Ref :: c in items ==> Live(h, c) && c in s) &&
              AllClear(h, items, v)
    ensures Linked(Only(h, s)) && (forall c: Ref :: c in items ==> Live(Only(h, s), c))
    ensures AllClear(Only(h, s), items, v) && UnfoldItems(Only(h, s), items, v) == UnfoldItems(h, items, v)
    decreases All(h) - v, 2, |items|
  {
    hide All, Closed, Linked, Clear, Unfold;
    OnlyAllClear(h, s, items, v);
    if items != [] {
      OnlyUnfolds(h, s, items[0], v);
      OnlyItems(h, s, items[1..], v);
    }
  }

  lemma {:induction false} OnlyPairs(h: Heap, s: set<Ref>, order: seq<T.Pair<Text, Ref>>, v: set<Ref>)
    requires Linked(h) && Closed(h, s) && EachClear(h, order, v)
    requires forall i :: 0 <= i < |order| ==> order[i].value in s
    ensures Linked(Only(h, s)) && EachClear(Only(h, s), order, v)
    ensures UnfoldPairs(Only(h, s), order, v) == UnfoldPairs(h, order, v)
    decreases All(h) - v, 2, |order|
  {
    hide All, Closed, Linked, Clear, Unfold;
    OnlyIsLinked(h, s);
    if order != [] {
      assert PairClear(h, order[0], v);
      OnlyUnfolds(h, s, order[0].value, v);
      assert EachClear(h, order[1..], v);
      OnlyPairs(h, s, order[1..], v);
      forall i | 0 <= i < |order| ensures PairClear(Only(h, s), order[i], v) {
        if i > 0 {
          assert order[i] == order[1..][i - 1];
        }
      }
    }
  }

  lemma {:induction false} PairValue(order: seq<T.Pair<Text, Ref>>, i: nat)
    requires i < |order|
    ensures order[i].value in ValuesIn(order)
  {
    if i > 0 {
      PairValue(order[1..], i - 1);
    }
  }

  // ---------------------------------------------------------------- the text of what is reachable

  /** What is written for the graph below `r`. */
  ghost function GraphText(h: Heap, r: Ref, flags: Flags): Text
    requires WritableFrom(h, r) && Live(h, r) && Clear(h, r, {})
  {
    UnfoldsToPrintable(h, r);
    Print(Unfold(h, r, {}), flags, 0)
  }

  lemma UnfoldsToPrintable(h: Heap, r: Ref)
    requires WritableFrom(h, r) && Live(h, r) && Clear(h, r, {})
    ensures Printable(Unfold(h, r, {}))
  {
    hide Clear, Unfold, Printable, Closed, Linked, Writable;
    RootIsBelow(h, r);
    BelowIsClosed(h, r);
    OnlyIsWritable(h, r);
    OnlyUnfolds(h, Below(h, r), r, {});
    UnfoldPrintable(Only(h, Below(h, r)), r, {});
  }

  /** The text of the heap without the other nodes. */
  lemma OnlyText(h: Heap, r: Ref, flags: Flags)
    requires WritableFrom(h, r) && Live(h, r)
    ensures var g := Only(h, Below(h, r));
            && Writable(g) && Live(g, r) && (Clear(g, r, {}) <==> Clear(h, r, {}))
            && (Clear(h, r, {}) ==> TextOf(g, r, {}, flags, 0) == GraphText(h, r, flags))
  {
    hide Clear, Unfold, Printable, Closed, Linked, Writable;
    RootIsBelow(h, r);
    BelowIsClosed(h, r);
    OnlyIsWritable(h, r);
    OnlyClear(h, Below(h, r), r, {});
    if Clear(h, r, {}) {
      OnlyUnfolds(h, Below(h, r), r, {});
    }
  }
}
