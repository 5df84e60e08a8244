/** `json_equal` on the heap: it compares what two acyclic graphs unfold to. */
module HeapEqual {
  import opened Bytes
  import opened Graphs
  import opened Heaps
  import J = Json
  import T = Tables

  // ---------------------------------------------------------------- unfolding does not depend on the marks

  lemma {:induction false} UnfoldSame(h: Heap, r: Ref, v: set<Ref>, w: set<Ref>)
    requires Linked(h) && Live(h, r) && Clear(h, r, v) && Clear(h, r, w)
    ensures Unfold(h, r, v) == Unfold(h, r, w)
    decreases All(h) - v, 1, 0
  {
    match h[r].node
    case Array(items) =>
      LessLeft(h, r, v);
      UnfoldItemsSame(h, items, v + {r}, w + {r});
    case Object(members, serial) =>
      LessLeft(h, r, v);
      PairsClear(h, members.order, v + {r});
      PairsClear(h, members.order, w + {r});
      UnfoldPairsSame(h, members.order, v + {r}, w + {r});
    case _ =>
  }

  lemma {:induction false} UnfoldItemsSame(h: Heap, items: seq<Ref>, v: set<Ref>, w: set<Ref>)
    requires Linked(h) && (forall c: Ref :: c in items ==> Live(h, c)) && AllClear(h, items, v) && AllClear(h, items, w)
    ensures UnfoldItems(h, items, v) == UnfoldItems(h, items, w)
    decreases All(h) - v, 2, |items|
  {
    if items != [] {
      UnfoldSame(h, items[0], v, w);
      UnfoldItemsSame(h, items[1..], v, w);
    }
  }

  lemma {:induction false} UnfoldPairsSame(h: Heap, order: seq<T.Pair<Text, Ref>>, v: set<Ref>, w: set<Ref>)
    requires Linked(h) && EachClear(h, order, v) && EachClear(h, order, w)
    ensures UnfoldPairs(h, order, v) == UnfoldPairs(h, order, w)
    decreases All(h) - v, 2, |order|
  {
    if order != [] {
      assert PairClear(h, order[0], v) && PairClear(h, order[0], w);
      UnfoldSame(h, order[0].value, v, w);
      UnfoldPairsSame(h, order[1..], v, w);
    }
  }

  /** What a linked graph unfolds to has distinct keys in every object. */
  lemma {:induction false} UnfoldWellFormed(h: Heap, r: Ref, v: set<Ref>)
    requires Linked(h) && Live(h, r) && Clear(h, r, v)
    ensures J.WellFormed(Unfold(h, r, v))
    decreases All(h) - v, 1, 0
  {
    match h[r].node
    case Array(items) =>
      LessLeft(h, r, v);
      ItemsWellFormed(h, items, v + {r});
    case Object(members, serial) =>
      LessLeft(h, r, v);
      PairsClear(h, members.order, v + {r});
      PairsWellFormed(h, members.order, v + {r});
      KeysStay(h, members.order, v + {r});
    case _ =>
  }

  lemma KeysStay(h: Heap, order: seq<T.Pair<Text, Ref>>, v: set<Ref>)
    requires Linked(h) && EachClear(h, order, v)
    ensures forall i :: 0 <= i < |order| ==> UnfoldPairs(h, order, v)[i].key == order[i].key
    ensures T.Distinct(order) ==> T.Distinct(UnfoldPairs(h, order, v))
    ensures forall k: Text :: T.Find(UnfoldPairs(h, order, v), k) == T.Find(order, k)
  {
    var ps := UnfoldPairs(h, order, v);
    forall i | 0 <= i < |order| ensures ps[i].key == order[i].key {
      UnfoldPairsAt(h, order, v, i);
    }
    forall k: Text ensures T.Find(ps, k) == T.Find(order, k) {
      T.FindIs(ps, k, T.Find(order, k));
    }
  }

  lemma {:induction false} ItemsWellFormed(h: Heap, items: seq<Ref>, v: set<Ref>)
    requires Linked(h) && (forall c: Ref :: c in items ==> Live(h, c)) && AllClear(h, items, v)
    ensures J.AllWellFormed(UnfoldItems(h, items, v))
    decreases All(h) - v, 2, |items|
  {
    if items != [] {
      UnfoldWellFormed(h, items[0], v);
      ItemsWellFormed(h, items[1..], v);
      assert UnfoldItems(h, items, v)[1..] == UnfoldItems(h, items[1..], v);
    }
  }

  lemma {:induction false} PairsWellFormed(h: Heap, order: seq<T.Pair<Text, Ref>>, v: set<Ref>)
    requires Linked(h) && EachClear(h, order, v)
    ensures J.PairsWellFormed(UnfoldPairs(h, order, v))
    decreases All(h) - v, 2, |order|
  {
    if order != [] {
      assert PairClear(h, order[0], v);
      UnfoldWellFormed(h, order[0].value, v);
      PairsWellFormed(h, order[1..], v);
      var ps := UnfoldPairs(h, order, v);
      assert ps[1..] == UnfoldPairs(h, order[1..], v);
      assert ps[0].value < ps[0];
    }
  }

  // ---------------------------------------------------------------- json_equal

  /** `json_typeof`. */
  function Kind(n: Node): nat {
    match n
    case Freed => 8
    case Object(_, _) => 0
    case Array(_) => 1
    case Str(_) => 2
    case Integer(_) => 3
    case Real(_) => 4
    case True => 5
    case False => 6
    case Null => 7
  }

  /** `json_equal` on two nodes below which there is no cycle. */
  method Equal(h: Heap, a: Ref, b: Ref, ghost v: set<Ref>, ghost w: set<Ref>) returns (eq: bool)
    requires Linked(h) && Live(h, a) && Live(h, b) && Clear(h, a, v) && Clear(h, b, w)
    ensures eq <==> J.Equal(Unfold(h, a, v), Unfold(h, b, w))
    decreases All(h) - v, 1, 0
  {
    hide Clear, AllClear, Linked, All;
    if Kind(h[a].node) != Kind(h[b].node) {
      return false;
    }
    if a == b {
      UnfoldSame(h, a, v, w);
      UnfoldWellFormed(h, a, v);
      J.EqualReflexive(Unfold(h, a, v));
      return true;
    }
    match h[a].node {
      case Object(_, _) => eq := ObjectEqual(h, a, b, v, w);
      case Array(_) => eq := ArrayEqual(h, a, b, v, w);
      case Str(s) => eq := s == h[b].node.s;
      case Integer(n) => eq := n == h[b].node.n;
      case Real(x) => eq := x == h[b].node.lexeme;
      case _ => eq := true;
    }
  }

  lemma ArrayUnfolds(h: Heap, a: Ref, v: set<Ref>)
    requires Linked(h) && Live(h, a) && Clear(h, a, v) && h[a].node.Array?
    ensures All(h) - (v + {a}) < All(h) - v
    ensures (forall c: Ref :: c in h[a].node.items ==> Live(h, c)) && AllClear(h, h[a].node.items, v + {a})
    ensures Unfold(h, a, v) == J.Array(UnfoldItems(h, h[a].node.items, v + {a}))
  {
    LessLeft(h, a, v);
  }

  lemma ObjectUnfolds(h: Heap, a: Ref, v: set<Ref>)
    requires Linked(h) && Live(h, a) && Clear(h, a, v) && h[a].node.Object?
    ensures All(h) - (v + {a}) < All(h) - v
    ensures EachClear(h, h[a].node.members.order, v + {a})
    ensures Unfold(h, a, v) ==
              J.Object(T.Table(h[a].node.members.level, UnfoldPairs(h, h[a].node.members.order, v + {a})),
                  h[a].node.serial)
  {
    LessLeft(h, a, v);
    PairsClear(h, h[a].node.members.order, v + {a});
  }

  lemma ItemUnfolds(h: Heap, items: seq<Ref>, i: nat, v: set<Ref>)
    requires Linked(h) && (forall c: Ref :: c in items ==> Live(h, c)) && AllClear(h, items, v) && i <= |items|
    ensures (forall c: Ref :: c in items[i..] ==> Live(h, c)) && AllClear(h, items[i..], v)
    ensures i < |items| ==> Live(h, items[i]) && Clear(h, items[i], v) &&
                            UnfoldItems(h, items[i..], v) ==
                                [Unfold(h, items[i], v)] + UnfoldItems(h, items[i + 1..], v)
    decreases |items|
  {
    if i < |items| {
      assert items[i..][1..] == items[i + 1..];
      assert items[i] in items;
    }
    if i == 0 {
      assert items[0..] == items;
    } else {
      assert items[1..][i - 1..] == items[i..];
      ItemUnfolds(h, items[1..], i - 1, v);
    }
  }

  /** `json_array_equal`. */
  method ArrayEqual(h: Heap, a: Ref, b: Ref, ghost v: set<Ref>, ghost w: set<Ref>) returns (eq: bool)
    requires Linked(h) && Live(h, a) && Live(h, b) && Clear(h, a, v) && Clear(h, b, w) && h[a].node.Array? &&
              h[b].node.Array?
    ensures eq <==> J.Equal(Unfold(h, a, v), Unfold(h, b, w))
    decreases All(h) - v, 0, 0
  {
    hide Clear, AllClear, Linked, All, Unfold, UnfoldItems, J.Equal, J.ItemsEqual;
    var xs, ys := h[a].node.items, h[b].node.items;
    ArrayUnfolds(h, a, v);
    ArrayUnfolds(h, b, w);
    ghost var v', w' := v + {a}, w + {b};
    ArraysEqual(UnfoldItems(h, xs, v'), UnfoldItems(h, ys, w'));
    var size := |xs|;
    if size != |ys| {
      return false;
    }
    var i := 0;
    assert xs[0..] == xs && ys[0..] == ys;
    ItemUnfolds(h, xs, 0, v');
    ItemUnfolds(h, ys, 0, w');
    while i < size
      invariant 0 <= i <= size
      invariant (forall c: Ref :: c in xs[i..] ==> Live(h, c)) && AllClear(h, xs[i..], v')
      invariant (forall c: Ref :: c in ys[i..] ==> Live(h, c)) && AllClear(h, ys[i..], w')
      invariant J.ItemsEqual(UnfoldItems(h, xs, v'), UnfoldItems(h, ys, w'))
                <==> J.ItemsEqual(UnfoldItems(h, xs[i..], v'), UnfoldItems(h, ys[i..], w'))
    {
      ItemUnfolds(h, xs, i, v');
      ItemUnfolds(h, ys, i, w');
      ItemUnfolds(h, xs, i + 1, v');
      ItemUnfolds(h, ys, i + 1, w');
      var same := Equal(h, xs[i], ys[i], v', w');
      HeadsEqual(Unfold(h, xs[i], v'), UnfoldItems(h, xs[i + 1..], v'), Unfold(h, ys[i], w'),
          UnfoldItems(h, ys[i + 1..], w'));
      if !same {
        return false;
      }
      i := i + 1;
    }
    NoneDiffer(UnfoldItems(h, xs[i..], v'), UnfoldItems(h, ys[i..], w'));
    return true;
  }

  lemma NoneDiffer(xs: seq<J.Doc>, ys: seq<J.Doc>)
    requires xs == [] && ys == []
    ensures J.ItemsEqual(xs, ys)
  {
  }

  lemma ArraysEqual(xs: seq<J.Doc>, ys: seq<J.Doc>)
    ensures J.Equal(J.Array(xs), J.Array(ys)) <==> |xs| == |ys| && J.ItemsEqual(xs, ys)
  {
  }

  lemma HeadsEqual(x: J.Doc, xs: seq<J.Doc>, y: J.Doc, ys: seq<J.Doc>)
    requires |xs| == |ys|
    ensures J.ItemsEqual([x] + xs, [y] + ys) <==> J.Equal(x, y) && J.ItemsEqual(xs, ys)
  {
    hide J.Equal;
    assert ([x] + xs)[1..] == xs && ([y] + ys)[1..] == ys;
  }

  lemma ObjectsEqual(a: J.Doc, b: J.Doc)
    requires a.Object? && b.Object?
    ensures J.Equal(a, b) <==> |a.members.order| == |b.members.order| && J.MembersEqual(a.members.order, b.members)
  {
  }

  lemma MemberHeadEqual(p: T.Pair<Text, J.Doc>, rest: seq<T.Pair<Text, J.Doc>>, other: J.Members)
    ensures J.MembersEqual([p] + rest, other) <==>
            T.Get(other, p.key).Some? && J.Equal(p.value, T.Get(other, p.key).value) && J.MembersEqual(rest, other)
  {
    hide J.Equal;
    assert ([p] + rest)[1..] == rest;
  }

  lemma PairUnfolds(h: Heap, order: seq<T.Pair<Text, Ref>>, i: nat, v: set<Ref>)
    requires Linked(h) && EachClear(h, order, v) && i <= |order|
    ensures EachClear(h, order[i..], v)
    ensures i < |order| ==>
              PairClear(h, order[i], v) &&
                  UnfoldPairs(h, order[i..], v) == [UnfoldPair(h, order[i], v)] + UnfoldPairs(h, order[i + 1..], v)
  {
    hide PairClear, UnfoldPair, Linked;
    if i < |order| {
      assert order[i..][1..] == order[i + 1..];
    }
  }

  /** What looking a key up comes to in the unfolded object. */
  lemma GetUnfolds(h: Heap, members: Members, k: Text, v: set<Ref>)
    requires Linked(h) && EachClear(h, members.order, v)
    ensures var t := T.Table(members.level, UnfoldPairs(h, members.order, v)); var i := T.Find(members.order, k);
            if i < |members.order| then
              T.Get(members, k) == Some(members.order[i].value) && PairClear(h, members.order[i], v) &&
              T.Get(t, k) == Some(Unfold(h, members.order[i].value, v))
            else T.Get(members, k).None? && T.Get(t, k).None?
  {
    KeysStay(h, members.order, v);
    var i := T.Find(members.order, k);
    if i < |members.order| {
      UnfoldPairsAt(h, members.order, v, i);
    }
  }

  /** `json_object_equal`: the first object's keys are looked up in the second. */
  method ObjectEqual(h: Heap, a: Ref, b: Ref, ghost v: set<Ref>, ghost w: set<Ref>) returns (eq: bool)
    requires Linked(h) && Live(h, a) && Live(h, b) && Clear(h, a, v) && Clear(h, b, w) && h[a].node.Object? &&
              h[b].node.Object?
    ensures eq <==> J.Equal(Unfold(h, a, v), Unfold(h, b, w))
    decreases All(h) - v, 0, 0
  {
    hide Clear, EachClear, PairClear, Linked, All, Unfold, J.Equal, UnfoldPairs, T.Get, J.MembersEqual;
    var order, other := h[a].node.members.order, h[b].node.members;
    ObjectUnfolds(h, a, v);
    ObjectUnfolds(h, b, w);
    ghost var v', w' := v + {a}, w + {b};
    ghost var t := T.Table(other.level, UnfoldPairs(h, other.order, w'));
    ObjectsEqual(Unfold(h, a, v), Unfold(h, b, w));
    if |order| != |other.order| {
      return false;
    }
    var i := 0;
    assert order[0..] == order;
    while i < |order|
      invariant 0 <= i <= |order| && EachClear(h, order[i..], v')
      invariant J.MembersEqual(UnfoldPairs(h, order, v'), t) <==> J.MembersEqual(UnfoldPairs(h, order[i..], v'), t)
    {
      PairUnfolds(h, order, i, v');
      PairUnfolds(h, order, i + 1, v');
      MemberHeadEqual(UnfoldPair(h, order[i], v'), UnfoldPairs(h, order[i + 1..], v'), t);
      PairIsClear(h, order[i], v');
      var value := T.Get(other, order[i].key);
      GetUnfolds(h, other, order[i].key, w');
      if value.None? {
        return false;
      }
      PairIsClear(h, other.order[T.Find(other.order, order[i].key)], w');
      var same := Equal(h, order[i].value, value.value, v', w');
      if !same {
        return false;
      }
      i := i + 1;
    }
    NoMembersLeft(h, order[i..], v', t);
    return true;
  }

  lemma PairIsClear(h: Heap, p: T.Pair<Text, Ref>, v: set<Ref>)
    requires Linked(h) && PairClear(h, p, v)
    ensures Live(h, p.value) && Clear(h, p.value, v) &&
              UnfoldPair(h, p, v) == T.Pair(p.key, p.serial, Unfold(h, p.value, v))
  {
  }

  lemma NoMembersLeft(h: Heap, order: seq<T.Pair<Text, Ref>>, v: set<Ref>, t: J.Members)
    requires order == [] && Linked(h)
    ensures EachClear(h, order, v) && J.MembersEqual(UnfoldPairs(h, order, v), t)
  {
  }
}
