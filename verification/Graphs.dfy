/** What `do_dump` makes of a graph of nodes: cycles, and the tree that an acyclic part unfolds to. */
module Graphs {
  import opened Bytes
  import opened Heaps
  import opened Printing
  import J = Json
  import T = Tables
  import K = Tokens
  import Utf8

  // ---------------------------------------------------------------- graphs that can be written

  /** What a node must be like to be written: valid strings and keys, 64-bit integers, no real. */
  ghost predicate WritableNode(n: Node) {
    match n
    case Freed => true
    case Integer(k) => K.FitsInteger(k)
    case Real(_) => false
    case Str(s) => PrintableText(s)
    case Object(members, _) =>
      T.Distinct(members.order) && forall i :: 0 <= i < |members.order| ==> PrintableText(members.order[i].key)
    case _ => true
  }

  /** Slots lead to nodes, and objects have distinct keys. */
  ghost predicate Linked(h: Heap) {
    forall r: Ref :: Live(h, r) ==>
      (forall c: Ref :: c in Children(h[r].node) ==> Live(h, c)) &&
      (h[r].node.Object? ==> T.Distinct(h[r].node.members.order))
  }

  ghost predicate Writable(h: Heap) {
    Linked(h) && forall r: Ref :: r < |h| ==> WritableNode(h[r].node)
  }

  ghost function All(h: Heap): set<Ref> {
    set r: Ref | 0 <= r < |h| && Here(h, r)
  }

  predicate Here(h: Heap, r: Ref) { r < |h| }

  predicate Container(n: Node) { n.Array? || n.Object? }

  // ---------------------------------------------------------------- cycles

  /** A walk along slots. */
  ghost predicate Walk(h: Heap, p: seq<Ref>) {
    && p != [] && (forall i :: 0 <= i < |p| ==> Live(h, p[i]))
    && forall i {:trigger p[i]} :: 0 < i < |p| ==> p[i] in Children(h[p[i - 1]].node)
  }

  ghost predicate WalkFrom(h: Heap, r: Ref, p: seq<Ref>) {
    Walk(h, p) && p[0] == r
  }

  ghost predicate Revisits(p: seq<Ref>) {
    exists i, j :: 0 <= i < j < |p| && p[i] == p[j]
  }

  /** Some walk from `r` comes back to a node that it has already been to. */
  ghost predicate CycleReachable(h: Heap, r: Ref) {
    exists p: seq<Ref> :: WalkFrom(h, r, p) && Revisits(p)
  }

  // ---------------------------------------------------------------- the search with visited marks

  /** From `r` no node of `v`, the marked path, is met again, nor one that the search itself has marked. */
  ghost predicate Clear(h: Heap, r: Ref, v: set<Ref>)
    requires Linked(h) && Live(h, r)
    decreases All(h) - v, 2, 0
  {
    !Container(h[r].node) || (r !in v && (LessLeft(h, r, v); AllClear(h, Children(h[r].node), v + {r})))
  }

  ghost predicate AllClear(h: Heap, s: seq<Ref>, v: set<Ref>)
    requires Linked(h) && forall c: Ref :: c in s ==> Live(h, c)
    decreases All(h) - v, 3, |s|
  {
    s == [] || (Clear(h, s[0], v) && AllClear(h, s[1..], v))
  }

  lemma LessLeft(h: Heap, r: Ref, v: set<Ref>)
    requires r < |h| && r !in v
    ensures All(h) - (v + {r}) < All(h) - v
  {
    assert r in All(h) - v;
  }

  lemma {:induction false} AllClearAt(h: Heap, s: seq<Ref>, v: set<Ref>, c: Ref)
    requires Linked(h) && (forall c: Ref :: c in s ==> Live(h, c)) && AllClear(h, s, v) && c in s
    ensures Clear(h, c, v)
    decreases |s|
  {
    if c != s[0] {
      AllClearAt(h, s[1..], v, c);
    }
  }

  lemma {:induction false} NotAllClear(h: Heap, s: seq<Ref>, v: set<Ref>) returns (c: Ref)
    requires Linked(h) && (forall c: Ref :: c in s ==> Live(h, c)) && !AllClear(h, s, v)
    ensures c in s && !Clear(h, c, v)
    decreases |s|
  {
    if !Clear(h, s[0], v) {
      c := s[0];
    } else {
      c := NotAllClear(h, s[1..], v);
    }
  }

  /** A clear search meets only fresh nodes: no walk revisits a node, or meets a marked container. */
  lemma {:induction false} ClearWalks(h: Heap, r: Ref, v: set<Ref>, p: seq<Ref>)
    requires Linked(h) && Live(h, r) && Clear(h, r, v) && WalkFrom(h, r, p)
    ensures !Revisits(p)
    ensures forall i :: 0 <= i < |p| && p[i] in v ==> !Container(h[p[i]].node)
    decreases |p|
  {
    if |p| > 1 {
      var q := p[1..];
      assert p[1] in Children(h[p[0]].node);
      HasChildren(h[r].node, p[1]);
      AllClearAt(h, Children(h[r].node), v + {r}, p[1]);
      assert forall i {:trigger q[i]} :: 0 <= i < |q| ==> q[i] == p[i + 1];
      assert Walk(h, q);
      ClearWalks(h, p[1], v + {r}, q);
      forall i, j | 0 <= i < j < |p| ensures p[i] != p[j] {
        assert p[j] == q[j - 1];
        if i > 0 {
          assert p[i] == q[i - 1];
        }
      }
      forall i | 0 <= i < |p| && p[i] in v ensures !Container(h[p[i]].node) {
        if i > 0 {
          assert p[i] == q[i - 1];
        }
      }
    }
  }

  lemma HasChildren(n: Node, c: Ref)
    requires c in Children(n)
    ensures Container(n)
  {
  }

  /** A search that is not clear has found a walk back to a marked container, or to itself. */
  lemma {:induction false} UnclearWalk(h: Heap, r: Ref, v: set<Ref>) returns (p: seq<Ref>)
    requires Linked(h) && Live(h, r) && !Clear(h, r, v)
    ensures WalkFrom(h, r, p) && (Revisits(p) || p[|p| - 1] in v)
    decreases All(h) - v
  {
    hide Children, Revisits, WalkFrom;
    if r in v {
      p := [r];
      WalkHere(h, r);
    } else {
      LessLeft(h, r, v);
      var c := NotAllClear(h, Children(h[r].node), v + {r});
      var q := UnclearWalk(h, c, v + {r});
      WalkLonger(h, r, c, q);
      p := [r] + q;
    }
  }

  lemma WalkHere(h: Heap, r: Ref)
    requires Live(h, r)
    ensures WalkFrom(h, r, [r])
  {
  }

  lemma WalkLonger(h: Heap, r: Ref, c: Ref, q: seq<Ref>)
    requires Live(h, r) && c in Children(h[r].node) && WalkFrom(h, c, q)
    ensures WalkFrom(h, r, [r] + q) && q != [] && ([r] + q)[|q|] == q[|q| - 1]
    ensures Revisits(q) || q[|q| - 1] == r ==> Revisits([r] + q)
  {
    hide Children;
    var p := [r] + q;
    assert forall i {:trigger p[i]} :: 0 < i < |p| ==> p[i] == q[i - 1];
    forall i {:trigger p[i]} | 0 < i < |p| ensures p[i] in Children(h[p[i - 1]].node) {
      assert p[i] == q[i - 1];
      assert i > 1 ==> p[i - 1] == q[i - 2];
    }
    RevisitsLonger(r, q);
  }

  lemma RevisitsLonger(r: Ref, q: seq<Ref>)
    requires q != []
    ensures Revisits(q) || q[|q| - 1] == r ==> Revisits([r] + q)
  {
    var p := [r] + q;
    if Revisits(q) {
      var i, j :| 0 <= i < j < |q| && q[i] == q[j];
      assert p[i + 1] == p[j + 1];
    } else if q[|q| - 1] == r {
      assert p[0] == p[|p| - 1];
    }
  }

  /** With no marks set, the search is clear exactly when no cycle is reachable. */
  lemma ClearIffAcyclic(h: Heap, r: Ref)
    requires Linked(h) && Live(h, r)
    ensures Clear(h, r, {}) <==> !CycleReachable(h, r)
  {
    if Clear(h, r, {}) {
      forall p: seq<Ref> | WalkFrom(h, r, p) ensures !Revisits(p) {
        ClearWalks(h, r, {}, p);
      }
    } else {
      var p := UnclearWalk(h, r, {});
    }
  }

  // ---------------------------------------------------------------- unfolding

  /** The tree that the part of the heap below `r` unfolds to; shared children are repeated. */
  ghost function Unfold(h: Heap, r: Ref, v: set<Ref>): J.Doc
    requires Linked(h) && Live(h, r) && Clear(h, r, v)
    decreases All(h) - v, 1, 0
  {
    match h[r].node
    case Null => J.Null
    case True => J.True
    case False => J.False
    case Integer(n) => J.Integer(n)
    case Real(x) => J.Real(x)
    case Str(s) => J.Str(s)
    case Array(items) => (LessLeft(h, r, v); J.Array(UnfoldItems(h, items, v + {r})))
    case Object(members, serial) =>
      (LessLeft(h, r, v); PairsClear(h, members.order,
          v + {r}); J.Object(T.Table(members.level, UnfoldPairs(h, members.order, v + {r})), serial))
    case Freed => J.Null
  }

  ghost predicate PairClear(h: Heap, p: T.Pair<Text, Ref>, v: set<Ref>)
    requires Linked(h)
  {
    Live(h, p.value) && Clear(h, p.value, v)
  }

  ghost predicate EachClear(h: Heap, s: seq<T.Pair<Text, Ref>>, v: set<Ref>)
    requires Linked(h)
  {
    forall i :: 0 <= i < |s| ==> PairClear(h, s[i], v)
  }

  predicate Keyed(s: seq<T.Pair<Text, Ref>>) {
    forall i :: 0 <= i < |s| ==> PrintableText(s[i].key)
  }

  lemma {:induction false} PairsClear(h: Heap, order: seq<T.Pair<Text, Ref>>, v: set<Ref>)
    requires Linked(h) && (forall c: Ref :: c in ValuesIn(order) ==> Live(h, c)) && AllClear(h, ValuesIn(order), v)
    ensures EachClear(h, order, v)
    decreases |order|
  {
    if order != [] {
      assert ValuesIn(order)[1..] == ValuesIn(order[1..]);
      forall c: Ref | c in ValuesIn(order[1..]) ensures Live(h, c) {
        assert c in ValuesIn(order);
      }
      PairsClear(h, order[1..], v);
      forall i | 0 <= i < |order| ensures PairClear(h, order[i], v) {
        if i > 0 {
          assert order[i] == order[1..][i - 1];
        } else {
          assert order[0].value in ValuesIn(order);
        }
      }
    }
  }

  ghost function UnfoldItems(h: Heap, items: seq<Ref>, v: set<Ref>): (ds: seq<J.Doc>)
    requires Linked(h) && (forall c: Ref :: c in items ==> Live(h, c)) && AllClear(h, items, v)
    ensures |ds| == |items|
    decreases All(h) - v, 2, |items|
  {
    if items == [] then [] else [Unfold(h, items[0], v)] + UnfoldItems(h, items[1..], v)
  }

  ghost function UnfoldPair(h: Heap, p: T.Pair<Text, Ref>, v: set<Ref>): T.Pair<Text, J.Doc>
    requires Linked(h) && PairClear(h, p, v)
    decreases All(h) - v, 1, 1
  {
    T.Pair(p.key, p.serial, Unfold(h, p.value, v))
  }

  ghost function UnfoldPairs(h: Heap, order: seq<T.Pair<Text, Ref>>, v: set<Ref>): (ps: seq<T.Pair<Text, J.Doc>>)
    requires Linked(h) && EachClear(h, order, v)
    ensures |ps| == |order|
    decreases All(h) - v, 2, |order|
  {
    if order == [] then [] else [UnfoldPair(h, order[0], v)] + UnfoldPairs(h, order[1..], v)
  }

  lemma {:induction false} UnfoldPairsAt(h: Heap, order: seq<T.Pair<Text, Ref>>, v: set<Ref>, i: nat)
    requires Linked(h) && EachClear(h, order, v) && i < |order|
    ensures UnfoldPairs(h, order, v)[i] == UnfoldPair(h, order[i], v)
    decreases |order|
  {
    if i > 0 {
      UnfoldPairsAt(h, order[1..], v, i - 1);
    }
  }

  /** What a writable graph unfolds to can be printed. */
  lemma {:induction false} UnfoldPrintable(h: Heap, r: Ref, v: set<Ref>)
    requires Writable(h) && Live(h, r) && Clear(h, r, v)
    ensures Printable(Unfold(h, r, v))
    decreases All(h) - v, 1, 0
  {
    assert WritableNode(h[r].node);
    match h[r].node
    case Array(items) =>
      LessLeft(h, r, v);
      ItemsPrintable(h, items, v + {r});
    case Object(members, serial) =>
      LessLeft(h, r, v);
      PairsClear(h, members.order, v + {r});
      PairsPrintable(h, members.order, v + {r});
    case _ =>
  }

  lemma {:induction false} ItemsPrintable(h: Heap, items: seq<Ref>, v: set<Ref>)
    requires Writable(h) && (forall c: Ref :: c in items ==> Live(h, c)) && AllClear(h, items, v)
    ensures AllPrintable(UnfoldItems(h, items, v))
    decreases All(h) - v, 2, |items|
  {
    if items != [] {
      UnfoldPrintable(h, items[0], v);
      ItemsPrintable(h, items[1..], v);
      assert UnfoldItems(h, items, v)[1..] == UnfoldItems(h, items[1..], v);
    }
  }

  lemma {:induction false} PairsPrintable(h: Heap, order: seq<T.Pair<Text, Ref>>, v: set<Ref>)
    requires Writable(h) && EachClear(h, order, v) && Keyed(order)
    ensures MembersPrintable(UnfoldPairs(h, order, v))
    decreases All(h) - v, 2, |order|
  {
    hide PrintableText, WritableNode;
    if order != [] {
      UnfoldPrintable(h, order[0].value, v);
      PairsPrintable(h, order[1..], v);
      var ps := UnfoldPairs(h, order, v);
      assert ps[1..] == UnfoldPairs(h, order[1..], v);
      assert ps[0].value < ps[0];
    }
  }

  // ---------------------------------------------------------------- the text of a graph

  ghost function TextOf(h: Heap, r: Ref, v: set<Ref>, flags: Flags, depth: nat): Text
    requires Writable(h) && Live(h, r) && Clear(h, r, v)
  {
    UnfoldPrintable(h, r, v);
    Print(Unfold(h, r, v), flags, depth)
  }

  /** What follows an item or a member. */
  function Between(flags: Flags, depth: nat, last: bool): Text {
    if last then Indent(flags, depth, false) else [',' as int] + Indent(flags, depth + 1, true)
  }

  ghost function ItemsText(h: Heap, items: seq<Ref>, v: set<Ref>, flags: Flags, depth: nat): Text
    requires Writable(h) && (forall c: Ref :: c in items ==> Live(h, c)) && AllClear(h, items, v)
    decreases |items|
  {
    if items == [] then []
    else
      TextOf(h, items[0], v, flags, depth + 1) + Between(flags, depth, |items| == 1) +
      ItemsText(h, items[1..], v, flags, depth)
  }

  ghost function MemberText(h: Heap, p: T.Pair<Text, Ref>, v: set<Ref>, flags: Flags, depth: nat): Text
    requires Writable(h) && PairClear(h, p, v) && PrintableText(p.key)
  {
    StringText(p.key, flags.ensureAscii) + Separator(flags) + TextOf(h, p.value, v, flags, depth + 1)
  }

  ghost function MembersText(h: Heap, ms: seq<T.Pair<Text, Ref>>, v: set<Ref>, flags: Flags, depth: nat): Text
    requires Writable(h) && EachClear(h, ms, v) && Keyed(ms)
    decreases |ms|
  {
    if ms == [] then []
    else
      MemberText(h, ms[0], v, flags, depth) + Between(flags, depth, |ms| == 1) +
      MembersText(h, ms[1..], v, flags, depth)
  }

  lemma {:induction false} ItemsTextIsPrinted(h: Heap, items: seq<Ref>, v: set<Ref>, flags: Flags, depth: nat)
    requires Writable(h) && (forall c: Ref :: c in items ==> Live(h, c)) && AllClear(h, items, v)
    ensures AllPrintable(UnfoldItems(h, items, v)) &&
              PrintItems(UnfoldItems(h, items, v), flags, depth) == ItemsText(h, items, v, flags, depth)
    decreases |items|
  {
    hide Print, Indent, WritableNode;
    ItemsPrintable(h, items, v);
    if items != [] {
      ItemsTextIsPrinted(h, items[1..], v, flags, depth);
      assert UnfoldItems(h, items, v)[1..] == UnfoldItems(h, items[1..], v);
    }
  }

  lemma {:induction false} MembersTextIsPrinted(h: Heap, ms: seq<T.Pair<Text, Ref>>, v: set<Ref>, flags: Flags,
          depth: nat, d: J.Doc)
    requires Writable(h) && EachClear(h, ms, v) && Keyed(ms)
    requires MembersOf(UnfoldPairs(h, ms, v), d)
    ensures PrintMembers(UnfoldPairs(h, ms, v), flags, depth, d) == MembersText(h, ms, v, flags, depth)
    decreases |ms|
  {
    hide PrintMember, MemberText, Indent, Linked, WritableNode, PairClear, PrintableText, Printable, UnfoldPair;
    if ms != [] {
      var ps := UnfoldPairs(h, ms, v);
      assert ps[0] == UnfoldPair(h, ms[0], v) && ps[1..] == UnfoldPairs(h, ms[1..], v);
      MemberTextIsPrinted(h, ms[0], v, flags, depth, d);
      MembersTextIsPrinted(h, ms[1..], v, flags, depth, d);
    }
  }

  lemma MemberTextIsPrinted(h: Heap, p: T.Pair<Text, Ref>, v: set<Ref>, flags: Flags, depth: nat, d: J.Doc)
    requires Writable(h) && PairClear(h, p, v) && PrintableText(p.key)
    requires UnfoldPair(h, p, v).value < d && Printable(UnfoldPair(h, p, v).value)
    ensures PrintMember(UnfoldPair(h, p, v), flags, depth, d) == MemberText(h, p, v, flags, depth)
  {
    hide Print, WritableNode, StringText;
  }

  // ---------------------------------------------------------------- arranging commutes with unfolding

  lemma UnfoldNil(h: Heap, v: set<Ref>)
    requires Linked(h)
    ensures EachClear(h, [], v) && UnfoldPairs(h, [], v) == []
  {
  }

  lemma UnfoldRest(h: Heap, s: seq<T.Pair<Text, Ref>>, v: set<Ref>)
    requires Linked(h) && s != [] && EachClear(h, s, v)
    ensures PairClear(h, s[0], v) && EachClear(h, s[1..], v)
    ensures UnfoldPairs(h, s, v) == [UnfoldPair(h, s[0], v)] + UnfoldPairs(h, s[1..], v)
  {
    hide PairClear, UnfoldPair, Linked;
    assert forall i {:trigger s[1..][i]} :: 0 <= i < |s| - 1 ==> s[1..][i] == s[i + 1];
  }

  lemma UnfoldCons(h: Heap, p: T.Pair<Text, Ref>, s: seq<T.Pair<Text, Ref>>, v: set<Ref>)
    requires Linked(h) && PairClear(h, p, v) && EachClear(h, s, v)
    ensures EachClear(h, [p] + s, v)
    ensures UnfoldPairs(h, [p] + s, v) == [UnfoldPair(h, p, v)] + UnfoldPairs(h, s, v)
  {
    hide PairClear, UnfoldPair, Linked;
    assert ([p] + s)[1..] == s;
    assert forall i {:trigger ([p] + s)[i]} :: 0 < i < |[p] + s| ==> ([p] + s)[i] == s[i - 1];
  }

  lemma CompareUnfolds(h: Heap, byKeys: bool, a: T.Pair<Text, Ref>, b: T.Pair<Text, Ref>, v: set<Ref>)
    requires Linked(h) && PairClear(h, a, v) && PairClear(h, b, v)
    ensures Compare(byKeys, UnfoldPair(h, a, v), UnfoldPair(h, b, v)) == Compare(byKeys, a, b)
  {
    hide Unfold, Clear, Linked;
  }

  lemma {:induction false} PlaceUnfolds(h: Heap, byKeys: bool, p: T.Pair<Text, Ref>, s: seq<T.Pair<Text, Ref>>,
          v: set<Ref>)
    requires Linked(h) && PairClear(h, p, v) && EachClear(h, s, v)
    ensures EachClear(h, Place(byKeys, p, s), v)
    ensures UnfoldPairs(h, Place(byKeys, p, s), v) == Place(byKeys, UnfoldPair(h, p, v), UnfoldPairs(h, s, v))
    decreases |s|
  {
    hide PairClear, EachClear, UnfoldPair, UnfoldPairs, Linked, Compare;
    if s == [] {
      UnfoldNil(h, v);
      UnfoldCons(h, p, [], v);
      assert [p] + [] == [p];
    } else {
      UnfoldRest(h, s, v);
      CompareUnfolds(h, byKeys, s[0], p, v);
      PlaceUnfolds(h, byKeys, p, s[1..], v);
      UnfoldCons(h, s[0], Place(byKeys, p, s[1..]), v);
      UnfoldCons(h, p, s, v);
    }
  }

  lemma {:induction false} SortUnfolds(h: Heap, byKeys: bool, s: seq<T.Pair<Text, Ref>>, v: set<Ref>)
    requires Linked(h) && EachClear(h, s, v)
    ensures EachClear(h, Sort(byKeys, s), v)
    ensures UnfoldPairs(h, Sort(byKeys, s), v) == Sort(byKeys, UnfoldPairs(h, s, v))
    decreases |s|
  {
    if s != [] {
      SortUnfolds(h, byKeys, s[1..], v);
      PlaceUnfolds(h, byKeys, s[0], Sort(byKeys, s[1..]), v);
      assert UnfoldPairs(h, s, v)[1..] == UnfoldPairs(h, s[1..], v);
    }
  }

  lemma ArrangeUnfolds(h: Heap, flags: Flags, s: seq<T.Pair<Text, Ref>>, v: set<Ref>)
    requires Linked(h) && EachClear(h, s, v)
    ensures EachClear(h, Arrange(flags, s), v)
    ensures UnfoldPairs(h, Arrange(flags, s), v) == Arrange(flags, UnfoldPairs(h, s, v))
  {
    SortUnfolds(h, true, s, v);
    SortUnfolds(h, false, s, v);
  }

  lemma ArrangedKeys(flags: Flags, s: seq<T.Pair<Text, Ref>>)
    requires Keyed(s)
    ensures Keyed(Arrange(flags, s))
  {
    hide PrintableText, Arrange;
    forall i | 0 <= i < |Arrange(flags, s)| ensures PrintableText(Arrange(flags, s)[i].key) {
      var m := Arrange(flags, s)[i];
      assert m in multiset(Arrange(flags, s)) && m in multiset(s);
      var j :| 0 <= j < |s| && s[j] == m;
    }
  }

  /** The text of an array and of an object, from their slots. */
  lemma ArrayText(h: Heap, r: Ref, v: set<Ref>, flags: Flags, depth: nat)
    requires Writable(h) && Live(h, r) && Clear(h, r, v) && h[r].node.Array?
    ensures var items := h[r].node.items;
            TextOf(h, r, v, flags, depth) ==
            if items == [] then ['[' as int, ']' as int]
            else
              ['[' as int] + Indent(flags, depth + 1, false) + ItemsText(h, items, v + {r}, flags, depth) +
              [']' as int]
  {
    hide ItemsText, Indent, PrintItems, WritableNode;
    LessLeft(h, r, v);
    ItemsTextIsPrinted(h, h[r].node.items, v + {r}, flags, depth);
    UnfoldPrintable(h, r, v);
  }

  lemma ObjectText(h: Heap, r: Ref, v: set<Ref>, flags: Flags, depth: nat)
    requires Writable(h) && Live(h, r) && Clear(h, r, v) && h[r].node.Object?
    requires var ms := Arrange(flags, h[r].node.members.order);
             EachClear(h, ms, v + {r}) && Keyed(ms)
    ensures var order := h[r].node.members.order;
            TextOf(h, r, v, flags, depth) ==
            if order == [] then ['{' as int, '}' as int]
            else
              ['{' as int] + Indent(flags, depth + 1, false) +
              MembersText(h, Arrange(flags, order), v + {r}, flags, depth) + ['}' as int]
  {
    hide MembersText, Indent, PrintMembers, WritableNode, Arrange, MembersOf, PrintableText;
    UnfoldPrintable(h, r, v);
    var d := Unfold(h, r, v);
    var order := h[r].node.members.order;
    PairsClear(h, order, v + {r});
    ArrangeUnfolds(h, flags, order, v + {r});
    ArrangedMembers(flags, d);
    MembersTextIsPrinted(h, Arrange(flags, order), v + {r}, flags, depth, d);
  }
}
