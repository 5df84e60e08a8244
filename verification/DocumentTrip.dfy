/** What is parsed from a printed document denotes the same value, down to the bytes. */
module DocumentTrip {
  import opened Bytes
  import opened Json
  import opened Printing
  import opened RoundTrip
  import opened Tokens
  import G = Grammar
  import S = StringTrip
  import T = Tables
  import Utf8

  // ---------------------------------------------------------------- objects as maps

  ghost function DocMap(d: Doc): map<Text, Doc>
    requires d.Object?
  {
    T.MapOf(d.members.order)
  }

  /** What setting the fields in turn comes to: a later field overrides an earlier one. */
  ghost function FieldMap(fields: seq<G.Field>): map<Text, Doc>
    requires G.FieldsProper(fields)
    decreases fields
  {
    if fields == [] then map[] else map[fields[0].key := G.Build(fields[0].value)] + FieldMap(fields[1..])
  }

  lemma SetMemberMap(obj: Doc, k: Text, v: Doc)
    requires G.ValidObject(obj)
    ensures G.ValidObject(SetMember(obj, k, v)) && DocMap(SetMember(obj, k, v)) == DocMap(obj)[k := v]
  {
    hide T.Set, T.Valid, T.MapOf;
    T.SetIsUpdate(HashStr, obj.members, k, obj.serial, v);
  }

  lemma UpdateThenAdd<K, V>(m: map<K, V>, k: K, v: V, n: map<K, V>)
    ensures m[k := v] + n == m + (map[k := v] + n)
  {
  }

  lemma {:induction false} FieldsOverride(fields: seq<G.Field>, obj: Doc)
    requires G.FieldsProper(fields) && G.ValidObject(obj)
    ensures G.ValidObject(G.BuildFields(fields, obj))
    ensures DocMap(G.BuildFields(fields, obj)) == DocMap(obj) + FieldMap(fields)
    decreases |fields|
  {
    hide T.Valid, DocMap, SetMember, G.Build, G.Proper;
    if fields != [] {
      var k, v := fields[0].key, G.Build(fields[0].value);
      SetMemberMap(obj, k, v);
      FieldsOverride(fields[1..], SetMember(obj, k, v));
      UpdateThenAdd(DocMap(obj), k, v, FieldMap(fields[1..]));
    }
  }

  /** A later duplicate key overrides an earlier one. */
  lemma LaterFieldWins(fields: seq<G.Field>)
    requires G.FieldsProper(fields)
    ensures DocMap(G.Build(G.Obj(fields))) == FieldMap(fields)
  {
    hide T.Valid, DocMap, FieldMap, G.BuildFields;
    G.EmptyIsValid();
    FieldsOverride(fields, EMPTY_OBJECT);
    NothingMapped();
    assert map[] + FieldMap(fields) == FieldMap(fields);
  }

  lemma NothingMapped()
    ensures DocMap(EMPTY_OBJECT) == map[]
  {
  }

  lemma SameObject(a: Doc, b: Doc)
    requires a.Object? && b.Object? && DocMap(a).Keys == DocMap(b).Keys
    requires forall k | k in DocMap(a) :: ValueOf(DocMap(a)[k]) == ValueOf(DocMap(b)[k])
    ensures ValueOf(a) == ValueOf(b)
  {
    hide T.Find;
    var m, n := T.MapOf(PairsOf(a.members.order)), T.MapOf(PairsOf(b.members.order));
    forall k ensures k in m <==> k in n
             ensures k in m ==> m[k] == n[k]
    {
      DenotedAt(a, k);
      DenotedAt(b, k);
    }
    assert m == n;
  }

  lemma DenotedAt(a: Doc, k: Text)
    requires a.Object?
    ensures k in T.MapOf(PairsOf(a.members.order)) <==> k in DocMap(a)
    ensures k in DocMap(a) ==> T.MapOf(PairsOf(a.members.order))[k] == ValueOf(DocMap(a)[k])
  {
    ObjectValueAt(a.members.order, k);
    T.InMapIff(a.members.order, k);
  }

  lemma WellFormedFromMap(d: Doc)
    requires d.Object? && T.Distinct(d.members.order)
    requires forall k | k in DocMap(d) :: WellFormed(DocMap(d)[k])
    ensures WellFormed(d)
  {
    forall i | 0 <= i < |d.members.order| ensures WellFormed(d.members.order[i].value) {
      T.LookupMember(d.members.order, d.members.order[i]);
      T.InMapIff(d.members.order, d.members.order[i].key);
      assert d.members.order[i].key in DocMap(d);
    }
    AllPairsWellFormed(d.members.order);
  }

  lemma {:induction false} AllPairsWellFormed(order: seq<T.Pair<Text, Doc>>)
    requires forall i | 0 <= i < |order| :: WellFormed(order[i].value)
    ensures PairsWellFormed(order)
    decreases |order|
  {
    if order != [] {
      assert order[0].value < order[0];
      assert forall i | 0 <= i < |order[1..]| :: order[1..][i] == order[i + 1];
      AllPairsWellFormed(order[1..]);
    }
  }

  // ---------------------------------------------------------------- the tree of a document denotes it

  lemma {:induction false} FieldOfAt(ms: seq<T.Pair<Text, Doc>>, flags: Flags, d: Doc, i: nat)
    requires MembersOf(ms, d) && i < |ms|
    ensures FieldsOf(ms, flags, d)[i] == G.Field(ms[i].key, TreeOf(ms[i].value, flags))
  {
    if i > 0 {
      FieldOfAt(ms[1..], flags, d, i - 1);
    }
  }

  lemma {:induction false} TreeOfAt(items: seq<Doc>, flags: Flags, i: nat)
    requires AllPrintable(items) && i < |items|
    ensures Printable(items[i]) && TreesOf(items, flags)[i] == TreeOf(items[i], flags)
  {
    if i > 0 {
      TreeOfAt(items[1..], flags, i - 1);
    }
  }

  lemma {:induction false} TreeIsProper(d: Doc, flags: Flags)
    requires Printable(d)
    ensures G.Proper(TreeOf(d, flags))
    decreases d, 1
  {
    hide Arrange;
    if d.Array? {
      TreesAreProper(d.items, flags);
    } else if d.Object? {
      ArrangedMembers(flags, d);
      FieldsAreProper(Arrange(flags, d.members.order), flags, d);
    }
  }

  lemma {:induction false} TreesAreProper(items: seq<Doc>, flags: Flags)
    requires AllPrintable(items)
    ensures G.AllProper(TreesOf(items, flags))
    decreases items, 0
  {
    if items != [] {
      TreeIsProper(items[0], flags);
      TreesAreProper(items[1..], flags);
      assert TreesOf(items, flags)[1..] == TreesOf(items[1..], flags);
    }
  }

  lemma {:induction false} FieldsAreProper(ms: seq<T.Pair<Text, Doc>>, flags: Flags, d: Doc)
    requires MembersOf(ms, d)
    ensures G.FieldsProper(FieldsOf(ms, flags, d))
    decreases d, 0, |ms|
  {
    if ms != [] {
      TreeIsProper(ms[0].value, flags);
      FieldsAreProper(ms[1..], flags, d);
      assert FieldsOf(ms, flags, d)[1..] == FieldsOf(ms[1..], flags, d);
    }
  }

  lemma ArrangedDistinct(flags: Flags, order: seq<T.Pair<Text, Doc>>)
    requires T.Distinct(order)
    ensures T.Distinct(Arrange(flags, order)) && T.MapOf(Arrange(flags, order)) == T.MapOf(order)
  {
    var ms := Arrange(flags, order);
    SameBagDistinct(order, ms);
    T.SameBag(ms, order);
    T.SameMap(ms, order);
  }

  lemma {:induction false} SameBagDistinct(s: seq<T.Pair<Text, Doc>>, t: seq<T.Pair<Text, Doc>>)
    requires multiset(s) == multiset(t) && T.Distinct(s)
    ensures T.Distinct(t)
  {
    forall i, j | 0 <= i < j < |t| ensures t[i].key != t[j].key {
      if t[i].key == t[j].key {
        assert t[i] in multiset(s) && t[j] in multiset(s);
        var a :| 0 <= a < |s| && s[a] == t[i];
        var b :| 0 <= b < |s| && s[b] == t[j];
        assert a == b;
        TwiceInBag(t, i, j);
        OnceInBag(s, a);
      }
    }
  }

  lemma TwiceInBag<X>(t: seq<X>, i: nat, j: nat)
    requires i < j < |t| && t[i] == t[j]
    ensures multiset(t)[t[i]] >= 2
  {
    assert t == t[..i] + [t[i]] + t[i + 1..j] + [t[j]] + t[j + 1..];
  }

  lemma OnceInBag(s: seq<T.Pair<Text, Doc>>, a: nat)
    requires T.Distinct(s) && a < |s|
    ensures multiset(s)[s[a]] == 1
  {
    assert s == s[..a] + [s[a]] + s[a + 1..];
    assert forall i | 0 <= i < a :: s[..a][i] == s[i];
    assert s[a] !in s[..a];
    assert forall i {:trigger s[a + 1..][i]} | 0 <= i < |s| - a - 1 :: s[a + 1..][i] == s[a + 1 + i];
    assert s[a] !in s[a + 1..];
  }

  lemma {:induction false} NoRepeats(d: Doc, flags: Flags)
    requires Printable(d) && WellFormed(d)
    ensures !G.Repeats(TreeOf(d, flags))
    decreases d
  {
    hide Arrange;
    if d.Array? {
      forall i | 0 <= i < |d.items| ensures !G.Repeats(TreesOf(d.items, flags)[i]) {
        TreeOfAt(d.items, flags, i);
        WellFormedAt(d.items, i);
        NoRepeats(d.items[i], flags);
      }
    } else if d.Object? {
      var ms := Arrange(flags, d.members.order);
      ArrangedMembers(flags, d);
      ArrangedDistinct(flags, d.members.order);
      var fs := FieldsOf(ms, flags, d);
      forall i | 0 <= i < |ms| ensures fs[i].key == ms[i].key && !G.Repeats(fs[i].value) {
        FieldOfAt(ms, flags, d, i);
        ArrangedWellFormed(flags, d, i);
        NoRepeats(ms[i].value, flags);
      }
    }
  }

  lemma ArrangedWellFormed(flags: Flags, d: Doc, i: nat)
    requires d.Object? && WellFormed(d) && i < |Arrange(flags, d.members.order)|
    ensures WellFormed(Arrange(flags, d.members.order)[i].value)
  {
    hide Arrange;
    var ms := Arrange(flags, d.members.order);
    assert ms[i] in multiset(ms) && ms[i] in multiset(d.members.order);
    var j :| 0 <= j < |d.members.order| && d.members.order[j] == ms[i];
    PairWellFormedAt(d.members.order, j);
  }

  lemma {:induction false} FieldMapOf(ms: seq<T.Pair<Text, Doc>>, flags: Flags, d: Doc, k: Text)
    requires MembersOf(ms, d) && T.Distinct(ms)
    ensures G.FieldsProper(FieldsOf(ms, flags, d))
    ensures k in FieldMap(FieldsOf(ms, flags, d)) <==> T.Find(ms, k) < |ms|
    ensures T.Find(ms, k) < |ms| ==>
              G.Proper(TreeOf(ms[T.Find(ms, k)].value, flags)) &&
              FieldMap(FieldsOf(ms, flags, d))[k] == G.Build(TreeOf(ms[T.Find(ms, k)].value, flags))
    decreases |ms|
  {
    hide TreeOf, G.Build, G.Proper, Printable;
    FieldsAreProper(ms, flags, d);
    if ms != [] {
      TreeIsProper(ms[0].value, flags);
      assert T.Distinct(ms[1..]);
      FieldMapOf(ms[1..], flags, d, k);
      assert FieldsOf(ms, flags, d)[1..] == FieldsOf(ms[1..], flags, d);
    }
  }

  /** The tree of a document builds a value that denotes what the document denotes. */
  lemma {:induction false} BuildTree(d: Doc, flags: Flags)
    requires Printable(d) && WellFormed(d)
    ensures G.Proper(TreeOf(d, flags)) && WellFormed(G.Build(TreeOf(d, flags)))
    ensures ValueOf(G.Build(TreeOf(d, flags))) == ValueOf(d)
    decreases d, 1
  {
    hide Arrange;
    TreeIsProper(d, flags);
    if d.Array? {
      BuildTrees(d.items, flags);
    } else if d.Object? {
      BuildObject(d, flags);
    }
  }

  lemma {:induction false} BuildTrees(items: seq<Doc>, flags: Flags)
    requires AllPrintable(items) && AllWellFormed(items)
    ensures G.AllProper(TreesOf(items, flags)) && AllWellFormed(G.BuildItems(TreesOf(items, flags)))
    ensures ValuesOf(G.BuildItems(TreesOf(items, flags))) == ValuesOf(items)
    decreases items, 0
  {
    hide TreeOf, G.Build, ValueOf, WellFormed, Printable;
    TreesAreProper(items, flags);
    if items != [] {
      BuildTree(items[0], flags);
      BuildTrees(items[1..], flags);
      assert TreesOf(items, flags)[1..] == TreesOf(items[1..], flags);
      var ds := G.BuildItems(TreesOf(items, flags));
      assert ds[1..] == G.BuildItems(TreesOf(items[1..], flags));
    }
  }

  lemma {:induction false} BuildObject(d: Doc, flags: Flags)
    requires Printable(d) && WellFormed(d) && d.Object?
    ensures G.Proper(TreeOf(d, flags)) && WellFormed(G.Build(TreeOf(d, flags)))
    ensures ValueOf(G.Build(TreeOf(d, flags))) == ValueOf(d)
    decreases d, 0
  {
    hide Arrange, T.MapOf, T.Find, ValueOf;
    var ms := Arrange(flags, d.members.order);
    ArrangedMembers(flags, d);
    ArrangedDistinct(flags, d.members.order);
    TreeIsProper(d, flags);
    var fs := FieldsOf(ms, flags, d);
    var r := G.Build(TreeOf(d, flags));
    FieldsAreProper(ms, flags, d);
    LaterFieldWins(fs);
    assert r.Object? && DocMap(r) == FieldMap(fs);
    forall k ensures k in DocMap(r) <==> k in DocMap(d)
             ensures k in DocMap(r) ==> WellFormed(DocMap(r)[k]) && ValueOf(DocMap(r)[k]) == ValueOf(DocMap(d)[k])
    {
      FieldMapOf(ms, flags, d, k);
      ArrangedAt(ms, d, k);
      if k in DocMap(r) {
        var i := T.Find(ms, k);
        ArrangedWellFormed(flags, d, i);
        BuildTree(ms[i].value, flags);
      }
    }
    G.EmptyIsValid();
    FieldsOverride(fs, EMPTY_OBJECT);
    WellFormedFromMap(r);
    SameObject(r, d);
  }

  lemma ArrangedAt(ms: seq<T.Pair<Text, Doc>>, d: Doc, k: Text)
    requires d.Object? && T.MapOf(ms) == DocMap(d)
    ensures k in DocMap(d) <==> T.Find(ms, k) < |ms|
    ensures T.Find(ms, k) < |ms| ==> DocMap(d)[k] == ms[T.Find(ms, k)].value
  {
    T.InMapIff(ms, k);
  }
}
