/**
 JSON values as trees: `Doc` is a value as `value.c` stores it (an object is a table in list order,
 with the serials of its keys), `Value` is what it denotes (an object is a finite map).
 */
module Json {
  import opened Bytes
  import T = Tables

  type Members = T.Table<Text, Doc>

  /** `serial` is the object's counter for the next key; a real keeps the text it was read from. */
  datatype Doc =
    | Null
    | True
    | False
    | Integer(n: int)
    | Real(lexeme: Text)
    | Str(s: Text)
    | Array(items: seq<Doc>)
    | Object(members: Members, serial: nat)

  datatype Value =
    | VNull
    | VTrue
    | VFalse
    | VInteger(n: int)
    | VReal(lexeme: Text)
    | VStr(s: Text)
    | VArray(items: seq<Value>)
    | VObject(members: map<Text, Value>)

  const EMPTY_OBJECT: Doc := Object(T.Table(0, []), 0)

  // ---------------------------------------------------------------- hashing and setting

  /** One round of `jsonp_hash_str`; a negative `char` is sign-extended to `size_t`. */
  function HashStep(hash: nat, b: byte): (h: nat)
    ensures h <= SIZE_MAX
  {
    (hash * 33 + (if b < 0x80 then b as int else SIZE_MAX + 1 - 0x100 + b)) % (SIZE_MAX + 1)
  }

  function HashStr(s: Text): (h: nat)
    ensures h <= SIZE_MAX
  {
    if s == [] then 5381 else HashStep(HashStr(s[..|s| - 1]), s[|s| - 1])
  }

  function Power33(n: nat): nat { if n == 0 then 1 else 33 * Power33(n - 1) }

  /** The bytes as signed characters, weighted by powers of 33. */
  ghost function Weighted(s: Text): int {
    if s == [] then 0 else SignedChar(s[0]) * Power33(|s| - 1) + Weighted(s[1..])
  }

  lemma {:induction false} WeightedSnoc(s: Text)
    requires s != []
    ensures Weighted(s) == Weighted(s[..|s| - 1]) * 33 + SignedChar(s[|s| - 1])
    decreases |s|
  {
    hide SignedChar;
    if |s| == 1 {
      assert s[1..] == [] && s[..0] == [] && Power33(0) == 1;
    } else {
      var front := s[..|s| - 1];
      WeightedSnoc(s[1..]);
      assert s[1..][..|s| - 2] == front[1..];
      Times33(SignedChar(s[0]), Power33(|s| - 2), Weighted(front[1..]));
    }
  }

  lemma Times33(c: int, w: nat, v: int)
    ensures c * (33 * w) + v * 33 == (c * w + v) * 33
  {
  }

  /** A round of the hash is a multiplication and an addition up to a multiple of 2^64. */
  lemma HashStepIs(hash: nat, b: byte) returns (k: int)
    ensures HashStep(hash, b) == hash * 33 + SignedChar(b) + k * 0x1_0000_0000_0000_0000
  {
    var sum := hash * 33 + (if b < 0x80 then b as int else SIZE_MAX + 1 - 0x100 + b);
    k := (if b < 0x80 then 0 else 1) - sum / 0x1_0000_0000_0000_0000;
  }

  /** The hash of a string is, modulo 2^64, the number that its bytes are to the base 33, behind 5381. */
  lemma {:induction false} HashIsPolynomial(s: Text) returns (k: int)
    ensures HashStr(s) == 5381 * Power33(|s|) + Weighted(s) + k * 0x1_0000_0000_0000_0000
    decreases |s|
  {
    hide HashStep, SignedChar, Weighted;
    if s == [] {
      k := 0;
      NothingWeighted();
    } else {
      var front := s[..|s| - 1];
      var j := HashIsPolynomial(front);
      var i := HashStepIs(HashStr(front), s[|s| - 1]);
      WeightedSnoc(s);
      k := 33 * j + i;
    }
  }

  lemma NothingWeighted()
    ensures Weighted([]) == 0 && Power33(0) == 1
  {
  }

  method ComputeHash(s: CString) returns (hash: nat)
    ensures hash == HashStr(s)
  {
    hash := 5381;
    var i := 0;
    while i < |s|
      invariant 0 <= i <= |s| && hash == HashStr(s[..i])
    {
      assert s[..i + 1][..i] == s[..i];
      hash := HashStep(hash, s[i]);
      i := i + 1;
    }
    assert s[..i] == s;
  }

  /** `json_object_set_nocheck` on a tree: the key gets the object's next serial. */
  function SetMember(d: Doc, key: Text, value: Doc): (r: Doc)
    requires d.Object?
    ensures r.Object?
  {
    Object(T.Set(HashStr, d.members, key, d.serial, value), d.serial + 1)
  }

  // ---------------------------------------------------------------- denotation

  ghost function ValueOf(d: Doc): Value
    decreases d, 1
  {
    match d
    case Null => VNull
    case True => VTrue
    case False => VFalse
    case Integer(n) => VInteger(n)
    case Real(x) => VReal(x)
    case Str(s) => VStr(s)
    case Array(items) => VArray(ValuesOf(items))
    case Object(members, _) => VObject(T.MapOf(PairsOf(members.order)))
  }

  ghost function ValuesOf(items: seq<Doc>): (vs: seq<Value>)
    ensures |vs| == |items|
    decreases items, 0
  {
    if items == [] then [] else [ValueOf(items[0])] + ValuesOf(items[1..])
  }

  /** The pairs of an object, with each value replaced by what it denotes. */
  ghost function PairsOf(order: seq<T.Pair<Text, Doc>>): (ps: seq<T.Pair<Text, Value>>)
    ensures |ps| == |order|
    decreases order, 0
  {
    if order == [] then []
    else
      assert order[0].value < order[0];
      [T.Pair(order[0].key, order[0].serial, ValueOf(order[0].value))] + PairsOf(order[1..])
  }

  /** Every object has distinct keys. */
  ghost predicate WellFormed(d: Doc)
    decreases d, 1
  {
    match d
    case Array(items) => AllWellFormed(items)
    case Object(members, _) => T.Distinct(members.order) && PairsWellFormed(members.order)
    case _ => true
  }

  ghost predicate AllWellFormed(items: seq<Doc>)
    decreases items, 0
  {
    items == [] || (WellFormed(items[0]) && AllWellFormed(items[1..]))
  }

  ghost predicate PairsWellFormed(order: seq<T.Pair<Text, Doc>>)
    decreases order, 0
  {
    order == [] ||
    (assert order[0].value < order[0];
     WellFormed(order[0].value) && PairsWellFormed(order[1..]))
  }

  // ---------------------------------------------------------------- equality

  /** `json_equal`: sizes are compared, then only the first object's keys are iterated. */
  predicate Equal(a: Doc, b: Doc)
    decreases a, 1
  {
    match (a, b)
    case (Null, Null) => true
    case (True, True) => true
    case (False, False) => true
    case (Integer(m), Integer(n)) => m == n
    case (Real(x), Real(y)) => x == y
    case (Str(s), Str(t)) => s == t
    case (Array(xs), Array(ys)) => |xs| == |ys| && ItemsEqual(xs, ys)
    case (Object(ms, _), Object(ns, _)) => |ms.order| == |ns.order| && MembersEqual(ms.order, ns)
    case _ => false
  }

  predicate ItemsEqual(xs: seq<Doc>, ys: seq<Doc>)
    requires |xs| == |ys|
    decreases xs, 0
  {
    xs == [] || (Equal(xs[0], ys[0]) && ItemsEqual(xs[1..], ys[1..]))
  }

  predicate MembersEqual(order: seq<T.Pair<Text, Doc>>, other: Members)
    decreases order, 0
  {
    order == [] ||
    (assert order[0].value < order[0];
     var v := T.Get(other, order[0].key);
     v.Some? && Equal(order[0].value, v.value) && MembersEqual(order[1..], other))
  }

  lemma {:induction false} PairsOfAt(order: seq<T.Pair<Text, Doc>>, i: nat)
    requires i < |order|
    ensures PairsOf(order)[i] == T.Pair(order[i].key, order[i].serial, ValueOf(order[i].value))
  {
    if i > 0 {
      PairsOfAt(order[1..], i - 1);
    }
  }

  lemma {:induction false} WellFormedAt(items: seq<Doc>, i: nat)
    requires i < |items| && AllWellFormed(items)
    ensures WellFormed(items[i])
  {
    if i > 0 {
      WellFormedAt(items[1..], i - 1);
    }
  }

  lemma {:induction false} PairWellFormedAt(order: seq<T.Pair<Text, Doc>>, i: nat)
    requires i < |order| && PairsWellFormed(order)
    ensures WellFormed(order[i].value)
  {
    if i > 0 {
      PairWellFormedAt(order[1..], i - 1);
    }
  }

  lemma FindInPairsOf(order: seq<T.Pair<Text, Doc>>, k: Text)
    ensures T.Find(PairsOf(order), k) == T.Find(order, k)
    ensures T.Find(order, k) < |order| ==>
              T.Lookup(PairsOf(order), k) == Some(PairsOf(order)[T.Find(order, k)])
  {
    var i := T.Find(order, k);
    forall j | 0 <= j < |order| ensures PairsOf(order)[j].key == order[j].key {
      PairsOfAt(order, j);
    }
    T.FindIs(PairsOf(order), k, i);
  }

  lemma PairsOfDistinct(order: seq<T.Pair<Text, Doc>>)
    requires T.Distinct(order)
    ensures T.Distinct(PairsOf(order))
  {
    forall i, j | 0 <= i < j < |order| ensures PairsOf(order)[i].key != PairsOf(order)[j].key {
      PairsOfAt(order, i);
      PairsOfAt(order, j);
    }
  }

  /** What an object denotes at a key. */
  lemma ObjectValueAt(order: seq<T.Pair<Text, Doc>>, k: Text)
    ensures k in T.MapOf(PairsOf(order)) <==> T.Find(order, k) < |order|
    ensures T.Find(order, k) < |order| ==> T.MapOf(PairsOf(order))[k] == ValueOf(order[T.Find(order, k)].value)
  {
    FindInPairsOf(order, k);
    T.InMapIff(PairsOf(order), k);
    if T.Find(order, k) < |order| {
      PairsOfAt(order, T.Find(order, k));
    }
  }

  lemma ObjectSize(order: seq<T.Pair<Text, Doc>>)
    requires T.Distinct(order)
    ensures |T.MapOf(PairsOf(order))| == |order|
  {
    PairsOfDistinct(order);
    T.MapSize(PairsOf(order));
  }

  // ---------------------------------------------------------------- equality is equality of denotations

  lemma {:induction false} EqualIsSameValue(a: Doc, b: Doc)
    requires WellFormed(a) && WellFormed(b)
    ensures Equal(a, b) <==> ValueOf(a) == ValueOf(b)
    decreases a, 1
  {
    if a.Array? && b.Array? {
      if |a.items| == |b.items| {
        ItemsEqualIsSameValues(a.items, b.items);
      } else {
        assert |ValuesOf(a.items)| != |ValuesOf(b.items)|;
      }
    } else if a.Object? && b.Object? {
      MembersEqualIsSameMap(a.members.order, b.members);
    }
  }

  lemma {:induction false} ItemsEqualIsSameValues(xs: seq<Doc>, ys: seq<Doc>)
    requires |xs| == |ys| && AllWellFormed(xs) && AllWellFormed(ys)
    ensures ItemsEqual(xs, ys) <==> ValuesOf(xs) == ValuesOf(ys)
    decreases xs, 0
  {
    if xs != [] {
      EqualIsSameValue(xs[0], ys[0]);
      ItemsEqualIsSameValues(xs[1..], ys[1..]);
      assert ValuesOf(xs)[0] == ValueOf(xs[0]) && ValuesOf(xs)[1..] == ValuesOf(xs[1..]);
      assert ValuesOf(ys)[0] == ValueOf(ys[0]) && ValuesOf(ys)[1..] == ValuesOf(ys[1..]);
    }
  }

  /** Each member of `order` is found in `other` with a value of the same denotation. */
  ghost predicate Covered(order: seq<T.Pair<Text, Doc>>, other: Members) {
    forall i | 0 <= i < |order| ::
      var v := T.Get(other, order[i].key); v.Some? && ValueOf(order[i].value) == ValueOf(v.value)
  }

  lemma {:induction false} MembersEqualIsCovered(order: seq<T.Pair<Text, Doc>>, other: Members)
    requires PairsWellFormed(order) && PairsWellFormed(other.order)
    ensures MembersEqual(order, other) <==> Covered(order, other)
    decreases order, 0
  {
    if order != [] {
      var v := T.Get(other, order[0].key);
      if v.Some? {
        PairWellFormedAt(other.order, T.Find(other.order, order[0].key));
        assert order[0].value < order[0];
        EqualIsSameValue(order[0].value, v.value);
      }
      MembersEqualIsCovered(order[1..], other);
      assert forall i {:trigger order[i]} | 1 <= i < |order| :: order[i] == order[1..][i - 1];
      if Covered(order, other) {
        assert forall i | 0 <= i < |order[1..]| :: order[1..][i] == order[i + 1];
      }
    }
  }

  /**
   Iterating only the first object's keys is enough: with equal sizes and distinct keys, covering
   one map by the other makes the key sets equal.
   */
  lemma MembersEqualIsSameMap(order: seq<T.Pair<Text, Doc>>, other: Members)
    requires T.Distinct(order) && T.Distinct(other.order)
    requires PairsWellFormed(order) && PairsWellFormed(other.order)
    ensures (|order| == |other.order| && MembersEqual(order, other))
            <==> T.MapOf(PairsOf(order)) == T.MapOf(PairsOf(other.order))
    decreases order, 1
  {
    MembersEqualIsCovered(order, other);
    if |order| == |other.order| && Covered(order, other) {
      CoveredIsSameMap(order, other);
    } else if T.MapOf(PairsOf(order)) == T.MapOf(PairsOf(other.order)) {
      SameMapIsCovered(order, other);
    }
  }

  lemma CoveredIsSameMap(order: seq<T.Pair<Text, Doc>>, other: Members)
    requires T.Distinct(order) && T.Distinct(other.order)
    requires |order| == |other.order| && Covered(order, other)
    ensures T.MapOf(PairsOf(order)) == T.MapOf(PairsOf(other.order))
  {
    hide T.MapOf, Covered;
    var m, n := T.MapOf(PairsOf(order)), T.MapOf(PairsOf(other.order));
    ObjectSize(order);
    ObjectSize(other.order);
    forall k | k in m ensures k in n && m[k] == n[k] {
      CoveredAt(order, other, k);
    }
    assert |m.Keys| == |n.Keys|;
    SameSizeKeys(m.Keys, n.Keys);
  }

  lemma SameMapIsCovered(order: seq<T.Pair<Text, Doc>>, other: Members)
    requires T.Distinct(order) && T.Distinct(other.order)
    requires T.MapOf(PairsOf(order)) == T.MapOf(PairsOf(other.order))
    ensures |order| == |other.order| && Covered(order, other)
  {
    hide T.MapOf, T.Get, T.Distinct, ValueOf;
    ObjectSize(order);
    ObjectSize(other.order);
    forall i | 0 <= i < |order|
      ensures var v := T.Get(other, order[i].key); v.Some? && ValueOf(order[i].value) == ValueOf(v.value)
    {
      MemberCovered(order, other, i);
    }
  }

  lemma MemberCovered(order: seq<T.Pair<Text, Doc>>, other: Members, i: nat)
    requires T.Distinct(order) && i < |order|
    requires T.MapOf(PairsOf(order)) == T.MapOf(PairsOf(other.order))
    ensures var v := T.Get(other, order[i].key); v.Some? && ValueOf(order[i].value) == ValueOf(v.value)
  {
    hide T.MapOf, T.Find;
    T.FindAt(order, i);
    ObjectValueAt(order, order[i].key);
    ObjectValueAt(other.order, order[i].key);
  }

  lemma CoveredAt(order: seq<T.Pair<Text, Doc>>, other: Members, k: Text)
    requires Covered(order, other) && k in T.MapOf(PairsOf(order))
    ensures k in T.MapOf(PairsOf(other.order)) && T.MapOf(PairsOf(order))[k] == T.MapOf(PairsOf(other.order))[k]
  {
    ObjectValueAt(order, k);
    ObjectValueAt(other.order, k);
    assert order[T.Find(order, k)].key == k;
  }

  lemma SameSizeKeys<K>(a: set<K>, b: set<K>)
    requires a <= b && |a| == |b|
    ensures a == b
  {
    assert |b - a| == |b| - |a|;
  }

  // json_equal is an equivalence on values with distinct keys

  lemma EqualReflexive(a: Doc)
    requires WellFormed(a)
    ensures Equal(a, a)
  {
    EqualIsSameValue(a, a);
  }

  lemma EqualSymmetric(a: Doc, b: Doc)
    requires WellFormed(a) && WellFormed(b)
    ensures Equal(a, b) <==> Equal(b, a)
  {
    EqualIsSameValue(a, b);
    EqualIsSameValue(b, a);
  }

  lemma EqualTransitive(a: Doc, b: Doc, c: Doc)
    requires WellFormed(a) && WellFormed(b) && WellFormed(c) && Equal(a, b) && Equal(b, c)
    ensures Equal(a, c)
  {
    EqualIsSameValue(a, b);
    EqualIsSameValue(b, c);
    EqualIsSameValue(a, c);
  }
}
