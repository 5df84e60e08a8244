/**
 JSON_PRESERVE_ORDER over runs of set and delete: keys are printed in the order in which each was
 first set since it was last absent.
 */
module InsertionOrder {
  import opened Bytes
  import opened Json
  import D = DocumentTrip
  import P = Printing
  import T = Tables

  datatype Op = Put(key: Text, value: Doc) | Remove(key: Text)

  /** The object after one operation. */
  function Apply(d: Doc, op: Op): (r: Doc)
    requires d.Object?
    ensures r.Object?
  {
    match op
    case Put(key, value) => SetMember(d, key, value)
    case Remove(key) => Object(T.Del(d.members, key), d.serial)
  }

  /** The object after a run, which starts with the empty object. */
  function Run(ops: seq<Op>): (r: Doc)
    ensures r.Object?
  {
    if ops == [] then EMPTY_OBJECT else Apply(Run(ops[..|ops| - 1]), ops[|ops| - 1])
  }

  function Puts(ops: seq<Op>): nat {
    if ops == [] then 0 else Puts(ops[..|ops| - 1]) + (if ops[|ops| - 1].Put? then 1 else 0)
  }

  function Without(ks: seq<Text>, k: Text): seq<Text> {
    if ks == [] then [] else (if ks[0] == k then [] else [ks[0]]) + Without(ks[1..], k)
  }

  /** The keys that are present, in the order in which each was first set since it was last absent. */
  function FirstSet(ops: seq<Op>): seq<Text> {
    if ops == [] then []
    else
      var ks := FirstSet(ops[..|ops| - 1]);
      match ops[|ops| - 1]
      case Put(key, _) => if key in ks then ks else ks + [key]
      case Remove(key) => Without(ks, key)
  }

  /** The serials of the keys of `ks` increase, from `lo` on. */
  ghost predicate Rising(ks: seq<Text>, serials: map<Text, nat>, lo: nat) {
    ks == [] || (ks[0] in serials && lo <= serials[ks[0]] && Rising(ks[1..], serials, serials[ks[0]] + 1))
  }

  /** `ks` are the keys of `serials` by increasing serials, which are below `n`. */
  ghost predicate Increasing(ks: seq<Text>, serials: map<Text, nat>, n: nat) {
    Rising(ks, serials, 0) && forall k :: k in serials ==> k in ks && serials[k] < n
  }

  lemma {:induction false} RisingLower(ks: seq<Text>, serials: map<Text, nat>, lo: nat, lower: nat)
    requires Rising(ks, serials, lo) && lower <= lo
    ensures Rising(ks, serials, lower)
  {
  }

  lemma {:induction false} RisingHas(ks: seq<Text>, serials: map<Text, nat>, lo: nat, x: Text)
    requires Rising(ks, serials, lo) && x in ks
    ensures x in serials && lo <= serials[x]
  {
    if x != ks[0] {
      RisingHas(ks[1..], serials, serials[ks[0]] + 1, x);
    }
  }

  lemma {:induction false} WithoutHas(ks: seq<Text>, k: Text, x: Text)
    ensures x in Without(ks, k) <==> x in ks && x != k
  {
    if ks != [] {
      WithoutHas(ks[1..], k, x);
      assert ks == [ks[0]] + ks[1..];
    }
  }

  lemma {:induction false} WithoutRises(ks: seq<Text>, k: Text, serials: map<Text, nat>, lo: nat)
    requires Rising(ks, serials, lo)
    ensures Rising(Without(ks, k), serials - {k}, lo)
  {
    if ks != [] {
      WithoutRises(ks[1..], k, serials, serials[ks[0]] + 1);
      if ks[0] == k {
        assert Without(ks, k) == Without(ks[1..], k);
        RisingLower(Without(ks[1..], k), serials - {k}, serials[ks[0]] + 1, lo);
      } else {
        assert Without(ks, k)[1..] == Without(ks[1..], k);
      }
    }
  }

  lemma WithoutIncreasing(ks: seq<Text>, k: Text, serials: map<Text, nat>, n: nat)
    requires Increasing(ks, serials, n)
    ensures Increasing(Without(ks, k), serials - {k}, n)
  {
    WithoutRises(ks, k, serials, 0);
    forall x | x in serials - {k} ensures x in Without(ks, k) {
      WithoutHas(ks, k, x);
    }
  }

  lemma {:induction false} AppendRises(ks: seq<Text>, k: Text, serials: map<Text, nat>, lo: nat, n: nat)
    requires Rising(ks, serials, lo) && lo <= n && k !in ks && forall x :: x in serials ==> serials[x] < n
    ensures Rising(ks + [k], serials[k := n], lo)
  {
    if ks == [] {
      assert (ks + [k])[1..] == [];
    } else {
      assert (ks + [k])[1..] == ks[1..] + [k];
      AppendRises(ks[1..], k, serials, serials[ks[0]] + 1, n);
    }
  }

  lemma AppendIncreasing(ks: seq<Text>, k: Text, serials: map<Text, nat>, n: nat)
    requires Increasing(ks, serials, n)
    ensures k in ks ==> Increasing(ks, serials, n + 1) && k in serials
    ensures k !in ks ==> Increasing(ks + [k], serials[k := n], n + 1) && k !in serials
  {
    if k in ks {
      RisingHas(ks, serials, 0, k);
    } else {
      AppendRises(ks, k, serials, 0, n);
      assert (ks + [k])[|ks|] == k;
    }
  }

  /** What every run keeps. */
  lemma {:induction false} RunKeeps(ops: seq<Op>)
    ensures T.Valid(HashStr, Run(ops).members) && Run(ops).serial == Puts(ops)
    ensures Increasing(FirstSet(ops), T.SerialsOf(Run(ops).members.order), Puts(ops))
    decreases |ops|
  {
    hide T.Valid, T.SerialsOf, Apply, Increasing, Without;
    if ops == [] {
      StartKeeps();
    } else {
      var before := ops[..|ops| - 1];
      RunKeeps(before);
      var d, ks := Run(before), FirstSet(before);
      match ops[|ops| - 1]
      case Put(key, value) => PutKeeps(d, ks, key, value);
      case Remove(key) => RemoveKeeps(d, ks, key);
    }
  }

  lemma PutKeeps(d: Doc, ks: seq<Text>, key: Text, value: Doc)
    requires d.Object? && T.Valid(HashStr, d.members) && Increasing(ks, T.SerialsOf(d.members.order), d.serial)
    ensures var r := Apply(d, Put(key, value));
            && T.Valid(HashStr, r.members) && r.serial == d.serial + 1
            && Increasing(if key in ks then ks else ks + [key], T.SerialsOf(r.members.order), r.serial)
  {
    hide T.Valid, T.SerialsOf, T.MapOf, T.Set, Increasing;
    T.SetIsUpdate(HashStr, d.members, key, d.serial, value);
    AppendIncreasing(ks, key, T.SerialsOf(d.members.order), d.serial);
  }

  lemma RemoveKeeps(d: Doc, ks: seq<Text>, key: Text)
    requires d.Object? && T.Valid(HashStr, d.members) && Increasing(ks, T.SerialsOf(d.members.order), d.serial)
    ensures var r := Apply(d, Remove(key));
            && T.Valid(HashStr, r.members) && r.serial == d.serial
            && Increasing(Without(ks, key), T.SerialsOf(r.members.order), r.serial)
  {
    hide T.Valid, T.SerialsOf, T.MapOf, T.Del, Increasing, Without;
    T.DelIsRemoval(HashStr, d.members, key);
    WithoutIncreasing(ks, key, T.SerialsOf(d.members.order), d.serial);
  }

  lemma StartKeeps()
    ensures T.Valid(HashStr, EMPTY_OBJECT.members) && Increasing([], T.SerialsOf(EMPTY_OBJECT.members.order), 0)
  {
    assert T.Buckets(HashStr, T.Size(0), EMPTY_OBJECT.members.order) == [];
  }

  // ---------------------------------------------------------------- comparing serials

  function Distance(a: nat, b: nat): nat {
    if a < b then b - a else a - b
  }

  /** The two serials are the same, or their distance, modulo 2^32, is positive and below 2^31. */
  predicate Apart(a: nat, b: nat) {
    a == b || 0 < Distance(a, b) % 0x1_0000_0000 < 0x8000_0000
  }

  /** The comparison puts the earlier of two different serials first. */
  predicate Ordered(a: nat, b: nat) {
    (a < b <==> P.CompareSerials(a, b) < 0) && (a > b <==> P.CompareSerials(a, b) > 0) &&
    (a < b <==> P.CompareSerials(b, a) > 0) && (a > b <==> P.CompareSerials(b, a) < 0)
  }

  /** The wrap-around of one difference, in both directions. */
  lemma CompareSerialsIs(a: nat, b: nat)
    requires a < b
    ensures var m := (b - a) % 0x1_0000_0000;
            && P.CompareSerials(b, a) == (if m < 0x8000_0000 then m else m - 0x1_0000_0000)
            && P.CompareSerials(a, b) == (if m == 0 then 0 else if m <= 0x8000_0000 then -m else 0x1_0000_0000 - m)
  {
    var d := b - a;
    var m := d % 0x1_0000_0000;
    assert d == d / 0x1_0000_0000 * 0x1_0000_0000 + m;
    if m == 0 {
      assert -d == -(d / 0x1_0000_0000) * 0x1_0000_0000;
    } else {
      assert -d == (-(d / 0x1_0000_0000) - 1) * 0x1_0000_0000 + (0x1_0000_0000 - m);
    }
  }

  /**
   The comparison orders two serials exactly when their distance modulo 2^32 is positive and below
   2^31.  Otherwise it calls them equal (at 0), puts each before the other (at 2^31), or reverses them.
   */
  lemma CompareSerialsExactly(a: nat, b: nat)
    ensures Ordered(a, b) <==> Apart(a, b)
    ensures a < b && !Apart(a, b) ==>
              var m := (b - a) % 0x1_0000_0000;
              if m == 0 then P.CompareSerials(a, b) == P.CompareSerials(b, a) == 0
              else if m == 0x8000_0000 then P.CompareSerials(a, b) < 0 && P.CompareSerials(b, a) < 0
              else P.CompareSerials(a, b) > 0 && P.CompareSerials(b, a) < 0
  {
    if a < b {
      CompareSerialsIs(a, b);
    } else if b < a {
      CompareSerialsIs(b, a);
    }
  }

  // ---------------------------------------------------------------- sorting by serials

  /** Every two serials are apart. */
  ghost predicate AllApart(s: seq<T.Pair<Text, Doc>>) {
    forall p, q :: p in s && q in s ==> Apart(p.serial, q.serial)
  }

  ghost predicate SerialSorted(s: seq<T.Pair<Text, Doc>>) {
    forall i, j :: 0 <= i < j < |s| ==> s[i].serial <= s[j].serial
  }

  lemma {:induction false} PlaceSorted(p: T.Pair<Text, Doc>, s: seq<T.Pair<Text, Doc>>)
    requires AllApart([p] + s) && SerialSorted(s)
    ensures SerialSorted(P.Place(false, p, s))
    decreases |s|
  {
    hide P.CompareSerials, SerialSorted, AllApart, Apart;
    if s == [] {
      SortedFront(p, []);
      assert [p] + [] == [p];
    } else {
      ApartHead(p, s);
      if P.Compare(false, s[0], p) <= 0 {
        PlaceSorted(p, s[1..]);
        SortedBehind(s, p, P.Place(false, p, s[1..]));
      } else {
        SortedFront(p, s);
      }
    }
  }

  lemma ApartHead(p: T.Pair<Text, Doc>, s: seq<T.Pair<Text, Doc>>)
    requires s != [] && AllApart([p] + s) && SerialSorted(s)
    ensures P.Compare(false, s[0], p) <= 0 <==> s[0].serial <= p.serial
    ensures AllApart([p] + s[1..]) && SerialSorted(s[1..])
  {
    assert p in [p] + s && s[0] in [p] + s;
    CompareSerialsExactly(s[0].serial, p.serial);
    assert forall x :: x in [p] + s[1..] ==> x in [p] + s;
  }

  lemma SortedFront(p: T.Pair<Text, Doc>, s: seq<T.Pair<Text, Doc>>)
    requires SerialSorted(s) && (s != [] ==> p.serial <= s[0].serial)
    ensures SerialSorted([p] + s)
  {
    var r := [p] + s;
    assert forall i {:trigger r[i]} :: 0 < i < |r| ==> r[i] == s[i - 1];
  }

  lemma SortedBehind(s: seq<T.Pair<Text, Doc>>, p: T.Pair<Text, Doc>, q: seq<T.Pair<Text, Doc>>)
    requires s != [] && SerialSorted(s) && SerialSorted(q) && s[0].serial <= p.serial
    requires multiset(q) == multiset(s[1..]) + multiset{p}
    ensures SerialSorted([s[0]] + q)
  {
    var r := [s[0]] + q;
    assert forall i {:trigger r[i]} :: 0 < i < |r| ==> r[i] == q[i - 1];
    forall j | 0 <= j < |q| ensures s[0].serial <= q[j].serial {
      assert q[j] in multiset(q);
      if q[j] != p {
        assert q[j] in s[1..];
        var m :| 0 <= m < |s| - 1 && s[1..][m] == q[j];
        assert s[m + 1] == q[j];
      }
    }
  }

  lemma {:induction false} SortSorted(s: seq<T.Pair<Text, Doc>>)
    requires AllApart(s)
    ensures SerialSorted(P.Sort(false, s))
    decreases |s|
  {
    if s != [] {
      SortSorted(s[1..]);
      var r := P.Sort(false, s[1..]);
      forall x | x in [s[0]] + r ensures x in s {
        if x != s[0] {
          assert x in multiset(r) && x in multiset(s[1..]);
        }
      }
      PlaceSorted(s[0], r);
    }
  }

  // ---------------------------------------------------------------- sorting pairs that are not apart

  /** `q` stands before `p` in `s`. */
  ghost predicate Reversed(s: seq<T.Pair<Text, Doc>>, p: T.Pair<Text, Doc>, q: T.Pair<Text, Doc>) {
    exists i, j :: 0 <= i < j < |s| && s[i] == q && s[j] == p
  }

  /** Placing another pair leaves the others in their order. */
  lemma {:induction false} PlaceKeepsReversed(x: T.Pair<Text, Doc>, s: seq<T.Pair<Text, Doc>>,
          p: T.Pair<Text, Doc>, q: T.Pair<Text, Doc>)
    requires Reversed(s, p, q)
    ensures Reversed(P.Place(false, x, s), p, q)
    decreases |s|
  {
    hide P.CompareSerials;
    var i, j :| 0 <= i < j < |s| && s[i] == q && s[j] == p;
    var r := P.Place(false, x, s);
    if P.Compare(false, s[0], x) > 0 {
      assert r[i + 1] == q && r[j + 1] == p;
    } else if i > 0 {
      assert s[1..][i - 1] == q && s[1..][j - 1] == p;
      PlaceKeepsReversed(x, s[1..], p, q);
      var k, l :| 0 <= k < l < |r| - 1 && r[1..][k] == q && r[1..][l] == p;
      assert r[k + 1] == q && r[l + 1] == p;
    } else {
      var rest := P.Place(false, x, s[1..]);
      assert s[1..][j - 1] == p;
      assert p in multiset(s[1..]) && p in multiset(rest);
      var l :| 0 <= l < |rest| && rest[l] == p;
      assert r[0] == q && r[l + 1] == p;
    }
  }

  /** Wherever two pairs that are not apart stand at the end of the list, the later is printed first. */
  lemma {:induction false} SortReverses(front: seq<T.Pair<Text, Doc>>, p: T.Pair<Text, Doc>, q: T.Pair<Text, Doc>)
    requires p.serial < q.serial && !Apart(p.serial, q.serial)
    ensures Reversed(P.Sort(false, front + [p, q]), p, q)
    decreases |front|
  {
    hide P.CompareSerials, Apart;
    var s := front + [p, q];
    if front == [] {
      CompareSerialsExactly(p.serial, q.serial);
      TwoPlaced(p, q);
      assert s == [p, q];
      assert P.Sort(false, s)[0] == q && P.Sort(false, s)[1] == p;
    } else {
      assert s[0] == front[0] && s[1..] == front[1..] + [p, q];
      SortReverses(front[1..], p, q);
      PlaceKeepsReversed(front[0], P.Sort(false, front[1..] + [p, q]), p, q);
    }
  }

  lemma TwoPlaced(p: T.Pair<Text, Doc>, q: T.Pair<Text, Doc>)
    requires P.CompareSerials(q.serial, p.serial) <= 0
    ensures P.Sort(false, [p, q]) == [q, p]
  {
    assert [p, q][1..] == [q] && [q][1..] == [];
    assert P.Sort<Doc>(false, []) == [] && P.Sort(false, [q]) == [q];
  }

  function KeysIn(s: seq<T.Pair<Text, Doc>>): (ks: seq<Text>)
    ensures |ks| == |s|
    ensures forall i :: 0 <= i < |s| ==> ks[i] == s[i].key
  {
    seq(|s|, i requires 0 <= i < |s| => s[i].key)
  }

  /** Two orders of the same keys by increasing serials are the same. */
  lemma {:induction false} SameOrder(a: seq<Text>, b: seq<Text>, serials: map<Text, nat>, lo: nat, hi: nat)
    requires Rising(a, serials, lo) && Rising(b, serials, hi) && forall x :: x in a <==> x in b
    ensures a == b
    decreases |a|
  {
    if a == [] {
      assert b == [] by {
        if b != [] {
          NotEmpty(b);
        }
      }
    } else {
      NotEmpty(a);
      SameFirst(a, b, serials, lo, hi);
      forall x ensures x in a[1..] <==> x in b[1..] {
        InTail(a, serials, lo, x);
        InTail(b, serials, hi, x);
      }
      SameOrder(a[1..], b[1..], serials, serials[a[0]] + 1, serials[b[0]] + 1);
      assert a == [a[0]] + a[1..] && b == [b[0]] + b[1..];
    }
  }

  lemma NotEmpty(a: seq<Text>)
    requires a != []
    ensures a[0] in a
  {
  }

  lemma InTail(a: seq<Text>, serials: map<Text, nat>, lo: nat, x: Text)
    requires a != [] && Rising(a, serials, lo)
    ensures x in a[1..] <==> x in a && x != a[0]
  {
    assert a == [a[0]] + a[1..];
    if a[0] in a[1..] {
      RisingHas(a[1..], serials, serials[a[0]] + 1, a[0]);
    }
  }

  lemma SameFirst(a: seq<Text>, b: seq<Text>, serials: map<Text, nat>, lo: nat, hi: nat)
    requires a != [] && Rising(a, serials, lo) && Rising(b, serials, hi) && forall x :: x in a <==> x in b
    ensures b != [] && a[0] == b[0]
  {
    NotEmpty(a);
    NotEmpty(b);
    if a[0] != b[0] {
      InTail(a, serials, lo, b[0]);
      InTail(b, serials, hi, a[0]);
      RisingHas(a[1..], serials, serials[a[0]] + 1, b[0]);
      RisingHas(b[1..], serials, serials[b[0]] + 1, a[0]);
    }
  }

  /** Different keys have different serials. */
  lemma {:induction false} SameSerial(ks: seq<Text>, serials: map<Text, nat>, lo: nat, a: Text, b: Text)
    requires Rising(ks, serials, lo) && a in ks && b in ks && a in serials && b in serials && serials[a] == serials[b]
    ensures a == b
  {
    InTail(ks, serials, lo, a);
    InTail(ks, serials, lo, b);
    if a != ks[0] && b != ks[0] {
      SameSerial(ks[1..], serials, serials[ks[0]] + 1, a, b);
    } else if a != ks[0] {
      RisingHas(ks[1..], serials, serials[ks[0]] + 1, a);
    } else if b != ks[0] {
      RisingHas(ks[1..], serials, serials[ks[0]] + 1, b);
    }
  }

  /** Pairs sorted by distinct serials rise. */
  lemma {:induction false} SortedRises(r: seq<T.Pair<Text, Doc>>, serials: map<Text, nat>, lo: nat)
    requires SerialSorted(r) && forall i, j :: 0 <= i < j < |r| ==> r[i].serial != r[j].serial
    requires forall i :: 0 <= i < |r| ==> r[i].key in serials && serials[r[i].key] == r[i].serial && lo <= r[i].serial
    ensures Rising(KeysIn(r), serials, lo)
    decreases |r|
  {
    if r != [] {
      var rest := r[1..];
      assert forall i :: 0 <= i < |rest| ==> rest[i] == r[i + 1];
      SortedRises(rest, serials, r[0].serial + 1);
      assert KeysIn(r)[1..] == KeysIn(rest);
    }
  }

  /** Serials are distinct, in the list and in the sorted order. */
  lemma SerialsDiffer(members: Members, r: seq<T.Pair<Text, Doc>>, ks: seq<Text>, n: nat)
    requires T.Distinct(members.order) && Increasing(ks, T.SerialsOf(members.order), n) &&
              multiset(r) == multiset(members.order)
    ensures forall i :: 0 <= i < |r| ==>
              r[i].key in T.SerialsOf(members.order) && T.SerialsOf(members.order)[r[i].key] == r[i].serial
    ensures forall i, j :: 0 <= i < j < |r| ==> r[i].serial != r[j].serial
  {
    hide T.SerialsOf, Rising;
    var order, serials := members.order, T.SerialsOf(members.order);
    forall i | 0 <= i < |r| ensures r[i].key in serials && serials[r[i].key] == r[i].serial {
      assert r[i] in multiset(r) && r[i] in multiset(order);
      var j :| 0 <= j < |order| && order[j] == r[i];
      SerialAt(order, j);
    }
    D.SameBagDistinct(order, r);
    forall i, j | 0 <= i < j < |r| ensures r[i].serial != r[j].serial {
      if r[i].serial == r[j].serial {
        SameSerial(ks, serials, 0, r[i].key, r[j].key);
      }
    }
  }

  lemma SerialAt(order: seq<T.Pair<Text, Doc>>, i: nat)
    requires T.Distinct(order) && i < |order|
    ensures order[i].key in T.SerialsOf(order) && T.SerialsOf(order)[order[i].key] == order[i].serial
  {
    T.LookupMember(order, order[i]);
    assert order[i].key in T.Keys(order);
  }

  lemma SortedKeys(order: seq<T.Pair<Text, Doc>>, r: seq<T.Pair<Text, Doc>>, k: Text)
    requires multiset(r) == multiset(order)
    ensures k in KeysIn(r) <==> k in T.SerialsOf(order)
  {
    if k in T.SerialsOf(order) {
      var i := T.Find(order, k);
      assert order[i] in multiset(order) && order[i] in multiset(r);
      var j :| 0 <= j < |r| && r[j] == order[i];
      assert KeysIn(r)[j] == k;
    }
    if k in KeysIn(r) {
      var j :| 0 <= j < |r| && KeysIn(r)[j] == k;
      assert r[j] in multiset(r) && r[j] in multiset(order);
      var i :| 0 <= i < |order| && order[i] == r[j];
      assert T.Find(order, k) < |order|;
      assert k in T.Keys(order) <==> T.Lookup(order, k).Some?;
    }
  }

  /**
   After any run of set and delete, serials are distinct; and as long as every two of those present are
   apart, JSON_PRESERVE_ORDER prints in the order of first setting.
   */
  lemma PreservedOrder(ops: seq<Op>, flags: P.Flags)
    requires flags.preserveOrder && !flags.sortKeys
    ensures AllApart(Run(ops).members.order) ==> KeysIn(P.Arrange(flags, Run(ops).members.order)) == FirstSet(ops)
    ensures forall i, j :: 0 <= i < j < |Run(ops).members.order| ==>
              Run(ops).members.order[i].serial != Run(ops).members.order[j].serial
  {
    RunKeeps(ops);
    var order := Run(ops).members.order;
    SerialsDiffer(Run(ops).members, order, FirstSet(ops), Puts(ops));
    if AllApart(order) {
      SortedIsFirstSet(ops, order);
    }
  }

  /** The pairs of the run's object, in whatever order they are listed, are sorted into that of first setting. */
  lemma SortedIsFirstSet(ops: seq<Op>, s: seq<T.Pair<Text, Doc>>)
    requires multiset(s) == multiset(Run(ops).members.order) && AllApart(s)
    ensures KeysIn(P.Sort(false, s)) == FirstSet(ops)
  {
    SortSorted(s);
    SortedByFirstSet(ops, P.Sort(false, s));
  }

  lemma SortedByFirstSet(ops: seq<Op>, r: seq<T.Pair<Text, Doc>>)
    requires multiset(r) == multiset(Run(ops).members.order) && SerialSorted(r)
    ensures KeysIn(r) == FirstSet(ops)
  {
    hide T.SerialsOf, P.Sort, Rising, SerialSorted;
    RunKeeps(ops);
    var members, ks := Run(ops).members, FirstSet(ops);
    var serials := T.SerialsOf(members.order);
    SerialsDiffer(members, r, ks, Puts(ops));
    SortedRises(r, serials, 0);
    forall k ensures k in KeysIn(r) <==> k in ks {
      SortedKeys(members.order, r, k);
      if k in ks {
        RisingHas(ks, serials, 0, k);
      }
    }
    SameOrder(KeysIn(r), ks, serials, 0, 0);
  }

  /** Serials that span less than 2^31 are apart. */
  lemma NarrowIsApart(s: seq<T.Pair<Text, Doc>>, lo: nat)
    requires forall p :: p in s ==> lo <= p.serial < lo + 0x8000_0000
    ensures AllApart(s)
  {
    forall p, q | p in s && q in s ensures Apart(p.serial, q.serial) {
      assert Distance(p.serial, q.serial) < 0x8000_0000;
    }
  }

  /** So all are after at most 2^31 sets. */
  lemma ShortRunIsApart(ops: seq<Op>)
    requires Puts(ops) <= 0x8000_0000
    ensures AllApart(Run(ops).members.order)
  {
    hide Run, T.SerialsOf, AllApart, T.Valid;
    var order := Run(ops).members.order;
    RunKeeps(ops);
    DistinctRun(ops);
    forall p | p in order ensures 0 <= p.serial < 0 + 0x8000_0000 {
      var i :| 0 <= i < |order| && order[i] == p;
      SerialAt(order, i);
    }
    NarrowIsApart(order, 0);
  }

  lemma {:induction false} RisingAt(ks: seq<Text>, serials: map<Text, nat>, lo: nat, i: nat, j: nat)
    requires Rising(ks, serials, lo) && i < j < |ks|
    ensures ks[i] in serials && ks[j] in serials && serials[ks[i]] < serials[ks[j]]
  {
    if i == 0 {
      assert ks[1..][j - 1] == ks[j];
      RisingHas(ks[1..], serials, serials[ks[0]] + 1, ks[j]);
    } else {
      RisingAt(ks[1..], serials, serials[ks[0]] + 1, i - 1, j - 1);
    }
  }

  /** A list of the members of the run's object that is not sorted into the order of first setting. */
  lemma Misprinted(ops: seq<Op>, p: T.Pair<Text, Doc>, q: T.Pair<Text, Doc>) returns (s: seq<T.Pair<Text, Doc>>)
    requires p in Run(ops).members.order && q in Run(ops).members.order
    requires p.serial < q.serial && !Apart(p.serial, q.serial)
    ensures multiset(s) == multiset(Run(ops).members.order) && KeysIn(P.Sort(false, s)) != FirstSet(ops)
  {
    hide P.Sort, P.CompareSerials, Apart, T.SerialsOf, Rising;
    var order, ks := Run(ops).members.order, FirstSet(ops);
    var serials := T.SerialsOf(order);
    RunKeeps(ops);
    s := MovedBack(order, p, q);
    SortReverses(s[..|s| - 2], p, q);
    assert s == s[..|s| - 2] + [p, q];
    var r := P.Sort(false, s);
    SerialsDiffer(Run(ops).members, r, ks, Puts(ops));
    var i, j :| 0 <= i < j < |r| && r[i] == q && r[j] == p;
    if KeysIn(r) == ks {
      RisingAt(ks, serials, 0, i, j);
      assert false;
    }
  }

  /** The members of a list with two of them at its end. */
  lemma MovedBack(order: seq<T.Pair<Text, Doc>>, p: T.Pair<Text, Doc>, q: T.Pair<Text, Doc>)
    returns (s: seq<T.Pair<Text, Doc>>)
    requires p in order && q in order && p != q
    ensures multiset(s) == multiset(order) && |s| >= 2 && s == s[..|s| - 2] + [p, q]
  {
    var rest := TakenOut(order, p);
    assert q in multiset(order) && q in multiset(rest);
    var front := TakenOut(rest, q);
    s := front + [p, q];
    assert s[..|s| - 2] == front;
  }

  lemma TakenOut<X>(s: seq<X>, x: X) returns (rest: seq<X>)
    requires x in s
    ensures multiset(s) == multiset(rest) + multiset{x}
  {
    var i :| 0 <= i < |s| && s[i] == x;
    rest := T.RemoveAt(s, i);
    T.RemovedBag(s, i);
  }

  /**
   The exact condition: whatever order the hash table lists the members in, they are printed in the
   order of first setting, if and only if every two serials are apart.
   */
  lemma PreservedOrderExactly(ops: seq<Op>)
    ensures (forall s: seq<T.Pair<Text, Doc>> ::
               multiset(s) == multiset(Run(ops).members.order) ==> KeysIn(P.Sort(false, s)) == FirstSet(ops))
            <==> AllApart(Run(ops).members.order)
  {
    var order := Run(ops).members.order;
    if AllApart(order) {
      forall s: seq<T.Pair<Text, Doc>> | multiset(s) == multiset(order)
        ensures KeysIn(P.Sort(false, s)) == FirstSet(ops)
      {
        T.SameBag(s, order);
        SortedIsFirstSet(ops, s);
      }
    } else {
      var p, q :| p in order && q in order && !Apart(p.serial, q.serial);
      var s;
      if p.serial < q.serial {
        s := Misprinted(ops, p, q);
      } else {
        s := Misprinted(ops, q, p);
      }
      assert KeysIn(P.Sort(false, s)) != FirstSet(ops);
    }
  }

  // ---------------------------------------------------------------- a run that is printed in the wrong order

  /** One key, set `n` times. */
  function Again(key: Text, value: Doc, n: nat): seq<Op> {
    if n == 0 then [] else Again(key, value, n - 1) + [Put(key, value)]
  }

  lemma {:induction false} AgainKeeps(key: Text, value: Doc, n: nat)
    requires n > 0
    ensures var ops := Again(key, value, n);
            && FirstSet(ops) == [key] && Puts(ops) == n
            && T.SerialsOf(Run(ops).members.order) == map[key := 0]
  {
    hide T.SerialsOf, T.Set, T.Valid;
    var ops := Again(key, value, n);
    assert ops[..|ops| - 1] == Again(key, value, n - 1) && ops[|ops| - 1] == Put(key, value);
    var before := Run(Again(key, value, n - 1));
    RunKeeps(Again(key, value, n - 1));
    T.SetIsUpdate(HashStr, before.members, key, before.serial, value);
    if n > 1 {
      AgainKeeps(key, value, n - 1);
    } else {
      NoSerials();
    }
  }

  lemma NoSerials()
    ensures T.SerialsOf(EMPTY_OBJECT.members.order) == map[]
  {
  }

  /** One key set `n` times, and then another one. */
  function Late(first: Text, second: Text, value: Doc, n: nat): seq<Op> {
    Again(first, value, n) + [Put(second, value)]
  }

  lemma LateKeeps(first: Text, second: Text, value: Doc, n: nat)
    requires n > 0 && first != second
    ensures var ops := Late(first, second, value, n);
            && FirstSet(ops) == [first, second]
            && T.SerialsOf(Run(ops).members.order) == map[first := 0, second := n]
  {
    hide T.SerialsOf, T.Set, T.Valid, Again;
    var ops := Late(first, second, value, n);
    var before := Again(first, value, n);
    assert ops[..|ops| - 1] == before && ops[|ops| - 1] == Put(second, value);
    AgainKeeps(first, value, n);
    RunKeeps(before);
    T.SetIsUpdate(HashStr, Run(before).members, second, Run(before).serial, value);
  }

  lemma InOrder(p: T.Pair<Text, Doc>, q: T.Pair<Text, Doc>)
    requires P.CompareSerials(q.serial, p.serial) > 0
    ensures P.Sort(false, [p, q]) == [p, q]
  {
    hide P.CompareSerials;
    assert [p, q][1..] == [q] && [q][1..] == [];
    assert P.Sort<Doc>(false, []) == [] && P.Sort(false, [q]) == [q];
    assert [p] + [q] == [p, q];
  }

  /** Two members are printed by comparing their serials once. */
  lemma TwoSorted(s: seq<T.Pair<Text, Doc>>, p: T.Pair<Text, Doc>, q: T.Pair<Text, Doc>)
    requires s == [p, q] || s == [q, p]
    ensures P.CompareSerials(p.serial, q.serial) < 0 < P.CompareSerials(q.serial, p.serial) ==>
              P.Sort(false, s) == [p, q]
    ensures P.CompareSerials(q.serial, p.serial) < 0 < P.CompareSerials(p.serial, q.serial) ==>
              P.Sort(false, s) == [q, p]
  {
    hide P.CompareSerials, P.Sort;
    if P.CompareSerials(p.serial, q.serial) < 0 < P.CompareSerials(q.serial, p.serial) {
      InOrder(p, q);
      TwoPlaced(q, p);
    } else if P.CompareSerials(q.serial, p.serial) < 0 < P.CompareSerials(p.serial, q.serial) {
      InOrder(q, p);
      TwoPlaced(p, q);
    }
  }

  lemma TwoKeys(order: seq<T.Pair<Text, Doc>>, first: Text, second: Text, n: nat)
    requires T.Distinct(order) && first != second && T.SerialsOf(order) == map[first := 0, second := n]
    ensures |order| == 2 && order[0].key != order[1].key
  {
    T.KeyCount(order);
    assert T.Keys(order) == T.SerialsOf(order).Keys;
    hide T.SerialsOf, T.Keys;
    assert map[first := 0, second := n].Keys == {first, second};
  }

  lemma TwoMembers(order: seq<T.Pair<Text, Doc>>, first: Text, second: Text, n: nat)
    returns (p: T.Pair<Text, Doc>, q: T.Pair<Text, Doc>)
    requires T.Distinct(order) && first != second && T.SerialsOf(order) == map[first := 0, second := n]
    ensures order == [p, q] || order == [q, p]
    ensures p.key == first && p.serial == 0 && q.key == second && q.serial == n
  {
    TwoKeys(order, first, second, n);
    SerialAt(order, 0);
    SerialAt(order, 1);
    hide T.SerialsOf, T.Distinct;
    assert order == [order[0], order[1]];
    if order[0].key == first {
      p, q := order[0], order[1];
    } else {
      p, q := order[1], order[0];
    }
  }

  /**
   After `n` sets of one key, a second key is printed behind it when `n` modulo 2^32 is below 2^31, and
   in front of it when it is above, wherever the hash table keeps the two.
   */
  lemma LateIsPrinted(first: Text, second: Text, value: Doc, n: nat, flags: P.Flags)
    requires n > 0 && first != second && flags.preserveOrder && !flags.sortKeys
    ensures var ops := Late(first, second, value, n);
            var printed := KeysIn(P.Arrange(flags, Run(ops).members.order));
            && FirstSet(ops) == [first, second]
            && (0 < n % 0x1_0000_0000 < 0x8000_0000 ==> printed == [first, second])
            && (n % 0x1_0000_0000 > 0x8000_0000 ==> printed == [second, first])
  {
    hide T.SerialsOf, P.CompareSerials, P.Sort, Late, T.Valid;
    var ops := Late(first, second, value, n);
    LateKeeps(first, second, value, n);
    RunKeeps(ops);
    DistinctRun(ops);
    var p, q := TwoMembers(Run(ops).members.order, first, second, n);
    CompareSerialsIs(0, n);
    TwoSorted(Run(ops).members.order, p, q);
    assert KeysIn([p, q]) == [first, second] && KeysIn([q, p]) == [second, first];
  }

  lemma DistinctRun(ops: seq<Op>)
    ensures T.Distinct(Run(ops).members.order)
  {
    RunKeeps(ops);
  }

  /** A key that is set first after 2^31 + 1 sets of another one is printed in front of it. */
  lemma FarSerialsAreMisordered(first: Text, second: Text, value: Doc, flags: P.Flags)
    requires first != second && flags.preserveOrder && !flags.sortKeys
    ensures var ops := Late(first, second, value, 0x8000_0001);
            && FirstSet(ops) == [first, second]
            && KeysIn(P.Arrange(flags, Run(ops).members.order)) == [second, first]
  {
    hide Late, T.Distinct, P.Arrange, Run, FirstSet;
    LateIsPrinted(first, second, value, 0x8000_0001, flags);
  }
}
