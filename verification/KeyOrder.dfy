/**
 JSON_SORT_KEYS: keys are printed in the order of `strcmp`.  Since keys are distinct there is only one
 such order, so it does not matter how `qsort` works.
 */
module KeyOrder {
  import opened Bytes
  import opened Printing
  import D = DocumentTrip
  import J = Json
  import T = Tables

  /** `a` and `b` agree on their first `n` bytes, and then `a` ends or has the smaller byte. */
  ghost predicate SmallerAt(a: Text, b: Text, n: nat) {
    n < |b| && n <= |a| && a[..n] == b[..n] && (n == |a| || a[n] < b[n])
  }

  /** The order of dictionaries on unsigned bytes. */
  ghost predicate Precedes(a: Text, b: Text) {
    exists n: nat :: SmallerAt(a, b, n)
  }

  /** Keys are compared in the order of dictionaries, with the smaller byte and the shorter key first. */
  lemma {:induction false} CompareExactly(a: Text, b: Text)
    ensures CompareKeys(a, b) < 0 <==> Precedes(a, b)
    decreases |a|
  {
    if a == [] {
      if b != [] {
        assert SmallerAt(a, b, 0);
      }
    } else if b != [] {
      if a[0] != b[0] {
        FirstDiffers(a, b);
      } else {
        CompareExactly(a[1..], b[1..]);
        SameFirst(a, b);
      }
    }
  }

  lemma FirstDiffers(a: Text, b: Text)
    requires a != [] && b != [] && a[0] != b[0]
    ensures Precedes(a, b) <==> a[0] < b[0]
  {
    if a[0] < b[0] {
      assert SmallerAt(a, b, 0);
    }
    forall n: nat | SmallerAt(a, b, n) ensures n == 0 {
      SamePrefix(a, b, n);
    }
  }

  lemma SamePrefix(a: Text, b: Text, n: nat)
    requires n <= |a| && n <= |b| && a[..n] == b[..n]
    ensures n > 0 ==> a[0] == b[0]
  {
    if n > 0 {
      assert a[..n][0] == b[..n][0];
    }
  }

  lemma SameFirst(a: Text, b: Text)
    requires a != [] && b != [] && a[0] == b[0]
    ensures Precedes(a, b) <==> Precedes(a[1..], b[1..])
  {
    if n: nat :| SmallerAt(a[1..], b[1..], n) {
      assert a[..n + 1] == [a[0]] + a[1..][..n] && b[..n + 1] == [b[0]] + b[1..][..n];
      assert SmallerAt(a, b, n + 1);
    }
    if n: nat :| SmallerAt(a, b, n) {
      assert n > 0;
      assert a[1..][..n - 1] == a[..n][1..] && b[1..][..n - 1] == b[..n][1..];
      assert SmallerAt(a[1..], b[1..], n - 1);
    }
  }

  lemma {:induction false} CompareAntisymmetric(a: Text, b: Text)
    ensures CompareKeys(a, b) < 0 <==> CompareKeys(b, a) > 0
    ensures CompareKeys(a, b) == 0 <==> a == b
    decreases |a|
  {
    if a != [] && b != [] && a[0] == b[0] {
      CompareAntisymmetric(a[1..], b[1..]);
      assert a == [a[0]] + a[1..] && b == [b[0]] + b[1..];
    }
  }

  lemma {:induction false} CompareTransitive(a: Text, b: Text, c: Text)
    requires CompareKeys(a, b) <= 0 && CompareKeys(b, c) <= 0
    ensures CompareKeys(a, c) <= 0
    decreases |a|
  {
    if a != [] && b != [] && c != [] && a[0] == b[0] == c[0] {
      CompareTransitive(a[1..], b[1..], c[1..]);
    }
  }

  ghost predicate KeySorted(s: seq<T.Pair<Text, J.Doc>>) {
    forall i, j :: 0 <= i < j < |s| ==> CompareKeys(s[i].key, s[j].key) <= 0
  }

  lemma {:induction false} PlaceSorted(p: T.Pair<Text, J.Doc>, s: seq<T.Pair<Text, J.Doc>>)
    requires KeySorted(s)
    ensures KeySorted(Place(true, p, s))
    decreases |s|
  {
    hide CompareKeys, KeySorted;
    if s == [] {
      SortedFront(p, []);
      assert [p] + [] == [p];
    } else {
      CompareAntisymmetric(s[0].key, p.key);
      SortedTail(s);
      if Compare(true, s[0], p) <= 0 {
        PlaceSorted(p, s[1..]);
        SortedBehind(s, p, Place(true, p, s[1..]));
      } else {
        SortedFront(p, s);
      }
    }
  }

  lemma SortedTail(s: seq<T.Pair<Text, J.Doc>>)
    requires s != [] && KeySorted(s)
    ensures KeySorted(s[1..])
  {
    hide CompareKeys;
    assert forall i {:trigger s[1..][i]} :: 0 <= i < |s| - 1 ==> s[1..][i] == s[i + 1];
  }

  lemma SortedFront(p: T.Pair<Text, J.Doc>, s: seq<T.Pair<Text, J.Doc>>)
    requires KeySorted(s) && (s != [] ==> CompareKeys(p.key, s[0].key) <= 0)
    ensures KeySorted([p] + s)
  {
    hide CompareKeys;
    var r := [p] + s;
    assert forall i {:trigger r[i]} :: 0 < i < |r| ==> r[i] == s[i - 1];
    forall j | 0 < j < |r| ensures CompareKeys(p.key, r[j].key) <= 0 {
      if j > 1 {
        CompareTransitive(p.key, s[0].key, s[j - 1].key);
      }
    }
  }

  lemma SortedBehind(s: seq<T.Pair<Text, J.Doc>>, p: T.Pair<Text, J.Doc>, q: seq<T.Pair<Text, J.Doc>>)
    requires s != [] && KeySorted(s) && KeySorted(q) && CompareKeys(s[0].key, p.key) <= 0
    requires multiset(q) == multiset(s[1..]) + multiset{p}
    ensures KeySorted([s[0]] + q)
  {
    hide CompareKeys;
    var r := [s[0]] + q;
    assert forall i {:trigger r[i]} :: 0 < i < |r| ==> r[i] == q[i - 1];
    forall j | 0 <= j < |q| ensures CompareKeys(s[0].key, q[j].key) <= 0 {
      assert q[j] in multiset(q);
      if q[j] != p {
        assert q[j] in s[1..];
        var m :| 0 <= m < |s| - 1 && s[1..][m] == q[j];
        assert s[m + 1] == q[j];
      }
    }
  }

  lemma {:induction false} SortSorted(s: seq<T.Pair<Text, J.Doc>>)
    ensures KeySorted(Sort(true, s))
    decreases |s|
  {
    if s != [] {
      SortSorted(s[1..]);
      PlaceSorted(s[0], Sort(true, s[1..]));
    }
  }

  /** A sorted list of distinct keys starts with the one key that is before all others. */
  lemma SameHead(r: seq<T.Pair<Text, J.Doc>>, q: seq<T.Pair<Text, J.Doc>>)
    requires KeySorted(r) && KeySorted(q) && T.Distinct(r) && multiset(r) == multiset(q) && r != []
    ensures q != [] && r[0] == q[0]
  {
    hide CompareKeys;
    assert |multiset(r)| == |r| && |multiset(q)| == |q|;
    assert r[0] in multiset(q) && q[0] in multiset(r);
    var i :| 0 <= i < |q| && q[i] == r[0];
    var j :| 0 <= j < |r| && r[j] == q[0];
    CompareAntisymmetric(r[0].key, q[0].key);
  }

  lemma {:induction false} OnlyOneOrder(r: seq<T.Pair<Text, J.Doc>>, q: seq<T.Pair<Text, J.Doc>>)
    requires KeySorted(r) && KeySorted(q) && T.Distinct(r) && multiset(r) == multiset(q)
    ensures r == q
    decreases |r|
  {
    hide CompareKeys, KeySorted, T.Distinct;
    if r == [] {
      assert |multiset(q)| == |q|;
    } else {
      SameHead(r, q);
      SortedTail(r);
      SortedTail(q);
      SameTail(r, q);
      DistinctTail(r);
      OnlyOneOrder(r[1..], q[1..]);
      assert r == [r[0]] + r[1..] && q == [q[0]] + q[1..];
    }
  }

  lemma SameTail<X>(r: seq<X>, q: seq<X>)
    requires multiset(r) == multiset(q) && r != [] && q != [] && r[0] == q[0]
    ensures multiset(r[1..]) == multiset(q[1..])
  {
    assert r == [r[0]] + r[1..] && q == [q[0]] + q[1..];
    assert multiset(r[1..]) == multiset(r) - multiset{r[0]};
    assert multiset(q[1..]) == multiset(q) - multiset{q[0]};
  }

  lemma DistinctTail(r: seq<T.Pair<Text, J.Doc>>)
    requires T.Distinct(r) && r != []
    ensures T.Distinct(r[1..])
  {
    assert forall i {:trigger r[1..][i]} :: 0 <= i < |r| - 1 ==> r[1..][i] == r[i + 1];
  }

  /** Each key comes before all later ones. */
  ghost predicate Ascending(s: seq<T.Pair<Text, J.Doc>>) {
    forall i, j :: 0 <= i < j < |s| ==> Precedes(s[i].key, s[j].key)
  }

  lemma AscendingIsSorted(s: seq<T.Pair<Text, J.Doc>>)
    ensures Ascending(s) <==> KeySorted(s) && T.Distinct(s)
  {
    hide CompareKeys, Precedes;
    forall i, j | 0 <= i < j < |s|
      ensures Precedes(s[i].key, s[j].key) <==> CompareKeys(s[i].key, s[j].key) <= 0 && s[i].key != s[j].key
    {
      CompareExactly(s[i].key, s[j].key);
      CompareAntisymmetric(s[i].key, s[j].key);
    }
  }

  /** With JSON_SORT_KEYS the members come in the one order in which each key precedes all later ones. */
  lemma SortedByKey(order: seq<T.Pair<Text, J.Doc>>, flags: Flags, r: seq<T.Pair<Text, J.Doc>>)
    requires T.Distinct(order) && flags.sortKeys
    ensures var ms := Arrange(flags, order);
            && Ascending(ms)
            && (multiset(r) == multiset(order) && Ascending(r) ==> r == ms)
  {
    hide KeySorted, Ascending, Sort, T.Distinct;
    SortSorted(order);
    var ms := Arrange(flags, order);
    D.SameBagDistinct(order, ms);
    AscendingIsSorted(ms);
    AscendingIsSorted(r);
    if multiset(r) == multiset(order) && Ascending(r) {
      OnlyOneOrder(ms, r);
    }
  }
}
