/**
 UTF-8 as RFC 3629 describes it from outside: the byte ranges of section 4, and that byte strings are ordered like the
 code points that they encode (section 1).
 */
module CodePoints {
  import opened Bytes
  import opened KeyOrder
  import opened Utf8
  import P = Printing

  // ---------------------------------------------------------------- the syntax of section 4

  ghost predicate Tail(b: byte) { 0x80 <= b <= 0xBF }

  /** UTF8-char. */
  ghost predicate Char(b: Text) {
    || (|b| == 1 && b[0] <= 0x7F)
    || (|b| == 2 && 0xC2 <= b[0] <= 0xDF && Tail(b[1]))
    || (|b| == 3 && Tail(b[2]) &&
        ((b[0] == 0xE0 && 0xA0 <= b[1] <= 0xBF) || (0xE1 <= b[0] <= 0xEC && Tail(b[1])) ||
         (b[0] == 0xED && 0x80 <= b[1] <= 0x9F) || (0xEE <= b[0] <= 0xEF && Tail(b[1]))))
    || (|b| == 4 && Tail(b[2]) && Tail(b[3]) &&
        ((b[0] == 0xF0 && 0x90 <= b[1] <= 0xBF) || (0xF1 <= b[0] <= 0xF3 && Tail(b[1])) ||
         (b[0] == 0xF4 && 0x80 <= b[1] <= 0x8F)))
  }

  /** UTF8-octets. */
  ghost predicate Octets(s: Text) {
    s == [] || exists n: nat :: 0 < n <= |s| && Char(s[..n]) && Octets(s[n..])
  }

  lemma EncodedIsChar(cp: int)
    requires Scalar(cp)
    ensures Char(Encoded(cp))
  {
    if cp >= 0x10000 {
      FourIsChar(cp);
    } else if cp >= 0x800 {
      ThreeIsChar(cp);
    }
  }

  lemma ThreeIsChar(cp: int)
    requires Scalar(cp) && 0x800 <= cp < 0x10000
    ensures Char(Encoded(cp))
  {
    Digits(cp);
  }

  lemma FourIsChar(cp: int)
    requires 0x10000 <= cp <= 0x10FFFF
    ensures Char(Encoded(cp))
  {
    Digits(cp);
  }

  lemma CharValue2(b: Text)
    requires |b| == 2 && Char(b)
    ensures CheckFirst(b[0]) == 2 && FullValue(b).Some?
  {
    Gathered2(b);
  }

  lemma CharValue3(b: Text)
    requires |b| == 3 && Char(b)
    ensures CheckFirst(b[0]) == 3 && FullValue(b).Some?
  {
    Gathered3(b);
  }

  lemma CharValue4(b: Text)
    requires |b| == 4 && Char(b)
    ensures CheckFirst(b[0]) == 4 && FullValue(b).Some?
  {
    Gathered4(b);
  }

  lemma CharIsEncoded(b: Text) returns (cp: int)
    requires Char(b)
    ensures Scalar(cp) && Encoded(cp) == b
  {
    if |b| == 1 {
      cp := b[0];
    } else {
      if |b| == 2 {
        CharValue2(b);
      } else if |b| == 3 {
        CharValue3(b);
      } else {
        CharValue4(b);
      }
      FullValueIsEncoded(b);
      cp := FullValue(b).value;
    }
  }

  /** The encodings of code points are exactly the byte sequences of the syntax. */
  lemma CharsExactly(b: Text)
    ensures Char(b) <==> exists cp :: Scalar(cp) && Encoded(cp) == b
  {
    hide Encoded, Char;
    if Char(b) {
      var cp := CharIsEncoded(b);
    }
    forall cp | Scalar(cp) && Encoded(cp) == b ensures Char(b) {
      EncodedIsChar(cp);
    }
  }

  /** What is checked to be UTF-8 is exactly a sequence of such characters. */
  lemma {:induction false} ValidIsOctets(s: Text)
    ensures Valid(s) <==> Octets(s)
    decreases |s|
  {
    hide Encoded, Char, UnitLength, UnitValue;
    if s != [] {
      if Valid(s) {
        var n := UnitLength(s);
        UnitIsEncoded(s);
        EncodedIsChar(UnitValue(s));
        ValidIsOctets(s[n..]);
        assert Char(s[..n]) && Octets(s[n..]);
      }
      if n: nat :| 0 < n <= |s| && Char(s[..n]) && Octets(s[n..]) {
        var cp := CharIsEncoded(s[..n]);
        UnitOfEncoded(cp, s);
        ValidIsOctets(s[n..]);
      }
    }
  }

  // ---------------------------------------------------------------- the order of code points

  /** The first byte tells the length, and grows with it. */
  lemma FirstInOrder(a: int, b: int)
    requires Scalar(a) && Scalar(b) && |Encoded(a)| < |Encoded(b)|
    ensures Encoded(a)[0] < Encoded(b)[0]
  {
  }

  lemma ShorterInOrder(a: int, b: int)
    requires Scalar(a) && Scalar(b) && |Encoded(a)| < |Encoded(b)|
    ensures a < b && Precedes(Encoded(a), Encoded(b))
  {
    FirstInOrder(a, b);
    var x, y := Encoded(a), Encoded(b);
    assert x[..0] == y[..0];
    assert SmallerAt(x, y, 0);
  }

  lemma TwoInOrder(a: int, b: int)
    requires 0x80 <= a < b < 0x800
    ensures Precedes(Encoded(a), Encoded(b))
  {
    assert SmallerAt(Encoded(a), Encoded(b), if a / 0x40 < b / 0x40 then 0 else 1);
  }

  lemma ThreeInOrder(a: int, b: int)
    requires 0x800 <= a < b < 0x10000
    ensures Precedes(Encoded(a), Encoded(b))
  {
    Digits(a);
    Digits(b);
    var n := if a / 0x1000 < b / 0x1000 then 0 else if a / 0x40 % 0x40 < b / 0x40 % 0x40 then 1 else 2;
    assert SmallerAt(Encoded(a), Encoded(b), n);
  }

  lemma FourInOrder(a: int, b: int)
    requires 0x10000 <= a < b <= 0x10FFFF
    ensures Precedes(Encoded(a), Encoded(b))
  {
    Digits(a);
    Digits(b);
    var n := if a / 0x40000 < b / 0x40000 then 0 else if a / 0x1000 % 0x40 < b / 0x1000 % 0x40 then 1
      else if a / 0x40 % 0x40 < b / 0x40 % 0x40 then 2 else 3;
    assert SmallerAt(Encoded(a), Encoded(b), n);
  }

  lemma OneInOrder(a: int, b: int)
    requires 0 <= a < b < 0x80
    ensures Precedes(Encoded(a), Encoded(b))
  {
    assert SmallerAt(Encoded(a), Encoded(b), 0);
  }

  lemma Lengths(cp: int)
    requires Scalar(cp)
    ensures |Encoded(cp)| == if cp < 0x80 then 1 else if cp < 0x800 then 2 else if cp < 0x10000 then 3 else 4
  {
  }

  lemma InOrder(a: int, b: int)
    requires Scalar(a) && Scalar(b) && a < b
    ensures Precedes(Encoded(a), Encoded(b))
  {
    hide Encoded, Precedes;
    Lengths(a);
    Lengths(b);
    if |Encoded(a)| < |Encoded(b)| {
      ShorterInOrder(a, b);
    } else if b < 0x80 {
      OneInOrder(a, b);
    } else if b < 0x800 {
      TwoInOrder(a, b);
    } else if b < 0x10000 {
      ThreeInOrder(a, b);
    } else {
      FourInOrder(a, b);
    }
  }

  lemma OneWay(a: Text, b: Text)
    ensures Precedes(a, b) ==> !Precedes(b, a) && a != b
  {
    CompareExactly(a, b);
    CompareExactly(b, a);
    CompareAntisymmetric(a, b);
  }

  /** The encodings of two code points are ordered like the code points. */
  lemma OrderKept(a: int, b: int)
    requires Scalar(a) && Scalar(b)
    ensures a < b <==> Precedes(Encoded(a), Encoded(b))
  {
    hide Encoded, Precedes;
    OneWay(Encoded(a), Encoded(b));
    if a < b {
      InOrder(a, b);
    } else if b < a {
      InOrder(b, a);
    }
  }

  /** `a` and `b` agree on their first `n` code points, and then `a` ends or has the smaller one. */
  ghost predicate LessAt(a: seq<int>, b: seq<int>, n: nat) {
    n < |b| && n <= |a| && a[..n] == b[..n] && (n == |a| || a[n] < b[n])
  }

  ghost predicate Less(a: seq<int>, b: seq<int>) {
    exists n: nat :: LessAt(a, b, n)
  }

  lemma {:induction false} EncodeSplits(cps: seq<int>, n: nat)
    requires AllScalar(cps) && n <= |cps|
    ensures EncodeAll(cps) == EncodeAll(cps[..n]) + EncodeAll(cps[n..])
    decreases n
  {
    hide Encoded;
    if n == 0 {
      assert cps[0..] == cps;
    } else {
      EncodeSplits(cps[1..], n - 1);
      assert cps[..n][1..] == cps[1..][..n - 1] && cps[1..][n - 1..] == cps[n..];
    }
  }

  lemma NoPrefix(a: int, b: int)
    requires Scalar(a) && Scalar(b) && |Encoded(a)| < |Encoded(b)|
    ensures !SmallerAt(Encoded(a), Encoded(b), |Encoded(a)|)
  {
    hide Encoded;
    FirstInOrder(a, b);
    var x, y, n := Encoded(a), Encoded(b), |Encoded(a)|;
    if x[..n] == y[..n] {
      SamePrefix(x, y, n);
    }
  }

  /** Encodings of different code points differ before either of them ends. */
  lemma DifferInside(a: int, b: int) returns (n: nat)
    requires Scalar(a) && Scalar(b) && a < b
    ensures SmallerAt(Encoded(a), Encoded(b), n) && n < |Encoded(a)|
  {
    hide Encoded;
    InOrder(a, b);
    n :| SmallerAt(Encoded(a), Encoded(b), n);
    if |Encoded(a)| < |Encoded(b)| {
      NoPrefix(a, b);
    }
  }

  lemma SmallerInside(p: Text, x: Text, y: Text, s: Text, t: Text, n: nat)
    requires SmallerAt(x, y, n) && n < |x|
    ensures Precedes(p + (x + s), p + (y + t))
  {
    var a, b := p + (x + s), p + (y + t);
    assert a[..|p| + n] == p + x[..n] && b[..|p| + n] == p + y[..n];
    assert SmallerAt(a, b, |p| + n);
  }

  lemma LessIsKept(a: seq<int>, b: seq<int>)
    requires AllScalar(a) && AllScalar(b) && Less(a, b)
    ensures Precedes(EncodeAll(a), EncodeAll(b))
  {
    hide Encoded, Precedes, SmallerAt;
    var n: nat :| LessAt(a, b, n);
    EncodeSplits(a, n);
    EncodeSplits(b, n);
    var p := EncodeAll(a[..n]);
    if n == |a| {
      ShorterFirst(p, b[n..]);
      assert a[n..] == [] && p + [] == p;
    } else {
      var k := DifferInside(a[n], b[n]);
      SmallerInside(p, Encoded(a[n]), Encoded(b[n]), EncodeAll(a[n + 1..]), EncodeAll(b[n + 1..]), k);
      FirstOfRest(a, n);
      FirstOfRest(b, n);
    }
  }

  lemma FirstOfRest(cps: seq<int>, n: nat)
    requires AllScalar(cps) && n < |cps|
    ensures EncodeAll(cps[n..]) == Encoded(cps[n]) + EncodeAll(cps[n + 1..])
  {
    hide Encoded;
    assert cps[n..][1..] == cps[n + 1..];
  }

  lemma ShorterFirst(p: Text, cps: seq<int>)
    requires AllScalar(cps) && cps != []
    ensures Precedes(p, p + EncodeAll(cps))
  {
    hide Encoded;
    var b := p + EncodeAll(cps);
    assert b[..|p|] == p;
    assert SmallerAt(p, b, |p|);
  }

  lemma {:induction false} LessTotal(a: seq<int>, b: seq<int>)
    ensures Less(a, b) || Less(b, a) || a == b
    decreases |a|
  {
    if a == [] && b != [] {
      assert LessAt(a, b, 0);
    } else if b == [] && a != [] {
      assert LessAt(b, a, 0);
    } else if a != [] && b != [] {
      if a[0] < b[0] {
        assert LessAt(a, b, 0);
      } else if b[0] < a[0] {
        assert LessAt(b, a, 0);
      } else {
        LessTotal(a[1..], b[1..]);
        if Less(a[1..], b[1..]) {
          LessCons(a, b);
        }
        if Less(b[1..], a[1..]) {
          LessCons(b, a);
        }
        assert a == [a[0]] + a[1..] && b == [b[0]] + b[1..];
      }
    }
  }

  lemma LessCons(a: seq<int>, b: seq<int>)
    requires a != [] && b != [] && a[0] == b[0] && Less(a[1..], b[1..])
    ensures Less(a, b)
  {
    var n: nat :| LessAt(a[1..], b[1..], n);
    assert a[..n + 1] == [a[0]] + a[1..][..n] && b[..n + 1] == [b[0]] + b[1..][..n];
    assert LessAt(a, b, n + 1);
  }

  /** So keys of valid UTF-8 are sorted by their code points. */
  lemma KeysByCodePoint(a: Text, b: Text)
    requires Valid(a) && Valid(b)
    ensures P.CompareKeys(a, b) < 0 <==> Less(Decode(a), Decode(b))
  {
    hide Encoded, Precedes, Less, Valid, P.CompareKeys;
    EncodeDecode(a);
    EncodeDecode(b);
    CompareExactly(a, b);
    OneWay(a, b);
    LessTotal(Decode(a), Decode(b));
    if Less(Decode(a), Decode(b)) {
      LessIsKept(Decode(a), Decode(b));
    }
    if Less(Decode(b), Decode(a)) {
      LessIsKept(Decode(b), Decode(a));
    }
  }
}
