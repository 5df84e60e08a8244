/**
 UTF-8 as `utf.c` encodes, checks and iterates it.  `Encoded` is the reference: the byte
 sequence that sections 3 and 4 of RFC 3629 assign to a code point.
 */
module Utf8 {
  import opened Bytes

  // ---------------------------------------------------------------- reference

  predicate Scalar(cp: int) {
    0 <= cp <= 0x10FFFF && !(0xD800 <= cp <= 0xDFFF)
  }

  predicate AllScalar(cps: seq<int>) {
    forall i | 0 <= i < |cps| :: Scalar(cps[i])
  }

  /** The encoding of a code point; surrogates are encoded like any other number. */
  function Encoded(cp: int): (b: Text)
    requires 0 <= cp <= 0x10FFFF
    ensures 1 <= |b| <= 4
    ensures cp != 0 ==> 0 !in b
  {
    if cp < 0x80 then [cp]
    else if cp < 0x800 then [0xC0 + cp / 0x40, 0x80 + cp % 0x40]
    else if cp < 0x10000 then [0xE0 + cp / 0x1000, 0x80 + cp / 0x40 % 0x40, 0x80 + cp % 0x40]
    else [0xF0 + cp / 0x40000, 0x80 + cp / 0x1000 % 0x40, 0x80 + cp / 0x40 % 0x40, 0x80 + cp % 0x40]
  }

  function EncodeAll(cps: seq<int>): Text
    requires AllScalar(cps)
  {
    if cps == [] then [] else Encoded(cps[0]) + EncodeAll(cps[1..])
  }

  // ---------------------------------------------------------------- the checks of utf.c

  /** `utf8_check_first`: the length that a first byte announces, 0 when it cannot be one. */
  function CheckFirst(u: byte): nat {
    if u < 0x80 then 1
    else if u <= 0xBF then 0
    else if u == 0xC0 || u == 0xC1 then 0
    else if u <= 0xDF then 2
    else if u <= 0xEF then 3
    else if u <= 0xF4 then 4
    else 0
  }

  predicate Continuation(u: byte) { 0x80 <= u <= 0xBF }

  /** The low six bits of a continuation byte. */
  function Low6(u: byte): nat { u % 0x40 }

  /** The bits kept of the first byte of a sequence of `size` bytes. */
  function FirstBits(u: byte, size: nat): nat {
    if size == 2 then u % 0x20 else if size == 3 then u % 0x10 else u % 0x8
  }

  /** The number `utf8_check_full` has gathered from the first `k` of the `size` bytes at `at`. */
  function Gathered(buffer: Text, at: nat, size: nat, k: nat): nat
    requires 2 <= size <= 4 && 1 <= k <= size && at + k <= |buffer|
  {
    if k > 1 then Gathered(buffer, at, size, k - 1) * 0x40 + Low6(buffer[at + k - 1])
    else FirstBits(buffer[at], size)
  }

  predicate Overlong(size: int, value: int) {
    (size == 2 && value < 0x80) || (size == 3 && value < 0x800) || (size == 4 && value < 0x10000)
  }

  /** The code point a multi-byte sequence stands for, when `utf8_check_full` accepts it. */
  function FullValue(b: Text): (r: Option<int>)
    requires 2 <= |b| <= 4
  {
    var value := Gathered(b, 0, |b|, |b|);
    if (forall i | 1 <= i < |b| :: Continuation(b[i])) && Scalar(value) && !Overlong(|b|, value)
    then Some(value) else None
  }

  lemma {:induction false} GatheredSlice(buffer: Text, at: nat, size: nat, k: nat)
    requires 2 <= size <= 4 && 1 <= k <= size && at + size <= |buffer|
    ensures Gathered(buffer, at, size, k) == Gathered(buffer[at..at + size], 0, size, k)
  {
    if k > 1 {
      GatheredSlice(buffer, at, size, k - 1);
    }
  }

  lemma Gathered2(b: Text)
    requires |b| == 2
    ensures Gathered(b, 0, 2, 2) == FirstBits(b[0], 2) * 0x40 + Low6(b[1])
  {
    assert Gathered(b, 0, 2, 1) == FirstBits(b[0], 2);
  }

  lemma Gathered3(b: Text)
    requires |b| == 3
    ensures Gathered(b, 0, 3, 3) == (FirstBits(b[0], 3) * 0x40 + Low6(b[1])) * 0x40 + Low6(b[2])
  {
    assert Gathered(b, 0, 3, 1) == FirstBits(b[0], 3);
    assert Gathered(b, 0, 3, 2) == Gathered(b, 0, 3, 1) * 0x40 + Low6(b[1]);
  }

  lemma Gathered4(b: Text)
    requires |b| == 4
    ensures Gathered(b, 0, 4, 4) == ((FirstBits(b[0], 4) * 0x40 + Low6(b[1])) * 0x40 + Low6(b[2])) * 0x40 + Low6(b[3])
  {
    assert Gathered(b, 0, 4, 1) == FirstBits(b[0], 4);
    assert Gathered(b, 0, 4, 2) == Gathered(b, 0, 4, 1) * 0x40 + Low6(b[1]);
    assert Gathered(b, 0, 4, 3) == Gathered(b, 0, 4, 2) * 0x40 + Low6(b[2]);
  }

  lemma Digits(cp: nat)
    ensures cp == cp / 0x40 * 0x40 + cp % 0x40
    ensures cp == (cp / 0x1000 * 0x40 + cp / 0x40 % 0x40) * 0x40 + cp % 0x40
    ensures cp == ((cp / 0x40000 * 0x40 + cp / 0x1000 % 0x40) * 0x40 + cp / 0x40 % 0x40) * 0x40 + cp % 0x40
  {
    assert cp / 0x40 / 0x40 == cp / 0x1000;
    assert cp / 0x1000 / 0x40 == cp / 0x40000;
  }

  lemma DigitsUnique(a: nat, b: nat, c: nat, d: nat)
    requires b < 0x40 && c < 0x40 && d < 0x40
    ensures var cp := ((a * 0x40 + b) * 0x40 + c) * 0x40 + d;
            cp / 0x40000 == a && cp / 0x1000 == a * 0x40 + b && cp / 0x1000 % 0x40 == b &&
            cp / 0x40 == (a * 0x40 + b) * 0x40 + c && cp / 0x40 % 0x40 == c && cp % 0x40 == d
  {
    var cp := ((a * 0x40 + b) * 0x40 + c) * 0x40 + d;
    var n := (a * 0x40 + b) * 0x40 + c;
    assert cp / 0x40 == n;
    assert n / 0x40 == a * 0x40 + b;
    assert cp / 0x1000 == n / 0x40;
    assert cp / 0x40000 == cp / 0x1000 / 0x40;
  }

  lemma FullValueOfEncoded2(cp: int)
    requires 0x80 <= cp < 0x800
    ensures FullValue(Encoded(cp)) == Some(cp)
  {
    var b := Encoded(cp);
    var w, x := cp / 0x40, cp % 0x40;
    assert b == [0xC0 + w, 0x80 + x] && w < 0x20;
    FirstOf2(w);
    ContinuationOf(x);
    Digits(cp);
    hide Encoded, Low6, FirstBits, Continuation, Gathered;
    Gathered2(b);
  }

  lemma FirstOf2(w: nat)
    requires w < 0x20
    ensures FirstBits(0xC0 + w, 2) == w
  {
  }

  lemma FirstOf3(w: nat)
    requires w < 0x10
    ensures FirstBits(0xE0 + w, 3) == w
  {
  }

  lemma FullValueOfEncoded3(cp: int)
    requires Scalar(cp) && 0x800 <= cp < 0x10000
    ensures FullValue(Encoded(cp)) == Some(cp)
  {
    var b := Encoded(cp);
    var w, x, y := cp / 0x1000, cp / 0x40 % 0x40, cp % 0x40;
    assert b == [0xE0 + w, 0x80 + x, 0x80 + y] && w < 0x10;
    FirstOf3(w);
    ContinuationOf(x);
    ContinuationOf(y);
    Digits(cp);
    hide Encoded, Low6, FirstBits, Continuation, Gathered;
    Gathered3(b);
  }

  lemma FullValueOfEncoded4(cp: int)
    requires 0x10000 <= cp <= 0x10FFFF
    ensures FullValue(Encoded(cp)) == Some(cp)
  {
    var b := Encoded(cp);
    var w, x, y, z := cp / 0x40000, cp / 0x1000 % 0x40, cp / 0x40 % 0x40, cp % 0x40;
    assert b == [0xF0 + w, 0x80 + x, 0x80 + y, 0x80 + z] && w < 8;
    FirstOf4(w);
    ContinuationOf(x);
    ContinuationOf(y);
    ContinuationOf(z);
    Digits(cp);
    hide Encoded, Low6, FirstBits, Continuation, Gathered;
    Gathered4(b);
  }

  lemma FirstOf4(w: nat)
    requires w < 8
    ensures FirstBits(0xF0 + w, 4) == w
  {
  }

  lemma ContinuationOf(x: nat)
    requires x < 0x40
    ensures Continuation(0x80 + x) && Low6(0x80 + x) == x
  {
  }

  lemma ContinuationIs(u: byte)
    requires Continuation(u)
    ensures Low6(u) < 0x40 && u == 0x80 + Low6(u)
  {
  }

  /** What the full check computes undoes the encoder ... */
  lemma FullValueOfEncoded(cp: int)
    requires Scalar(cp) && cp >= 0x80
    ensures CheckFirst(Encoded(cp)[0]) == |Encoded(cp)| >= 2
    ensures FullValue(Encoded(cp)) == Some(cp)
  {
    if cp < 0x800 {
      FullValueOfEncoded2(cp);
    } else if cp < 0x10000 {
      FullValueOfEncoded3(cp);
    } else {
      FullValueOfEncoded4(cp);
    }
  }

  lemma FullValueIsEncoded2(b: Text)
    requires |b| == 2 && CheckFirst(b[0]) == 2 && FullValue(b).Some?
    ensures Encoded(FullValue(b).value) == b
  {
    Gathered2(b);
    assert Continuation(b[1]);
    DigitsUnique(0, 0, FirstBits(b[0], 2), Low6(b[1]));
  }

  lemma FullValueIsEncoded3(b: Text)
    requires |b| == 3 && CheckFirst(b[0]) == 3 && FullValue(b).Some?
    ensures Encoded(FullValue(b).value) == b
  {
    Gathered3(b);
    assert b[0] == 0xE0 + FirstBits(b[0], 3);
    hide CheckFirst, Low6, FirstBits, Continuation, Gathered;
    assert Continuation(b[1]) && Continuation(b[2]);
    ContinuationIs(b[1]);
    ContinuationIs(b[2]);
    DigitsUnique(0, FirstBits(b[0], 3), Low6(b[1]), Low6(b[2]));
  }

  lemma FullValueIsEncoded4(b: Text)
    requires |b| == 4 && CheckFirst(b[0]) == 4 && FullValue(b).Some?
    ensures Encoded(FullValue(b).value) == b
  {
    Gathered4(b);
    assert b[0] == 0xF0 + FirstBits(b[0], 4);
    hide CheckFirst, Low6, FirstBits, Continuation, Gathered;
    assert Continuation(b[1]) && Continuation(b[2]) && Continuation(b[3]);
    ContinuationIs(b[1]);
    ContinuationIs(b[2]);
    ContinuationIs(b[3]);
    DigitsUnique(FirstBits(b[0], 4), Low6(b[1]), Low6(b[2]), Low6(b[3]));
  }

  /** ... and accepts nothing but encodings, so overlong forms and surrogates are refused. */
  lemma FullValueIsEncoded(b: Text)
    requires 2 <= |b| <= 4 && CheckFirst(b[0]) == |b| && FullValue(b).Some?
    ensures Scalar(FullValue(b).value) && Encoded(FullValue(b).value) == b
  {
    if |b| == 2 {
      FullValueIsEncoded2(b);
    } else if |b| == 3 {
      FullValueIsEncoded3(b);
    } else {
      FullValueIsEncoded4(b);
    }
  }

  // ---------------------------------------------------------------- splitting a text

  /** The length of the encoded code point that `s` starts with, 0 when there is none. */
  function UnitLength(s: Text): (n: nat)
    ensures n <= |s| && n <= 4
  {
    if s == [] then 0
    else
      var n := CheckFirst(s[0]);
      if n == 1 then 1
      else if 2 <= n <= |s| && FullValue(s[..n]).Some? then n
      else 0
  }

  function UnitValue(s: Text): (cp: int)
    requires UnitLength(s) > 0
  {
    if UnitLength(s) == 1 then s[0] else FullValue(s[..UnitLength(s)]).value
  }

  lemma UnitIsEncoded(s: Text)
    requires UnitLength(s) > 0
    ensures Scalar(UnitValue(s)) && Encoded(UnitValue(s)) == s[..UnitLength(s)]
  {
    if UnitLength(s) > 1 {
      FullValueIsEncoded(s[..UnitLength(s)]);
    }
  }

  lemma UnitOfEncoded(cp: int, s: Text)
    requires Scalar(cp) && Encoded(cp) <= s
    ensures UnitLength(s) == |Encoded(cp)| && UnitValue(s) == cp
  {
    if cp >= 0x80 {
      FullValueOfEncoded(cp);
      assert s[..|Encoded(cp)|] == Encoded(cp);
    }
  }

  predicate Valid(s: Text) {
    s == [] || (UnitLength(s) > 0 && Valid(s[UnitLength(s)..]))
  }

  function Decode(s: Text): (cps: seq<int>)
    requires Valid(s)
  {
    if s == [] then [] else [UnitValue(s)] + Decode(s[UnitLength(s)..])
  }

  lemma EncodeAllCons(cp: int, cps: seq<int>)
    requires Scalar(cp) && AllScalar(cps)
    ensures AllScalar([cp] + cps) && EncodeAll([cp] + cps) == Encoded(cp) + EncodeAll(cps)
  {
    assert ([cp] + cps)[1..] == cps;
  }

  lemma {:induction false} EncodeDecode(s: Text)
    requires Valid(s)
    ensures AllScalar(Decode(s)) && EncodeAll(Decode(s)) == s
  {
    hide Encoded, FullValue, CheckFirst, UnitLength, UnitValue, Scalar, EncodeAll;
    if s != [] {
      var n := UnitLength(s);
      UnitIsEncoded(s);
      EncodeDecode(s[n..]);
      EncodeAllCons(UnitValue(s), Decode(s[n..]));
      assert s == s[..n] + s[n..];
    } else {
      NothingEncoded();
    }
  }

  lemma NothingEncoded()
    ensures EncodeAll([]) == []
  {
  }

  /** The split of a text into encoded code points is unique. */
  lemma {:induction false} DecodeEncode(cps: seq<int>)
    requires AllScalar(cps)
    ensures Valid(EncodeAll(cps)) && Decode(EncodeAll(cps)) == cps
  {
    hide Encoded, FullValue, CheckFirst, UnitLength, UnitValue;
    if cps != [] {
      var s := EncodeAll(cps);
      UnitOfEncoded(cps[0], s);
      assert s[|Encoded(cps[0])|..] == EncodeAll(cps[1..]);
      DecodeEncode(cps[1..]);
    }
  }

  ghost predicate Encodes(cps: seq<int>, s: Text) {
    AllScalar(cps) && EncodeAll(cps) == s
  }

  lemma ValidExactly(s: Text)
    ensures Valid(s) <==> exists cps: seq<int> :: Encodes(cps, s)
    ensures forall a: seq<int>, b: seq<int> :: Encodes(a, s) && Encodes(b, s) ==> a == b
  {
    if Valid(s) {
      EncodeDecode(s);
      assert Encodes(Decode(s), s);
    }
    forall cps: seq<int> | Encodes(cps, s) ensures Valid(s) && cps == Decode(s) {
      DecodeEncode(cps);
    }
  }

  lemma {:induction false} ValidConcat(a: Text, b: Text)
    requires Valid(a) && Valid(b)
    ensures Valid(a + b)
  {
    if a == [] {
      assert a + b == b;
    } else {
      var n := UnitLength(a);
      UnitIsEncoded(a);
      assert Encoded(UnitValue(a)) <= a + b;
      UnitOfEncoded(UnitValue(a), a + b);
      assert (a + b)[n..] == a[n..] + b;
      ValidConcat(a[n..], b);
    }
  }

  // ---------------------------------------------------------------- the methods of utf.c

  /** `utf8_encode`: the sequence goes into `buffer`, its length into `size`. */
  method Encode(codepoint: int, buffer: array<byte>) returns (rc: int, size: nat)
    requires buffer.Length >= 4
    modifies buffer
    ensures rc == 0 <==> 0 <= codepoint <= 0x10FFFF
    ensures rc == 0 ==> size <= 4 && buffer[..size] == Encoded(codepoint)
    ensures rc != 0 ==> rc == -1 && buffer[..] == old(buffer[..])
  {
    size := 0;
    if codepoint < 0 {
      return -1, size;
    } else if codepoint < 0x80 {
      buffer[0] := codepoint;
      size := 1;
    } else if codepoint < 0x800 {
      assert codepoint / 0x40 % 0x20 == codepoint / 0x40;
      buffer[0] := 0xC0 + codepoint / 0x40 % 0x20;
      buffer[1] := 0x80 + codepoint % 0x40;
      size := 2;
      assert buffer[..2] == [buffer[0], buffer[1]];
    } else if codepoint < 0x10000 {
      assert codepoint / 0x1000 % 0x10 == codepoint / 0x1000;
      buffer[0] := 0xE0 + codepoint / 0x1000 % 0x10;
      buffer[1] := 0x80 + codepoint / 0x40 % 0x40;
      buffer[2] := 0x80 + codepoint % 0x40;
      size := 3;
      assert buffer[..3] == [buffer[0], buffer[1], buffer[2]];
    } else if codepoint <= 0x10FFFF {
      assert codepoint / 0x40000 % 0x8 == codepoint / 0x40000;
      buffer[0] := 0xF0 + codepoint / 0x40000 % 0x8;
      buffer[1] := 0x80 + codepoint / 0x1000 % 0x40;
      buffer[2] := 0x80 + codepoint / 0x40 % 0x40;
      buffer[3] := 0x80 + codepoint % 0x40;
      size := 4;
      assert buffer[..4] == [buffer[0], buffer[1], buffer[2], buffer[3]];
    } else {
      return -1, size;
    }
    rc := 0;
  }

  /**
   `utf8_check_full` on the bytes from index `at`.  Either `size` bytes are there, or a NUL ends
   the buffer: the check stops at it, so nothing is read past the end.
   */
  method CheckFull(buffer: Text, at: nat, size: int) returns (ok: bool, codepoint: int)
    requires at < |buffer|
    requires at + size <= |buffer| || buffer[|buffer| - 1] == 0 != buffer[at]
    ensures ok <==> 2 <= size <= 4 && at + size <= |buffer| && FullValue(buffer[at..at + size]).Some?
    ensures ok ==> FullValue(buffer[at..at + size]) == Some(codepoint)
  {
    hide FullValue, Gathered;
    codepoint := 0;
    var u := buffer[at];
    var value: int := 0;
    if size == 2 {
      value := u % 0x20;
    } else if size == 3 {
      value := u % 0x10;
    } else if size == 4 {
      value := u % 0x8;
    } else {
      return false, codepoint;
    }
    GatheredFirst(buffer, at, size);
    var i := 1;
    while i < size
      invariant 1 <= i <= size && at + i <= |buffer|
      invariant at + i < |buffer| || i == size
      invariant forall k | at < k < at + i :: Continuation(buffer[k])
      invariant value == Gathered(buffer, at, size, i)
    {
      u := buffer[at + i];
      if u < 0x80 || u > 0xBF {
        if at + size <= |buffer| {
          FullValueIs(buffer, at, size, i);
        }
        return false, codepoint;
      }
      GatheredNext(buffer, at, size, i);
      value := value * 0x40 + u % 0x40;
      i := i + 1;
    }
    FullValueIs(buffer, at, size, size);
    if value > 0x10FFFF {
      return false, codepoint;
    } else if 0xD800 <= value <= 0xDFFF {
      return false, codepoint;
    } else if (size == 2 && value < 0x80) || (size == 3 && value < 0x800) || (size == 4 && value < 0x10000) {
      return false, codepoint;
    }
    return true, value;
  }

  lemma GatheredFirst(buffer: Text, at: nat, size: nat)
    requires 2 <= size <= 4 && at < |buffer|
    ensures Gathered(buffer, at, size, 1) == FirstBits(buffer[at], size)
  {
  }

  lemma GatheredNext(buffer: Text, at: nat, size: nat, i: nat)
    requires 2 <= size <= 4 && 1 <= i < size && at + i < |buffer|
    ensures Gathered(buffer, at, size, i + 1) == Gathered(buffer, at, size, i) * 0x40 + buffer[at + i] % 0x40
  {
  }

  /** The first `i` bytes of a sequence fit; what that says about the code point. */
  lemma FullValueIs(buffer: Text, at: nat, size: nat, i: nat)
    requires 2 <= size <= 4 && 1 <= i <= size && at + size <= |buffer|
    requires forall k | at < k < at + i :: Continuation(buffer[k])
    ensures i < size && !Continuation(buffer[at + i]) ==> FullValue(buffer[at..at + size]).None?
    ensures i == size ==>
              var value := Gathered(buffer, at, size, size);
              FullValue(buffer[at..at + size]) == if Scalar(value) && !Overlong(size, value) then Some(value) else None
  {
    hide Gathered, Continuation;
    GatheredSlice(buffer, at, size, size);
    var b := buffer[at..at + size];
    assert forall k | 0 <= k < size :: b[k] == buffer[at + k];
  }

  /**
   `utf8_iterate` on a NUL-terminated buffer: the end of the code point at `at`, or -1 (the null
   pointer) when no scalar value is encoded there.
   */
  method Iterate(buffer: Text, at: nat) returns (next: int, codepoint: int)
    requires at < |buffer| && buffer[|buffer| - 1] == 0
    ensures buffer[at] == 0 ==> next == at
    ensures buffer[at] != 0 ==>
              (next == -1 && UnitLength(buffer[at..]) == 0) ||
              (at < next < |buffer| && next == at + UnitLength(buffer[at..]) && codepoint == UnitValue(buffer[at..]))
  {
    codepoint := 0;
    if buffer[at] == 0 {
      return at, codepoint;
    }
    var count := CheckFirst(buffer[at]);
    if count <= 0 {
      return -1, codepoint;
    }
    if count == 1 {
      return at + 1, buffer[at];
    }
    var ok, value := CheckFull(buffer, at, count);
    if at + count <= |buffer| {
      assert buffer[at..][..count] == buffer[at..at + count];
    }
    if !ok {
      return -1, codepoint;
    }
    if at + count == |buffer| {
      FullValueIsEncoded(buffer[at..at + count]);
      assert buffer[at..at + count][count - 1] == 0;
    }
    return at + count, value;
  }

  /** `utf8_check_string`: exactly the concatenations of encoded scalar values are accepted. */
  method CheckString(s: Text) returns (ok: bool)
    ensures ok <==> Valid(s)
    ensures ok <==> exists cps: seq<int> :: Encodes(cps, s)
  {
    hide FullValue, CheckFirst, UnitLength, UnitValue, Valid, Encodes;
    ValidExactly(s);
    var i := 0;
    assert s[0..] == s;
    while i < |s|
      invariant 0 <= i <= |s|
      invariant Valid(s) <==> Valid(s[i..])
    {
      var count := CheckFirst(s[i]);
      UnitAt(s, i);
      if count == 0 {
        return false;
      } else if count > 1 {
        if i + count > |s| {
          return false;
        }
        var full, _ := CheckFull(s, i, count);
        if !full {
          return false;
        }
        i := i + (count - 1);
      }
      i := i + 1;
    }
    assert s[i..] == [];
    NothingIsValid();
    return true;
  }

  lemma NothingIsValid()
    ensures Valid([])
  {
  }

  /** What the first byte and the full check say about the code point at `i`. */
  lemma UnitAt(s: Text, i: nat)
    requires i < |s|
    ensures var n := CheckFirst(s[i]);
            && n <= 4
            && (n == 0 || i + n > |s| ==> !Valid(s[i..]))
            && (n == 1 ==> (Valid(s[i..]) <==> Valid(s[i + 1..])))
            && (2 <= n <= |s| - i ==>
                  (Valid(s[i..]) <==> FullValue(s[i..i + n]).Some? && Valid(s[i + n..])))
  {
    hide FullValue;
    var t, n := s[i..], CheckFirst(s[i]);
    assert t[0] == s[i];
    if n <= |t| {
      assert t[..n] == s[i..i + n] && t[n..] == s[i + n..];
    }
  }
}
