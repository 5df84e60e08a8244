/**
 The numbers of section 2.4 of RFC 4627, part by part, and that the scanner takes exactly the longest number that
 the input starts with.
 */
module Numbers {
  import opened Bytes
  import opened Tokens
  import G = Grammar
  import I = Input
  import J = Json
  import L = Loading
  import P = Printing
  import R = RoundTrip
  import S = StringTrip

  // ---------------------------------------------------------------- the syntax

  ghost predicate Digit(c: byte) { 0x30 <= c <= 0x39 }

  ghost predicate AllDigit(t: Text) {
    forall i :: 0 <= i < |t| ==> Digit(t[i])
  }

  ghost predicate Digits(t: Text) { t != [] && AllDigit(t) }

  /** No digit follows a leading zero. */
  ghost predicate Int(t: Text) {
    Digits(t) && (|t| > 1 ==> t[0] != 0x30)
  }

  ghost predicate Frac(t: Text) {
    t == [] || (t[0] == 0x2E && Digits(t[1..]))
  }

  ghost predicate Exp(t: Text) {
    t == [] || ((t[0] == 0x65 || t[0] == 0x45) && |t| > 1 &&
                (Digits(t[1..]) || ((t[1] == 0x2B || t[1] == 0x2D) && Digits(t[2..]))))
  }

  /** A number and what follows it: a sign, an integer part, a fraction and an exponent, which may be missing. */
  datatype Parts = Parts(minus: bool, digits: Text, frac: Text, exp: Text, rest: Text)

  ghost function Sign(p: Parts): Text { if p.minus then [0x2D] else [] }

  /** The number cannot be continued: it is the longest that the input starts with. */
  ghost predicate Longest(p: Parts) {
    p.rest != [] ==>
      && !Digit(p.rest[0])
      && (p.exp == [] ==> p.rest[0] != 0x65 && p.rest[0] != 0x45)
      && (p.exp == [] && p.frac == [] ==> p.rest[0] != 0x2E)
  }

  ghost predicate Splits(s: Text, p: Parts) {
    && s == Sign(p) + (p.digits + (p.frac + (p.exp + p.rest)))
    && Int(p.digits) && Frac(p.frac) && Exp(p.exp) && Longest(p)
  }

  function Power(k: nat): nat { if k == 0 then 1 else 10 * Power(k - 1) }

  /** The digits of `t` by their places. */
  ghost function Value(t: Text): nat
    requires AllDigit(t)
  {
    if t == [] then 0 else
      assert Digit(t[0]);
      (t[0] - 0x30) * Power(|t| - 1) + Value(t[1..])
  }

  ghost function Number(p: Parts): int
    requires Int(p.digits)
  {
    var v: int := Value(p.digits);
    if p.minus then -v else v
  }

  /** What the number `p` is read as: an integer only if it has neither fraction nor exponent, and fits 64 bits. */
  ghost function Read(p: Parts): Scanned
    requires Int(p.digits)
  {
    if p.frac == [] && p.exp == [] then
      var n := Number(p);
      if -0x8000_0000_0000_0000 <= n < 0x8000_0000_0000_0000 then Scanned(G.Integer(n), p.rest) else BROKEN
    else Scanned(G.Real(Sign(p) + p.digits + p.frac + p.exp), p.rest)
  }

  // ---------------------------------------------------------------- values by places

  lemma {:induction false} ValueSnoc(t: Text)
    requires t != [] && AllDigit(t)
    ensures Value(t) == Value(t[..|t| - 1]) * 10 + (t[|t| - 1] - 0x30)
    decreases |t|
  {
    var front, last := t[..|t| - 1], t[|t| - 1] - 0x30;
    if |t| == 1 {
      assert t[1..] == [] && front == [] && Power(0) == 1;
    } else {
      ValueSnoc(t[1..]);
      assert t[1..][..|t| - 2] == front[1..];
      Tenfold(t[0] - 0x30, Power(|t| - 2), Value(front[1..]), last);
    }
  }

  lemma Tenfold(d: int, w: nat, v: nat, last: int)
    ensures d * (10 * w) + (v * 10 + last) == (d * w + v) * 10 + last
  {
  }

  /** The digits are worth what their places say. */
  lemma {:induction false} DigitsByPlaces(t: Text)
    requires AllDigits(t)
    ensures AllDigit(t) && DigitsValue(t) == Value(t)
    decreases |t|
  {
    forall i | 0 <= i < |t| ensures Digit(t[i]) {
      assert IsDigit(t[i]);
    }
    if t != [] {
      ValueSnoc(t);
      DigitsByPlaces(t[..|t| - 1]);
    }
  }

  // ---------------------------------------------------------------- runs of digits

  lemma RunOfDigits(t: Text, rest: Text)
    requires AllDigit(t) && (rest != [] ==> !Digit(rest[0]))
    ensures DigitRun(t + rest) == |t|
  {
    forall i | 0 <= i < |t| ensures IsDigit(t[i]) {
      assert Digit(t[i]);
    }
    S.RunIs(t, rest);
  }

  /** A run of digits ends in front of something else. */
  lemma RunSplits(s: Text)
    ensures var n := DigitRun(s);
            (forall i :: 0 <= i < n ==> Digit(s[i])) && (n < |s| ==> !Digit(s[n]))
  {
    hide DigitRun;
    DigitRunExactly(s);
    var n := DigitRun(s);
    var t := s[..n];
    forall i | 0 <= i < n ensures Digit(s[i]) {
      assert IsDigit(t[i]);
    }
  }

  lemma RunIsDigits(s: Text)
    requires DigitRun(s) > 0
    ensures Digits(s[..DigitRun(s)])
  {
    RunSplits(s);
  }

  // ---------------------------------------------------------------- what is a number is scanned as one

  lemma IntegerOf(digits: Text, tail: Text)
    requires Int(digits) && (tail != [] ==> !Digit(tail[0]))
    ensures IntegerPart(digits + tail) == |digits|
  {
    RunOfDigits(digits, tail);
  }

  lemma FractionOf(frac: Text, tail: Text)
    requires Frac(frac) && (tail != [] ==> !Digit(tail[0]) && (frac == [] ==> tail[0] != 0x2E))
    ensures Fraction(frac + tail) == Some(|frac|)
  {
    if frac == [] {
      assert frac + tail == tail;
    } else {
      assert (frac + tail)[1..] == frac[1..] + tail;
      RunOfDigits(frac[1..], tail);
    }
  }

  lemma ExponentOf(exp: Text, tail: Text)
    requires Exp(exp) && (tail != [] ==> !Digit(tail[0]) && (exp == [] ==> tail[0] != 0x65 && tail[0] != 0x45))
    ensures Exponent(exp + tail) == Some(|exp|)
  {
    if exp == [] {
      assert exp + tail == tail;
    } else if exp[1] == 0x2B || exp[1] == 0x2D {
      SignIsNoDigit(exp);
      assert (exp + tail)[2..] == exp[2..] + tail;
      RunOfDigits(exp[2..], tail);
    } else {
      assert (exp + tail)[1..] == exp[1..] + tail;
      RunOfDigits(exp[1..], tail);
    }
  }

  lemma SignIsNoDigit(exp: Text)
    requires |exp| > 1 && (exp[1] == 0x2B || exp[1] == 0x2D)
    ensures !Digits(exp[1..])
  {
    assert !Digit(exp[1..][0]);
  }

  lemma ScansAsNumber(s: Text)
    requires s != [] && (Digit(s[0]) || s[0] == 0x2D)
    ensures ScanAt(s) == ScanNumber(s)
  {
    hide ScanNumber;
  }

  lemma ScansAsInteger(s: Text, sign: nat, n: nat)
    requires s != [] && sign == (if s[0] == 0x2D then 1 else 0) && n == IntegerPart(s[sign..]) > 0
    requires var tail := s[sign + n..]; tail == [] || !(tail[0] == 0x2E || tail[0] == 0x65 || tail[0] == 0x45)
    ensures var magnitude: int := DigitsValue(s[sign..][..n]); var value := if sign == 1 then -magnitude else magnitude;
            ScanNumber(s) == if FitsInteger(value) then Scanned(G.Integer(value), s[sign + n..]) else BROKEN
  {
    hide IntegerPart, DigitsValue, FitsInteger;
  }

  lemma ScansAsReal(s: Text, sign: nat, n: nat, tail: Text, f: nat, e: nat)
    requires s != [] && sign == (if s[0] == 0x2D then 1 else 0) && n == IntegerPart(s[sign..]) > 0
    requires tail == s[sign + n..] && tail != [] && (tail[0] == 0x2E || tail[0] == 0x65 || tail[0] == 0x45)
    requires Fraction(tail) == Some(f) && Exponent(tail[f..]) == Some(e)
    ensures sign + n + f + e <= |s|
    ensures ScanNumber(s) == Scanned(G.Real(s[..sign + n + f + e]), s[sign + n + f + e..])
  {
    hide IntegerPart, DigitsValue, FitsInteger, Fraction, Exponent;
  }

  lemma FrontOf(s: Text, minus: bool, digits: Text, tail: Text)
    requires s == (if minus then [0x2D] else []) + (digits + tail) && digits != [] && Digit(digits[0])
    ensures var sign := if minus then 1 else 0;
            && s[sign..] == digits + tail && s[sign..][..|digits|] == digits && s[sign + |digits|..] == tail
            && s[0] == (if minus then 0x2D else digits[0]) && (s[0] == 0x2D <==> minus)
  {
  }

  lemma NoTail(rest: Text)
    ensures [] + ([] + rest) == rest
  {
  }

  lemma IntegerIsRead(s: Text, p: Parts)
    requires Splits(s, p) && p.frac == [] && p.exp == []
    ensures s != [] && ScanAt(s) == Read(p)
  {
    hide IntegerPart, DigitsValue, Value, Int, Frac, Exp, Digit, Longest, ScanNumber, ScanAt;
    IntStarts(p.digits);
    TailStarts(p);
    NoTail(p.rest);
    FrontOf(s, p.minus, p.digits, p.rest);
    IntegerOf(p.digits, p.rest);
    IntDigits(p.digits);
    ScansAsNumber(s);
    ScansAsInteger(s, if p.minus then 1 else 0, |p.digits|);
  }

  lemma TailIsRead(p: Parts)
    requires Frac(p.frac) && Exp(p.exp) && Longest(p) && (p.frac != [] || p.exp != [])
    ensures var tail := p.frac + (p.exp + p.rest);
            && tail != [] && !Digit(tail[0]) && (tail[0] == 0x2E || tail[0] == 0x65 || tail[0] == 0x45)
            && Fraction(tail) == Some(|p.frac|) && tail[|p.frac|..] == p.exp + p.rest
            && Exponent(tail[|p.frac|..]) == Some(|p.exp|)
  {
    hide Digit, Frac, Exp, Longest, Fraction, Exponent;
    TailStarts(p);
    var tail := p.frac + (p.exp + p.rest);
    FractionOf(p.frac, p.exp + p.rest);
    ExponentOf(p.exp, p.rest);
    assert tail[|p.frac|..] == p.exp + p.rest;
  }

  lemma RealFront(s: Text, p: Parts, tail: Text)
    requires s == Sign(p) + (p.digits + tail) && Int(p.digits) && tail != [] && !Digit(tail[0])
    requires (tail[0] == 0x2E || tail[0] == 0x65 || tail[0] == 0x45) && Fraction(tail).Some?
    requires Exponent(tail[Fraction(tail).value..]).Some?
    ensures var k := |Sign(p)| + |p.digits| + Fraction(tail).value + Exponent(tail[Fraction(tail).value..]).value;
            s != [] && k <= |s| && ScanAt(s) == Scanned(G.Real(s[..k]), s[k..])
  {
    hide IntegerPart, DigitsValue, Int, Digit, ScanNumber, ScanAt, Fraction, Exponent;
    IntStarts(p.digits);
    FrontOf(s, p.minus, p.digits, tail);
    IntegerOf(p.digits, tail);
    ScansAsNumber(s);
    ScansAsReal(s, |Sign(p)|, |p.digits|, tail, Fraction(tail).value, Exponent(tail[Fraction(tail).value..]).value);
  }

  lemma RealIsRead(s: Text, p: Parts)
    requires Splits(s, p) && (p.frac != [] || p.exp != [])
    ensures s != [] && ScanAt(s) == Read(p)
  {
    hide Int, Frac, Exp, Longest, Digit, ScanAt, Fraction, Exponent;
    TailIsRead(p);
    RealFront(s, p, p.frac + (p.exp + p.rest));
    Cut(Sign(p), p.digits, p.frac, p.exp, p.rest);
  }

  /** The number at the front of `s` is taken, and nothing more. */
  lemma NumberIsRead(s: Text, p: Parts)
    requires Splits(s, p)
    ensures s != [] && ScanAt(s) == Read(p)
  {
    if p.frac == [] && p.exp == [] {
      IntegerIsRead(s, p);
    } else {
      RealIsRead(s, p);
    }
  }

  lemma Cut(a: Text, b: Text, c: Text, d: Text, rest: Text)
    ensures var s, k := a + (b + (c + (d + rest))), |a| + |b| + |c| + |d|; s[..k] == a + b + c + d && s[k..] == rest
  {
    assert a + (b + (c + (d + rest))) == (a + b + c + d) + rest;
  }

  lemma IntStarts(t: Text)
    requires Int(t)
    ensures |t| > 0 && Digit(t[0]) && t[0] != 0x2D
  {
  }

  lemma IntDigits(t: Text)
    requires Int(t)
    ensures AllDigits(t) && DigitsValue(t) == Value(t)
  {
    forall i | 0 <= i < |t| ensures IsDigit(t[i]) {
      assert Digit(t[i]);
    }
    DigitsByPlaces(t);
  }

  /** What may stand behind the integer part. */
  lemma TailStarts(p: Parts)
    requires Frac(p.frac) && Exp(p.exp) && Longest(p)
    ensures var tail := p.frac + (p.exp + p.rest);
            && (tail != [] ==> !Digit(tail[0]))
            && (p.frac == [] && p.exp == [] ==>
                  tail == [] || (tail[0] != 0x2E && tail[0] != 0x65 && tail[0] != 0x45))
            && (p.frac != [] ==> tail[0] == 0x2E)
            && (p.frac == [] && p.exp != [] ==> tail[0] == 0x65 || tail[0] == 0x45)
    ensures var tail := p.exp + p.rest;
            tail != [] ==> !Digit(tail[0]) && (p.frac == [] && p.exp != [] ==> tail[0] != 0x2E)
    ensures p.rest != [] ==> !Digit(p.rest[0]) && (p.exp == [] ==> p.rest[0] != 0x65 && p.rest[0] != 0x45)
  {
  }

  // ---------------------------------------------------------------- what is scanned as a number is one

  lemma IntegerSplits(s: Text)
    requires IntegerPart(s) > 0
    ensures var n := IntegerPart(s); Int(s[..n]) && (n < |s| ==> !Digit(s[n]))
  {
    RunSplits(s);
    if s[0] == 0x30 {
      assert s[..1] == [s[0]];
    }
  }

  lemma FractionSplits(s: Text)
    requires Fraction(s).Some?
    ensures var n := Fraction(s).value; Frac(s[..n]) && (0 < n < |s| ==> !Digit(s[n]))
    ensures Fraction(s).value == 0 ==> s == [] || s[0] != 0x2E
  {
    var n := Fraction(s).value;
    if n > 0 {
      RunIsDigits(s[1..]);
      RunSplits(s[1..]);
      assert s[..n][1..] == s[1..][..n - 1];
      assert n < |s| ==> s[1..][n - 1] == s[n];
    }
  }

  lemma ExponentSplits(s: Text)
    requires Exponent(s).Some?
    ensures var n := Exponent(s).value; Exp(s[..n]) && (0 < n < |s| ==> !Digit(s[n]))
    ensures Exponent(s).value == 0 ==> s == [] || (s[0] != 0x65 && s[0] != 0x45)
  {
    var n := Exponent(s).value;
    if n > 0 {
      var sign := if |s| > 1 && (s[1] == 0x2B || s[1] == 0x2D) then 2 else 1;
      RunIsDigits(s[sign..]);
      RunSplits(s[sign..]);
      assert s[..n][sign..] == s[sign..][..n - sign];
      assert n < |s| ==> s[sign..][n - sign] == s[n];
    }
  }

  /** What is taken for a number is one, cut off where it cannot be continued. */
  lemma ReadIsNumber(s: Text) returns (p: Parts)
    requires s != [] && (Digit(s[0]) || s[0] == 0x2D) && ScanAt(s) != BROKEN
    ensures Splits(s, p)
  {
    hide IntegerPart, Fraction, Exponent, DigitsValue, FitsInteger, Int, Frac, Exp, Longest, ScanAt;
    ScansAsNumber(s);
    var minus := s[0] == 0x2D;
    var sign := if minus then 1 else 0;
    var n := IntegerPart(s[sign..]);
    IntegerSplits(s[sign..]);
    SignAndDigits(s, sign, n);
    var digits, tail := s[sign..][..n], s[sign + n..];
    hide IsDigit;
    if tail == [] || !(tail[0] == 0x2E || tail[0] == 0x65 || tail[0] == 0x45) {
      p := Parts(minus, digits, [], [], tail);
      NothingSplits(p);
      NoTail(tail);
    } else {
      assert Fraction(tail).Some? && Exponent(tail[Fraction(tail).value..]).Some?;
      var frac, exp, rest := TailSplits(tail);
      p := Parts(minus, digits, frac, exp, rest);
      TailIsLongest(p);
    }
  }

  lemma SignAndDigits(s: Text, sign: nat, n: nat)
    requires s != [] && sign == (if s[0] == 0x2D then 1 else 0) && n <= |s[sign..]|
    ensures s == (if sign == 1 then [0x2D] else []) + (s[sign..][..n] + s[sign + n..])
    ensures n < |s[sign..]| ==> s[sign + n..] != [] && s[sign..][n] == s[sign + n..][0]
  {
  }

  lemma TailSplits(tail: Text) returns (frac: Text, exp: Text, rest: Text)
    requires tail != [] && !Digit(tail[0]) && Fraction(tail).Some? && Exponent(tail[Fraction(tail).value..]).Some?
    ensures tail == frac + (exp + rest) && Frac(frac) && Exp(exp)
    ensures rest != [] ==> !Digit(rest[0]) && (exp == [] ==> rest[0] != 0x65 && rest[0] != 0x45)
    ensures rest != [] && exp == [] && frac == [] ==> rest[0] != 0x2E
  {
    hide Fraction, Exponent, Frac, Exp;
    FractionSplits(tail);
    var f := Fraction(tail).value;
    var behind := tail[f..];
    ExponentSplits(behind);
    var e := Exponent(behind).value;
    frac, exp, rest := tail[..f], behind[..e], behind[e..];
    assert rest != [] ==> rest[0] == behind[e] == tail[f + e];
  }

  lemma TailIsLongest(p: Parts)
    requires p.rest != [] ==> !Digit(p.rest[0]) && (p.exp == [] ==> p.rest[0] != 0x65 && p.rest[0] != 0x45)
    requires p.rest != [] && p.exp == [] && p.frac == [] ==> p.rest[0] != 0x2E
    ensures Longest(p)
  {
  }

  lemma NothingSplits(p: Parts)
    requires p.frac == [] && p.exp == []
    requires p.rest != [] ==> !Digit(p.rest[0]) && p.rest[0] != 0x65 && p.rest[0] != 0x45 && p.rest[0] != 0x2E
    ensures Frac(p.frac) && Exp(p.exp) && Longest(p)
  {
  }

  /**
   On input that starts with a digit or a minus sign the scanner takes the longest number of section 2.4, and is
   broken exactly when there is none or when it is an integer that does not fit 64 bits.
   */
  lemma NumbersExactly(s: Text)
    requires s != [] && (Digit(s[0]) || s[0] == 0x2D)
    ensures forall p: Parts :: Splits(s, p) ==> ScanAt(s) == Read(p)
    ensures (forall p: Parts :: !Splits(s, p)) ==> ScanAt(s) == BROKEN
  {
    hide ScanAt, Read;
    forall p: Parts | Splits(s, p) ensures ScanAt(s) == Read(p) {
      NumberIsRead(s, p);
    }
    if ScanAt(s) != BROKEN {
      var p := ReadIsNumber(s);
      assert Splits(s, p);
    }
  }

  // ---------------------------------------------------------------- printed and loaded numbers

  /** Printed integers are decimal: their digits by their places, without a leading zero. */
  lemma PrintedIsDecimal(n: nat)
    ensures Int(P.Digits(n)) && Value(P.Digits(n)) == n
  {
    hide P.Digits, DigitsValue, Value;
    S.DigitsAreDigits(n);
    DigitsByPlaces(P.Digits(n));
  }

  ghost function TextOf(p: Parts): Text { Sign(p) + (p.digits + (p.frac + p.exp)) }

  lemma NumberIsAscii(p: Parts)
    requires Int(p.digits) && Frac(p.frac) && Exp(p.exp)
    ensures forall i :: 0 <= i < |TextOf(p)| ==> 0 < TextOf(p)[i] < 0x80
  {
    IntIsAscii(p.digits);
    FracIsAscii(p.frac);
    ExpIsAscii(p.exp);
  }

  lemma IntIsAscii(t: Text)
    requires AllDigit(t)
    ensures forall i :: 0 <= i < |t| ==> 0 < t[i] < 0x80
  {
    forall i | 0 <= i < |t| ensures 0 < t[i] < 0x80 {
      assert Digit(t[i]);
    }
  }

  lemma FracIsAscii(t: Text)
    requires Frac(t)
    ensures forall i :: 0 <= i < |t| ==> 0 < t[i] < 0x80
  {
    if t != [] {
      IntIsAscii(t[1..]);
      assert t == [t[0]] + t[1..];
    }
  }

  lemma ExpIsAscii(t: Text)
    requires Exp(t)
    ensures forall i :: 0 <= i < |t| ==> 0 < t[i] < 0x80
  {
    if t != [] {
      if Digits(t[1..]) {
        IntIsAscii(t[1..]);
        assert t == [t[0]] + t[1..];
      } else {
        IntIsAscii(t[2..]);
        assert t == [t[0], t[1]] + t[2..];
      }
    }
  }

  lemma Tokens3(s: Text, token: G.Token)
    requires s != [] && (Digit(s[0]) || s[0] == 0x2D) && !token.Eof? && !token.Aborted?
    requires ScanAt(s + [0x5D]) == if token.Invalid? then BROKEN else Scanned(token, [0x5D])
    ensures Tokenize([0x5B] + (s + [0x5D]), AtEof) ==
              if token.Invalid? then [G.LBracket, G.Invalid] else [G.LBracket, token, G.RBracket]
  {
    hide ScanAt;
    R.MarkStep(0x5B, s + [0x5D], AtEof);
    R.MarkStep(0x5D, [], AtEof);
    var none: Text := [];
    assert [0x5D] + none == [0x5D];
    assert Tokenize(none, AtEof) == [];
    if !token.Invalid? {
      R.TokenStep(s + [0x5D], token, [0x5D], AtEof);
    }
  }

  /** A number alone in an array is loaded as the integer or the real that it is, and refused when it does not fit. */
  lemma NumberLoads(p: Parts, reject: bool, disableEofCheck: bool)
    requires Int(p.digits) && Frac(p.frac) && Exp(p.exp) && p.rest == []
    ensures L.Loads([0x5B] + (TextOf(p) + [0x5D]), reject, disableEofCheck) ==
              if p.frac != [] || p.exp != [] then Some(J.Array([J.Real(TextOf(p))]))
              else if Read(p) == BROKEN then None
              else Some(J.Array([J.Integer(Number(p))]))
  {
    hide Int, Frac, Exp, Value, Tokenize, ScanAt, L.Loads;
    var s, q := TextOf(p), p.(rest := [0x5D]);
    NumberSplits(p);
    NumberIsRead(s + [0x5D], q);
    NumberIsAscii(p);
    var all := [0x5B] + (s + [0x5D]);
    L.AsciiIsClean(all, false);
    I.EndIsEofExactly(all);
    SameRead(p, q);
    Tokens3(s, if Read(p) == BROKEN then G.Invalid else Read(q).token);
    ArrayLoads(all, if Read(p) == BROKEN then G.Invalid else Read(q).token, reject, disableEofCheck);
  }

  lemma NumberSplits(p: Parts)
    requires Int(p.digits) && Frac(p.frac) && Exp(p.exp)
    ensures Splits(TextOf(p) + [0x5D], p.(rest := [0x5D]))
    ensures TextOf(p) != [] && (Digit(TextOf(p)[0]) || TextOf(p)[0] == 0x2D)
  {
    IntStarts(p.digits);
  }

  lemma SameRead(p: Parts, q: Parts)
    requires Int(p.digits) && p.rest == [] && q == p.(rest := [0x5D])
    ensures Read(p) == BROKEN <==> Read(q) == BROKEN
    ensures p.frac == [] && p.exp == [] && Read(p) != BROKEN ==>
              Read(q) == Scanned(G.Integer(Number(p)), [0x5D])
    ensures p.frac != [] || p.exp != [] ==> Read(q) == Scanned(G.Real(TextOf(p)), [0x5D]) && Read(p) != BROKEN
  {
    hide Int, Value;
    assert Sign(p) + p.digits + p.frac + p.exp == TextOf(p);
  }

  lemma ArrayLoads(all: Text, token: G.Token, reject: bool, disableEofCheck: bool)
    requires I.Deliverable(all) == all && I.EndOf(all) == AtEof
    requires Tokenize(all, AtEof) ==
              if token.Invalid? then [G.LBracket, G.Invalid] else [G.LBracket, token, G.RBracket]
    requires token.Invalid? || token.Integer? || token.Real?
    ensures L.Loads(all, reject, disableEofCheck) ==
              match token
              case Integer(n) => Some(J.Array([J.Integer(n)]))
              case Real(x) => Some(J.Array([J.Real(x)]))
              case _ => None
  {
    hide Tokenize, G.ParseValue;
    if token.Invalid? {
      NoItem(reject);
    } else {
      OneItem(token, reject);
    }
  }

  lemma OneItem(token: G.Token, reject: bool)
    requires G.IsScalar(token)
    ensures G.ParseValue([G.LBracket, token, G.RBracket], reject) == G.Done(J.Array([G.ScalarDoc(token)]), [])
  {
    var toks := [G.LBracket, token, G.RBracket];
    assert toks[1..] == [token, G.RBracket];
    assert toks[1..][1..] == [G.RBracket];
    assert toks[1..][1..][1..] == [];
    assert G.ParseValue([token, G.RBracket], reject) == G.Done(G.ScalarDoc(token), [G.RBracket]);
    assert G.ParseItems(toks[1..], reject) == G.Done([G.ScalarDoc(token)], []);
  }

  lemma NoItem(reject: bool)
    ensures G.ParseValue([G.LBracket, G.Invalid], reject) == G.Fail
  {
    var toks := [G.LBracket, G.Invalid];
    assert toks[1..] == [G.Invalid];
    assert G.ParseValue([G.Invalid], reject) == G.Fail;
    assert G.ParseItems(toks[1..], reject) == G.Fail;
  }
}
