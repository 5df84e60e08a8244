/** Scanning undoes printing: strings, integers and words. */
module StringTrip {
  import opened Bytes
  import opened Tokens
  import P = Printing
  import G = Grammar
  import Utf8

  // ---------------------------------------------------------------- one character or escape at a time

  predicate Plain(b: Text) {
    forall i | 0 <= i < |b| :: b[i] > 0x1F && b[i] != '"' as int && b[i] != '\\' as int
  }

  /** Scanning `front` yields `t`, whatever characters and escapes follow. */
  ghost predicate Decodes(front: Text, t: Text) {
    forall raw: Text | Body(raw) :: Body(front + raw) && DecodeBody(front + raw) == Prepend(t, DecodeBody(raw))
  }

  lemma PrependTwice(a: Text, b: Text, d: Decoded)
    ensures Prepend(a, Prepend(b, d)) == Prepend(a + b, d)
  {
    if d.Text? {
      assert a + (b + d.t) == a + b + d.t;
    }
  }

  lemma DecodesBoth(a: Text, s: Text, b: Text, t: Text)
    requires Decodes(a, s) && Decodes(b, t)
    ensures Decodes(a + b, s + t)
  {
    hide Body, DecodeBody;
    forall raw: Text | Body(raw) ensures Body(a + b + raw) &&
        DecodeBody(a + b + raw) == Prepend(s + t, DecodeBody(raw)) {
      assert a + b + raw == a + (b + raw);
      PrependTwice(s, t, DecodeBody(raw));
    }
  }

  lemma PlainByte(c: byte)
    requires Plain([c])
    ensures Decodes([c], [c])
  {
    forall raw: Text | Body(raw) ensures Body([c] + raw) && DecodeBody([c] + raw) == Prepend([c], DecodeBody(raw)) {
      assert ([c] + raw)[1..] == raw;
      assert c == [c][0];
    }
  }

  lemma EmptyDecodes()
    ensures Decodes([], [])
  {
    forall raw: Text | Body(raw) ensures Body([] + raw) && DecodeBody([] + raw) == Prepend([], DecodeBody(raw)) {
      assert [] + raw == raw;
    }
  }

  lemma {:induction false} PlainDecodes(b: Text)
    requires Plain(b)
    ensures Decodes(b, b)
  {
    hide Decodes;
    if b == [] {
      EmptyDecodes();
    } else {
      PlainByte(b[0]);
      PlainDecodes(b[1..]);
      DecodesBoth([b[0]], [b[0]], b[1..], b[1..]);
      assert [b[0]] + b[1..] == b;
    }
  }

  lemma SimpleStep(e: byte, raw: Text)
    requires SimpleEscape(e).Some? && Body(raw)
    ensures Body(['\\' as int, e] + raw)
    ensures DecodeBody(['\\' as int, e] + raw) == Prepend([SimpleEscape(e).value], DecodeBody(raw))
  {
    assert (['\\' as int, e] + raw)[2..] == raw;
  }

  lemma SimpleDecodes(e: byte)
    requires SimpleEscape(e).Some?
    ensures Decodes(['\\' as int, e], [SimpleEscape(e).value])
  {
    var front: Text := ['\\' as int, e];
    forall raw: Text | Body(raw)
      ensures Body(front + raw) && DecodeBody(front + raw) == Prepend([SimpleEscape(e).value], DecodeBody(raw))
    {
      SimpleStep(e, raw);
    }
  }

  lemma HexDigitValue(n: nat)
    requires n < 16
    ensures var c := P.HexDigit(n); (IsDigit(c) || IsAlpha(c)) && AlnumValue(c) == n
  {
  }

  lemma Hex4Value(n: nat)
    requires n < 0x10000
    ensures AllAlnum(P.Hex4(n)) && EscapeValue(P.Hex4(n), 4) == n
  {
    hide P.HexDigit, AlnumValue, EscapeValue, IsDigit, IsAlpha;
    var h := P.Hex4(n);
    HexDigitValue(n / 0x1000);
    HexDigitValue(n / 0x100 % 0x10);
    HexDigitValue(n / 0x10 % 0x10);
    HexDigitValue(n % 0x10);
    AtMost4(h);
    HexDigits(n);
  }

  lemma HexDigits(n: nat)
    requires n < 0x10000
    ensures n == n / 0x1000 * 0x1000 + n / 0x100 % 0x10 * 0x100 + n / 0x10 % 0x10 * 0x10 + n % 0x10
  {
    assert n / 0x10 == n / 0x100 * 0x10 + n / 0x10 % 0x10;
    assert n / 0x100 == n / 0x1000 * 0x10 + n / 0x100 % 0x10;
  }

  lemma EscapeStarts(n: nat, raw: Text)
    requires n < 0x10000 && Body(raw)
    ensures var s := P.UnicodeEscape(n) + raw; StartsEscape(s) && s[2..6] == P.Hex4(n) && s[6..] == raw && Body(s)
  {
    hide P.Hex4;
    var s := P.UnicodeEscape(n) + raw;
    assert UnitSize(s) == 6;
  }

  lemma UnicodeDecodes(cp: int)
    requires Utf8.Scalar(cp) && 0 < cp < 0x10000
    ensures Decodes(P.UnicodeEscape(cp), Utf8.Encoded(cp))
  {
    hide P.Hex4, Utf8.Encoded, P.UnicodeEscape;
    forall raw: Text | Body(raw)
      ensures Body(P.UnicodeEscape(cp) + raw)
      ensures DecodeBody(P.UnicodeEscape(cp) + raw) == Prepend(Utf8.Encoded(cp), DecodeBody(raw))
    {
      EscapeStarts(cp, raw);
      Hex4Value(cp);
    }
  }

  lemma PairDecodes(cp: int)
    requires 0x10000 <= cp <= 0x10FFFF
    ensures Decodes(P.UnicodeEscape(P.HighSurrogate(cp)) + P.UnicodeEscape(P.LowSurrogate(cp)), Utf8.Encoded(cp))
  {
    hide P.Hex4, Utf8.Encoded, P.UnicodeEscape;
    var high, low := P.HighSurrogate(cp), P.LowSurrogate(cp);
    var front := P.UnicodeEscape(high) + P.UnicodeEscape(low);
    forall raw: Text | Body(raw)
      ensures Body(front + raw) && DecodeBody(front + raw) == Prepend(Utf8.Encoded(cp), DecodeBody(raw))
    {
      var tail := P.UnicodeEscape(low) + raw;
      EscapeStarts(low, raw);
      EscapeStarts(high, tail);
      assert front + raw == P.UnicodeEscape(high) + tail;
      Hex4Value(high);
      Hex4Value(low);
      assert (front + raw)[12..] == tail[6..];
      assert Joined(high, low) == cp;
      assert UnicodeUnit(front + raw) == Code(cp, 12);
    }
  }

  lemma EncodedIsPlain(cp: int)
    requires Utf8.Scalar(cp) && !P.MustEscape(cp, false)
    ensures Plain(Utf8.Encoded(cp))
  {
  }

  /** Each code point is read back from what `dump_string` writes for it. */
  lemma CodePointDecodes(cp: int, ascii: bool)
    requires Utf8.Scalar(cp) && cp != 0
    ensures Decodes(P.CodePointText(cp, ascii), Utf8.Encoded(cp))
  {
    hide P.UnicodeEscape, Decodes;
    if !P.MustEscape(cp, ascii) {
      EncodedIsPlain(cp);
      PlainDecodes(Utf8.Encoded(cp));
    } else if cp == '\\' as int {
      SimpleDecodes('\\' as int);
    } else if cp == '"' as int {
      SimpleDecodes('"' as int);
    } else if cp == 0x08 {
      SimpleDecodes('b' as int);
    } else if cp == 0x0C {
      SimpleDecodes('f' as int);
    } else if cp == 0x0A {
      SimpleDecodes('n' as int);
    } else if cp == 0x0D {
      SimpleDecodes('r' as int);
    } else if cp == 0x09 {
      SimpleDecodes('t' as int);
    } else if cp < 0x10000 {
      UnicodeDecodes(cp);
    } else {
      PairDecodes(cp);
    }
  }

  lemma {:induction false} BodyTextDecodes(cps: seq<int>, ascii: bool)
    requires Utf8.AllScalar(cps) && 0 !in cps
    ensures Body(P.BodyText(cps, ascii))
    ensures DecodeBody(P.BodyText(cps, ascii)) == Decoded.Text(Utf8.EncodeAll(cps))
  {
    hide P.CodePointText, Utf8.Encoded;
    if cps != [] {
      CodePointDecodes(cps[0], ascii);
      BodyTextDecodes(cps[1..], ascii);
      assert Body(P.BodyText(cps[1..], ascii));
    }
  }

  lemma {:induction false} QuoteEnds(raw: Text, rest: Text)
    requires Body(raw)
    ensures LiteralEnd(raw + (['"' as int] + rest)) == Some(|raw|)
  {
    var s := raw + (['"' as int] + rest);
    if raw != [] {
      var n := UnitSize(raw);
      assert UnitSize(s) == n;
      assert s[n..] == raw[n..] + (['"' as int] + rest);
      QuoteEnds(raw[n..], rest);
    }
  }

  lemma UnitIsNotZero(s: Text)
    requires Utf8.UnitLength(s) > 0 && 0 !in s
    ensures Utf8.UnitValue(s) != 0
  {
    Utf8.UnitIsEncoded(s);
    assert s[0] == Utf8.Encoded(Utf8.UnitValue(s))[0];
  }

  lemma {:induction false} NoZeroDecoded(s: Text)
    requires Utf8.Valid(s) && 0 !in s
    ensures 0 !in Utf8.Decode(s)
  {
    if s != [] {
      UnitIsNotZero(s);
      NoZeroDecoded(s[Utf8.UnitLength(s)..]);
    }
  }

  /** In plain and in ASCII-only mode, scanning what `dump_string` prints returns the original bytes. */
  lemma StringRoundTrip(s: Text, ascii: bool, rest: Text)
    requires P.PrintableText(s)
    ensures ScanAt(P.StringText(s, ascii) + rest) == Scanned(G.String(s), rest)
  {
    hide P.BodyText, LiteralEnd, Utf8.Decode, Utf8.Valid, Body, DecodeBody, ScanAt;
    Utf8.EncodeDecode(s);
    NoZeroDecoded(s);
    var cps := Utf8.Decode(s);
    BodyTextDecodes(cps, ascii);
    QuotedScans(P.BodyText(cps, ascii), s, rest);
  }

  /** The body of a literal between quotes. */
  lemma QuotedScans(raw: Text, s: Text, rest: Text)
    requires Body(raw) && DecodeBody(raw) == Decoded.Text(s)
    ensures ScanAt(['"' as int] + raw + ['"' as int] + rest) == Scanned(G.String(s), rest)
  {
    hide LiteralEnd, Body, DecodeBody;
    QuoteEnds(raw, rest);
    var tail := raw + (['"' as int] + rest);
    assert (['"' as int] + raw + ['"' as int] + rest)[1..] == tail;
    assert tail[..|raw|] == raw;
    assert tail[|raw| + 1..] == rest;
  }

  // ---------------------------------------------------------------- the decoding buffer

  /** Decoding never writes more bytes than it has read. */
  lemma {:induction false} DecodedIsShorter(raw: Text)
    requires Body(raw) && DecodeBody(raw).Text?
    ensures |DecodeBody(raw).t| <= |raw|
  {
    if raw != [] {
      if raw[0] != '\\' as int {
        DecodedIsShorter(raw[1..]);
      } else if raw[1] != 'u' as int {
        DecodedIsShorter(raw[2..]);
      } else {
        BodyDrop(raw);
        var u := UnicodeUnit(raw);
        assert u.size == 12 ==> StartsEscape(raw[6..]);
        DecodedIsShorter(raw[u.size..]);
      }
    }
  }

  // ---------------------------------------------------------------- integers

  lemma {:induction false} DigitsAreDigits(n: nat)
    ensures AllDigits(P.Digits(n)) && DigitsValue(P.Digits(n)) == n
    ensures P.Digits(n)[0] == '0' as int <==> n == 0
    ensures n == 0 ==> |P.Digits(n)| == 1
  {
    var t := P.Digits(n);
    if n < 10 {
      assert t[..0] == [];
      assert DigitsValue(t[..0]) == 0;
    } else {
      DigitsAreDigits(n / 10);
      assert t[..|t| - 1] == P.Digits(n / 10);
    }
  }

  lemma {:induction false} RunIs(t: Text, rest: Text)
    requires AllDigits(t) && (rest == [] || !IsDigit(rest[0]))
    ensures DigitRun(t + rest) == |t|
  {
    if t == [] {
      assert t + rest == rest;
    } else {
      assert (t + rest)[1..] == t[1..] + rest;
      RunIs(t[1..], rest);
    }
  }

  /** What may follow a number or a word without becoming part of it. */
  predicate Delimits(rest: Text) {
    rest == [] || !(IsDigit(rest[0]) || IsAlpha(rest[0]) || rest[0] == '.' as int)
  }

  lemma IntegerPartOfDigits(n: nat, rest: Text)
    requires Delimits(rest)
    ensures IntegerPart(P.Digits(n) + rest) == |P.Digits(n)|
  {
    hide P.Digits, DigitsValue;
    DigitsAreDigits(n);
    RunIs(P.Digits(n), rest);
  }

  lemma IntRoundTrip(n: int, rest: Text)
    requires FitsInteger(n) && Delimits(rest)
    ensures ScanAt(P.IntText(n) + rest) == Scanned(G.Integer(n), rest)
  {
    hide P.Digits, DigitsValue, IntegerPart;
    var magnitude := if n < 0 then -n else n;
    var t := P.Digits(magnitude);
    var s := P.IntText(n) + rest;
    var sign := if n < 0 then 1 else 0;
    DigitsAreDigits(magnitude);
    IntegerPartOfDigits(magnitude, rest);
    assert IsDigit(t[0]);
    assert s[sign..] == t + rest;
    assert s[sign..][..|t|] == t;
    assert s[sign + |t|..] == rest;
  }

  lemma {:induction false} AlphaRunIs(t: Text, rest: Text)
    requires (forall i | 0 <= i < |t| :: IsAlpha(t[i])) && Delimits(rest)
    ensures AlphaRun(t + rest) == |t|
  {
    if t == [] {
      assert t + rest == rest;
    } else {
      assert (t + rest)[1..] == t[1..] + rest;
      AlphaRunIs(t[1..], rest);
    }
  }

  lemma WordRoundTrip(t: Text, rest: Text)
    requires (t == TRUE || t == FALSE || t == NULL) && Delimits(rest)
    ensures ScanAt(t + rest) == Scanned(Word(t), rest)
  {
    AlphaRunIs(t, rest);
    assert (t + rest)[..|t|] == t && (t + rest)[|t|..] == rest;
  }
}
