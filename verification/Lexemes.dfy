/**
 The lexical rules of sections 2 and 2.5 of RFC 4627, letter by letter: which bytes are blanks, marks, words
 and escapes, what each escape stands for, and that the scanner follows them and nothing else.
 */
module Lexemes {
  import opened Bytes
  import opened Tokens
  import G = Grammar
  import P = Printing
  import S = StringTrip
  import Utf8

  // ---------------------------------------------------------------- hexadecimal digits

  /** The byte `c` is the digit `d`; behind 9 come the letters, in either case. */
  ghost predicate Spells(c: byte, d: nat) {
    (d < 10 && c == 0x30 + d) || (10 <= d < 36 && (c == 0x61 + (d - 10) || c == 0x41 + (d - 10)))
  }

  /** The four bytes of `h` are the digits of `n` to the base 16, each letter in either case. */
  ghost predicate SpelledInHex(h: Text, n: nat) {
    && n < 0x10000 && |h| == 4
    && Spells(h[0], n / 0x1000) && Spells(h[1], n / 0x100 % 0x10) && Spells(h[2], n / 0x10 % 0x10)
    && Spells(h[3], n % 0x10)
  }

  ghost predicate SomeDigit(c: byte) {
    exists d: nat :: Spells(c, d)
  }

  ghost predicate SomeDigits(h: Text) {
    forall i :: 0 <= i < |h| ==> SomeDigit(h[i])
  }

  lemma SpelledDigit(c: byte, d: nat)
    requires Spells(c, d)
    ensures (IsDigit(c) || IsAlpha(c)) && AlnumValue(c) == d
  {
  }

  /** Four letters or digits are worth what their places say; letters behind `f` are taken for digits, too. */
  lemma EscapeIsSum(h: Text, d: seq<nat>)
    requires |h| == |d| == 4 && forall i :: 0 <= i < 4 ==> Spells(h[i], d[i])
    ensures AllAlnum(h) && EscapeValue(h, 4) == d[0] * 0x1000 + d[1] * 0x100 + d[2] * 0x10 + d[3]
  {
    hide IsDigit, IsAlpha, AlnumValue, EscapeValue, Spells;
    assert Spells(h[0], d[0]) && Spells(h[1], d[1]) && Spells(h[2], d[2]) && Spells(h[3], d[3]);
    SpelledDigit(h[0], d[0]);
    SpelledDigit(h[1], d[1]);
    SpelledDigit(h[2], d[2]);
    SpelledDigit(h[3], d[3]);
    AtMost4(h);
  }

  /** The four hexadecimal digits of a number, whatever the case of each letter, are read as that number. */
  lemma HexIsRead(h: Text, n: nat)
    requires SpelledInHex(h, n)
    ensures AllAlnum(h) && EscapeValue(h, 4) == n
  {
    hide Spells, EscapeValue;
    EscapeIsSum(h, [n / 0x1000, n / 0x100 % 0x10, n / 0x10 % 0x10, n % 0x10]);
    S.HexDigits(n);
  }

  /** What fails an assertion is exactly what contains a byte that is neither a digit nor a letter. */
  lemma AlnumExactly(h: Text)
    ensures AllAlnum(h) <==> SomeDigits(h)
  {
    forall i | 0 <= i < |h| ensures (IsDigit(h[i]) || IsAlpha(h[i])) <==> SomeDigit(h[i]) {
      if IsDigit(h[i]) {
        assert Spells(h[i], h[i] - 0x30);
      } else if IsLower(h[i]) {
        assert Spells(h[i], h[i] - 0x61 + 10);
      } else if IsUpper(h[i]) {
        assert Spells(h[i], h[i] - 0x41 + 10);
      }
    }
  }

  function Escape(h: Text): Text { [0x5C, 0x75] + h }

  lemma EscapeParts(h: Text, rest: Text)
    requires |h| == 4
    ensures var s := Escape(h) + rest; StartsEscape(s) && s[2..6] == h && s[6..] == rest
  {
  }

  /**
   One `\u` escape: the number it spells, unless that is 0, a low surrogate, or a high one with no escape of a low
   one behind it.
   */
  lemma EscapeExactly(h: Text, n: nat, rest: Text)
    requires SpelledInHex(h, n)
    ensures var u := UnicodeUnit(Escape(h) + rest);
            && (0 < n < 0xD800 || 0xE000 <= n ==> u == Code(n, 6))
            && (n == 0 || 0xDC00 <= n < 0xE000 ==> u == Unpaired)
            && (0xD800 <= n < 0xDC00 && !StartsEscape(rest) ==> u == Unpaired)
  {
    hide AllAlnum, EscapeValue, SpelledInHex;
    HexFits(h, n);
    EscapeParts(h, rest);
    HexIsRead(h, n);
  }

  lemma HexFits(h: Text, n: nat)
    requires SpelledInHex(h, n)
    ensures n < 0x10000 && |h| == 4
  {
  }

  /**
   Two `\u` escapes, the first of a high surrogate: with a low one they are the code point whose twenty low bits
   the two carry (section 2.2 of RFC 2781), with any other number they are refused.
   */
  lemma PairExactly(h: Text, high: nat, l: Text, low: nat, rest: Text)
    requires SpelledInHex(h, high) && SpelledInHex(l, low) && 0xD800 <= high < 0xDC00
    ensures UnicodeUnit(Escape(h) + (Escape(l) + rest)) ==
              if 0xDC00 <= low < 0xE000 then Code(0x10000 + high % 0x400 * 0x400 + low % 0x400, 12) else Unpaired
  {
    hide AllAlnum, EscapeValue, SpelledInHex;
    HexFits(h, high);
    HexFits(l, low);
    EscapeParts(l, rest);
    EscapeParts(h, Escape(l) + rest);
    HexIsRead(h, high);
    HexIsRead(l, low);
    assert high % 0x400 == high - 0xD800;
    assert 0xDC00 <= low < 0xE000 ==> low % 0x400 == low - 0xDC00;
  }

  // ---------------------------------------------------------------- string literals

  /** Section 2.5: the letter behind a backslash, and what the two stand for. */
  const ESCAPES: map<int, byte> := map[0x22 := 0x22, 0x5C := 0x5C, 0x2F := 0x2F, 0x62 := 0x08, 0x66 := 0x0C,
                                       0x6E := 0x0A, 0x72 := 0x0D, 0x74 := 0x09]

  /** A literal that starts with no unit, and does not end either, is refused. */
  lemma NotStarted(s: Text)
    requires UnitSize(s) == 0 && s != [] && s[0] != 0x22
    ensures ScanAt([0x22] + s) == BROKEN
  {
    assert ([0x22] + s)[1..] == s;
  }

  lemma OneUnitScans(raw: Text, t: Text, rest: Text)
    requires Body(raw) && DecodeBody(raw) == Decoded.Text(t)
    ensures ScanAt([0x22] + raw + [0x22] + rest) == Scanned(G.String(t), rest)
  {
    hide Body, DecodeBody, ScanAt;
    S.QuotedScans(raw, t, rest);
  }

  lemma SimpleIsTable(c: byte)
    ensures SimpleEscape(c) == if c in ESCAPES then Some(ESCAPES[c]) else None
  {
  }

  /** A backslash and a byte other than `u`: the table decides. */
  lemma EscapesExactly(c: byte, rest: Text)
    requires c != 0x75
    ensures ScanAt([0x22, 0x5C, c, 0x22] + rest)
            == if c in ESCAPES then Scanned(G.String([ESCAPES[c]]), rest) else BROKEN
  {
    hide SimpleEscape, ScanAt;
    SimpleIsTable(c);
    var all: Text := [0x22, 0x5C, c, 0x22] + rest;
    if c in ESCAPES {
      var raw: Text := [0x5C, c];
      assert raw + [] == raw;
      S.SimpleStep(c, []);
      assert [ESCAPES[c]] + [] == [ESCAPES[c]];
      OneUnitScans(raw, [ESCAPES[c]], rest);
      assert all == [0x22] + raw + [0x22] + rest;
    } else {
      var s: Text := [0x5C, c, 0x22] + rest;
      NotStarted(s);
      assert all == [0x22] + s;
    }
  }

  lemma PlainUnit(c: byte)
    requires c >= 0x20 && c != 0x22 && c != 0x5C
    ensures Body([c]) && DecodeBody([c]) == Decoded.Text([c])
  {
    hide Utf8.Encoded;
    var one: Text := [c];
    assert one[1..] == [];
  }

  /** A byte that stands for itself: every one but control characters, the quote and the backslash. */
  lemma UnescapedExactly(c: byte, rest: Text)
    requires c != 0x22 && c != 0x5C
    ensures ScanAt([0x22, c, 0x22] + rest) == if c >= 0x20 then Scanned(G.String([c]), rest) else BROKEN
  {
    hide ScanAt;
    var all: Text := [0x22, c, 0x22] + rest;
    if c >= 0x20 {
      var one: Text := [c];
      PlainUnit(c);
      OneUnitScans(one, one, rest);
      assert all == [0x22] + [c] + [0x22] + rest;
    } else {
      NotStarted([c, 0x22] + rest);
      assert all == [0x22] + ([c, 0x22] + rest);
    }
  }

  /** Four hexadecimal digits behind `\u`: the literal is the UTF-8 form of the code point that they spell. */
  lemma HexEscapeScans(h: Text, n: nat, rest: Text)
    requires SpelledInHex(h, n) && Utf8.Scalar(n) && n != 0
    ensures ScanAt([0x22] + Escape(h) + [0x22] + rest) == Scanned(G.String(Utf8.Encoded(n)), rest)
  {
    hide ScanAt, SpelledInHex, UnicodeUnit, Utf8.Encoded;
    HexFits(h, n);
    EscapeParts(h, []);
    EscapeExactly(h, n, []);
    var raw := Escape(h);
    assert raw + [] == raw && raw[6..] == [];
    assert UnitSize(raw) == 6;
    assert Utf8.Encoded(n) + [] == Utf8.Encoded(n);
    OneUnitScans(raw, Utf8.Encoded(n), rest);
  }

  /** Without a closing quote there is no literal. */
  lemma {:induction false} NeverClosed(s: Text)
    requires 0x22 !in s
    ensures LiteralEnd(s).None?
    decreases |s|
  {
    if UnitSize(s) > 0 {
      NeverClosed(s[UnitSize(s)..]);
    }
  }

  /** `raw` between quotes is a literal that comes to `t`. */
  ghost predicate Literal(raw: Text, t: Text) {
    ScanAt([0x22] + raw + [0x22]) == Scanned(G.String(t), [])
  }

  lemma LiteralIsBody(raw: Text, t: Text)
    ensures Literal(raw, t) <==> Body(raw) && DecodeBody(raw) == Decoded.Text(t)
  {
    hide Body, DecodeBody, LiteralEnd;
    var all: Text := [0x22] + raw + [0x22];
    assert all[1..] == raw + [0x22];
    if Body(raw) && DecodeBody(raw) == Decoded.Text(t) {
      OneUnitScans(raw, t, []);
      assert all + [] == all;
    }
    if Literal(raw, t) {
      var n := LiteralEnd(raw + [0x22]);
      assert |(raw + [0x22])[n.value + 1..]| == 0;
      assert (raw + [0x22])[..n.value] == raw;
    }
  }

  /** What units come to does not depend on what stands behind them. */
  lemma {:induction false} BodyDecodes(raw: Text)
    requires Body(raw) && DecodeBody(raw).Text?
    ensures S.Decodes(raw, DecodeBody(raw).t)
    decreases |raw|
  {
    hide S.Decodes, UnicodeUnit;
    if raw == [] {
      S.EmptyDecodes();
    } else {
      var n, t := FirstUnit(raw);
      BodyDecodes(raw[n..]);
      S.DecodesBoth(raw[..n], t, raw[n..], DecodeBody(raw[n..]).t);
      assert raw[..n] + raw[n..] == raw;
    }
  }

  lemma FirstUnit(raw: Text) returns (n: nat, t: Text)
    requires Body(raw) && DecodeBody(raw).Text? && raw != []
    ensures 0 < n <= |raw| && Body(raw[n..]) && DecodeBody(raw[n..]).Text?
    ensures DecodeBody(raw).t == t + DecodeBody(raw[n..]).t && S.Decodes(raw[..n], t)
  {
    hide S.Decodes, UnicodeUnit;
    if raw[0] != 0x5C {
      n, t := 1, [raw[0]];
      assert raw[..1] == [raw[0]];
      S.PlainByte(raw[0]);
    } else if raw[1] != 0x75 {
      n, t := 2, [SimpleEscape(raw[1]).value];
      assert raw[..2] == [0x5C, raw[1]];
      S.SimpleDecodes(raw[1]);
    } else {
      var u := UnicodeUnit(raw);
      BodyDrop(raw);
      n, t := u.size, Utf8.Encoded(u.cp);
      UnicodeFront(raw);
    }
  }

  lemma UnicodeFront(raw: Text)
    requires Body(raw) && StartsEscape(raw) && UnicodeUnit(raw).Code?
    ensures var u := UnicodeUnit(raw); S.Decodes(raw[..u.size], Utf8.Encoded(u.cp)) && Body(raw[u.size..])
  {
    hide Utf8.Encoded;
    BodyDrop(raw);
    var u := UnicodeUnit(raw);
    var front := raw[..u.size];
    forall more: Text | Body(more)
      ensures Body(front + more) && DecodeBody(front + more) == Prepend(Utf8.Encoded(u.cp), DecodeBody(more))
    {
      SameUnit(raw, more);
    }
  }

  lemma SameUnit(raw: Text, more: Text)
    requires Body(raw) && StartsEscape(raw) && UnicodeUnit(raw).Code? && Body(more)
    ensures var u := UnicodeUnit(raw); var s := raw[..u.size] + more;
            StartsEscape(s) && UnicodeUnit(s) == u && s[u.size..] == more && Body(s)
  {
    hide EscapeValue, AllAlnum;
    var u := UnicodeUnit(raw);
    var s := raw[..u.size] + more;
    assert s[2..6] == raw[2..6] && s[u.size..] == more;
    if u.size == 12 {
      assert s[6..][..6] == raw[6..][..6];
      assert s[6..][2..6] == raw[6..][2..6];
      assert s[6..][6..] == more;
    }
  }

  /** Literals can be put together. */
  lemma LiteralsJoin(a: Text, s: Text, b: Text, t: Text)
    requires Literal(a, s) && Literal(b, t)
    ensures Literal(a + b, s + t)
  {
    hide Literal, Body, DecodeBody;
    LiteralIsBody(a, s);
    LiteralIsBody(b, t);
    LiteralIsBody(a + b, s + t);
    BodyDecodes(a);
  }

  // ---------------------------------------------------------------- blanks, marks and words

  /** The four blanks of section 2 are skipped, and nothing else is. */
  lemma BlanksExactly(c: byte, s: Text, end: End)
    ensures c == 0x20 || c == 0x09 || c == 0x0A || c == 0x0D ==> Scan([c] + s, end) == Scan(s, end)
    ensures Scan([c], AtEof).token.Eof? <==> c == 0x20 || c == 0x09 || c == 0x0A || c == 0x0D
  {
    hide ScanAt;
    var one: Text := [c];
    assert ([c] + s)[1..] == s && one[1..] == [];
    if !IsBlank(c) {
      NotEof([c]);
    }
  }

  lemma NotEof(s: Text)
    requires s != []
    ensures !ScanAt(s).token.Eof?
  {
    hide LiteralEnd, DecodeBody, IntegerPart, Fraction, Exponent, DigitsValue, AlphaRun;
  }

  /** The six marks of section 2 are single bytes. */
  lemma MarksExactly(s: Text)
    requires s != []
    ensures var t := ScanAt(s).token;
            && (t.LBracket? <==> s[0] == 0x5B) && (t.LBrace? <==> s[0] == 0x7B) && (t.RBracket? <==> s[0] == 0x5D)
            && (t.RBrace? <==> s[0] == 0x7D) && (t.Colon? <==> s[0] == 0x3A) && (t.Comma? <==> s[0] == 0x2C)
            && (t.LBracket? || t.LBrace? || t.RBracket? || t.RBrace? || t.Colon? || t.Comma? ==>
                  ScanAt(s).rest == s[1..])
  {
    hide LiteralEnd, DecodeBody, IntegerPart, Fraction, Exponent, DigitsValue, AlphaRun;
  }

  ghost predicate Letter(c: byte) { 0x41 <= c <= 0x5A || 0x61 <= c <= 0x7A }

  /** `s` starts with the word `w`, and no letter follows. */
  ghost predicate StartsWord(s: Text, w: Text) {
    w <= s && (|s| > |w| ==> !Letter(s[|w|]))
  }

  lemma {:induction false} RunOfLetters(w: Text, rest: Text)
    requires (forall i :: 0 <= i < |w| ==> Letter(w[i])) && (rest != [] ==> !Letter(rest[0]))
    ensures AlphaRun(w + rest) == |w|
  {
    if w == [] {
      assert w + rest == rest;
    } else {
      assert (w + rest)[1..] == w[1..] + rest;
      RunOfLetters(w[1..], rest);
    }
  }

  lemma {:induction false} RunIsWord(s: Text)
    ensures StartsWord(s, s[..AlphaRun(s)])
    decreases |s|
  {
    if s != [] && IsAlpha(s[0]) {
      RunIsWord(s[1..]);
      assert s[..AlphaRun(s)] == [s[0]] + s[1..][..AlphaRun(s[1..])];
    }
  }

  lemma WordIsRun(s: Text, w: Text)
    requires forall i :: 0 <= i < |w| ==> Letter(w[i])
    ensures StartsWord(s, w) ==> AlphaRun(s) == |w| && s[..AlphaRun(s)] == w
    ensures s[..AlphaRun(s)] == w ==> StartsWord(s, w)
  {
    RunIsWord(s);
    if StartsWord(s, w) {
      RunOfLetters(w, s[|w|..]);
      assert s == w + s[|w|..];
    }
  }

  /** A letter starts one of the three names of section 2.1, or an invalid token. */
  lemma WordsExactly(s: Text)
    requires s != [] && Letter(s[0])
    ensures ScanAt(s) ==
              if StartsWord(s, [0x74, 0x72, 0x75, 0x65]) then Scanned(G.True, s[4..])
              else if StartsWord(s, [0x66, 0x61, 0x6C, 0x73, 0x65]) then Scanned(G.False, s[5..])
              else if StartsWord(s, [0x6E, 0x75, 0x6C, 0x6C]) then Scanned(G.Null, s[4..])
              else Scanned(G.Invalid, s[AlphaRun(s)..])
  {
    hide StartsWord, AlphaRun;
    WordIsRun(s, TRUE);
    WordIsRun(s, FALSE);
    WordIsRun(s, NULL);
  }

  // ---------------------------------------------------------------- what is printed

  /** The digits are written with small letters. */
  ghost predicate Small(h: Text) {
    forall i :: 0 <= i < |h| ==> !(0x41 <= h[i] <= 0x5A)
  }

  lemma DigitPrinted(d: nat)
    requires d < 16
    ensures var c := P.HexDigit(d); Spells(c, d) && !(0x41 <= c <= 0x5A)
  {
  }

  lemma EscapePrinted(n: nat)
    requires n < 0x10000
    ensures P.UnicodeEscape(n) == Escape(P.Hex4(n)) && SpelledInHex(P.Hex4(n), n) && Small(P.Hex4(n))
  {
    hide P.HexDigit, Spells;
    DigitPrinted(n / 0x1000);
    DigitPrinted(n / 0x100 % 0x10);
    DigitPrinted(n / 0x10 % 0x10);
    DigitPrinted(n % 0x10);
  }

  /** There is a two-character escape for the code point; the slash is written as it is. */
  ghost predicate HasShort(cp: int) {
    cp == 0x22 || cp == 0x5C || cp == 0x08 || cp == 0x0C || cp == 0x0A || cp == 0x0D || cp == 0x09
  }

  /**
   What is written for a code point: its two-character escape when it has one, else its number in small hexadecimal
   digits when it is a control character, or beyond ASCII and ASCII is asked for, else its UTF-8 form.
   */
  lemma CodePointPrinted(cp: int, ascii: bool)
    requires Utf8.Scalar(cp)
    ensures var t := P.CodePointText(cp, ascii);
            && (HasShort(cp) ==> |t| == 2 && t[0] == 0x5C && t[1] in ESCAPES && ESCAPES[t[1]] == cp)
            && (!HasShort(cp) && (cp < 0x20 || (ascii && 0x80 <= cp < 0x10000)) ==>
                  |t| == 6 && t[..2] == [0x5C, 0x75] && SpelledInHex(t[2..], cp) && Small(t))
            && (ascii && cp >= 0x10000 ==>
                  |t| == 12 && t[..2] == t[6..8] == [0x5C, 0x75] && Small(t) &&
                  SpelledInHex(t[2..6], 0xD800 + (cp - 0x10000) / 0x400) &&
                  SpelledInHex(t[8..], 0xDC00 + (cp - 0x10000) % 0x400))
            && (!HasShort(cp) && cp >= 0x20 && (!ascii || cp < 0x80) ==> t == Utf8.Encoded(cp))
  {
    hide P.UnicodeEscape, P.Hex4, SpelledInHex, Utf8.Encoded;
    if cp < 0x10000 {
      EscapePrinted(cp);
      EscapeSlices(P.Hex4(cp));
    } else {
      var high, low := P.HighSurrogate(cp), P.LowSurrogate(cp);
      EscapePrinted(high);
      EscapePrinted(low);
      EscapeSlices(P.Hex4(high));
      PairSlices(P.Hex4(high), P.Hex4(low));
    }
  }

  lemma EscapeSlices(h: Text)
    requires |h| == 4
    ensures var t := Escape(h); |t| == 6 && t[..2] == [0x5C, 0x75] && t[2..] == h && (Small(h) ==> Small(t))
  {
  }

  lemma PairSlices(h: Text, l: Text)
    requires |h| == |l| == 4
    ensures var t := Escape(h) + Escape(l);
            && |t| == 12 && t[..2] == t[6..8] == [0x5C, 0x75] && t[2..6] == h && t[8..] == l
            && (Small(h) && Small(l) ==> Small(t))
  {
  }
}
