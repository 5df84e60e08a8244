/** The decoding loop at the end of `lex_scan_string`, into a buffer of fixed size. */
module Unescape {
  import opened Bytes
  import opened Tokens
  import S = StringTrip
  import X = Lexemes
  import Utf8

  /**
   `decode_unicode_escape` on the `u` at index `at`: four hexadecimal digits, in either case, give the number
   that they spell.  It fails on a character that is no letter or digit.
   */
  method DecodeUnicodeEscape(text: Text, at: nat) returns (ok: bool, value: nat)
    requires at + 5 <= |text| && text[at] == 'u' as int
    ensures ok <==> AllAlnum(text[at + 1..at + 5])
    ensures ok ==> value == EscapeValue(text[at + 1..at + 5], 4)
    ensures ok <==> X.SomeDigits(text[at + 1..at + 5])
    ensures var h := text[at + 1..at + 5]; forall n: nat :: X.SpelledInHex(h, n) ==> ok && value == n
  {
    hide X.SpelledInHex, X.SomeDigits;
    value := 0;
    ghost var h := text[at + 1..at + 5];
    var i := 1;
    while i <= 4
      invariant 1 <= i <= 5 && AllAlnum(h[..i - 1])
      invariant value == EscapeValue(h[..i - 1], i - 1)
    {
      var c := text[at + i];
      assert h[..i][..i - 1] == h[..i - 1];
      assert h[i - 1] == c;
      value := value * 0x10;
      EscapeValuePrefix(h, i);
      if IsDigit(c) {
        value := value + (c - '0' as int);
      } else if IsLower(c) {
        value := value + (c - 'a' as int + 10);
      } else if IsUpper(c) {
        value := value + (c - 'A' as int + 10);
      } else {
        EscapeRead(h);
        return false, value;
      }
      i := i + 1;
    }
    assert h[..4] == h;
    EscapeRead(h);
    ok := true;
  }

  lemma EscapeRead(h: Text)
    requires |h| == 4
    ensures AllAlnum(h) <==> X.SomeDigits(h)
    ensures forall n: nat :: X.SpelledInHex(h, n) ==> AllAlnum(h) && EscapeValue(h, 4) == n
  {
    hide X.SpelledInHex, X.SomeDigits, EscapeValue, AllAlnum;
    X.AlnumExactly(h);
    forall n: nat | X.SpelledInHex(h, n) ensures AllAlnum(h) && EscapeValue(h, 4) == n {
      X.HexIsRead(h, n);
    }
  }

  lemma {:induction false} EscapeValueOfPrefix(h: Text, n: nat, k: nat)
    requires k <= n <= |h| && AllAlnum(h[..n]) && AllAlnum(h[..k])
    ensures EscapeValue(h[..n], k) == EscapeValue(h[..k], k)
  {
    if k > 0 {
      assert AllAlnum(h[..k - 1]);
      EscapeValueOfPrefix(h, n, k - 1);
      EscapeValueOfPrefix(h, k, k - 1);
    }
  }

  lemma EscapeValuePrefix(h: Text, i: nat)
    requires 0 < i <= |h| && AllAlnum(h[..i - 1])
    ensures (IsDigit(h[i - 1]) || IsAlpha(h[i - 1])) ==>
              AllAlnum(h[..i]) && EscapeValue(h[..i], i) == EscapeValue(h[..i - 1], i - 1) * 0x10 + AlnumValue(h[i - 1])
  {
    if IsDigit(h[i - 1]) || IsAlpha(h[i - 1]) {
      assert AllAlnum(h[..i]);
      EscapeValueOfPrefix(h, i, i - 1);
    }
  }

  /** The code point of the `\u` escape at `p`, and the index behind it. */
  method ReadUnicode(text: Text, at: nat, ghost raw: Text) returns (u: Unicode, p: nat)
    requires at + |raw| < |text| && text[at..at + |raw|] == raw && text[at + |raw|] == '"' as int
    requires StartsEscape(raw) && Body(raw)
    ensures u == UnicodeUnit(raw)
    ensures u.Code? ==> p == at + u.size
  {
    BodyDrop(raw);
    assert forall i | 0 <= i < |raw| :: raw[i] == text[at + i];
    p := at + 1;
    assert text[p + 1..p + 5] == raw[2..6];
    var ok, value := DecodeUnicodeEscape(text, p);
    if !ok {
      return Broken, p;
    }
    AtMost4(raw[2..6]);
    p := p + 5;
    if 0xD800 <= value <= 0xDBFF {
      ghost var rest := raw[6..];
      if text[p] == '\\' as int && text[p + 1] == 'u' as int {
        assert rest != [];
        assert rest[0] == text[p];
        assert UnitSize(rest) > 0;
        assert rest[1] == text[p + 1];
        p := p + 1;
        assert |rest| >= 6 && rest[2..6] == raw[8..12];
        assert text[p + 1..p + 5] == raw[8..12];
        var ok2, value2 := DecodeUnicodeEscape(text, p);
        if !ok2 {
          return Broken, p;
        }
        p := p + 5;
        if 0xDC00 <= value2 <= 0xDFFF {
          return Code((value - 0xD800) * 0x400 + (value2 - 0xDC00) + 0x10000, 12), p;
        } else {
          return Unpaired, p;
        }
      } else {
        return Unpaired, p;
      }
    } else if 0xDC00 <= value <= 0xDFFF {
      return Unpaired, p;
    } else if value == 0 {
      return Unpaired, p;
    }
    return Code(value, 6), p;
  }

  /** The bytes of a code point are copied to index `t`. */
  method StoreCodePoint(value: array<byte>, t: nat, u: Unicode) returns (end: nat)
    requires u.Code? && Utf8.Scalar(u.cp) && u.size >= 6 && t + u.size <= value.Length
    modifies value
    ensures t <= end <= t + u.size && value[..end] == old(value[..t]) + Utf8.Encoded(u.cp)
  {
    var buffer := new byte[4](_ => 0);
    var rc, length := Utf8.Encode(u.cp, buffer);
    assert rc == 0;
    assert length == |buffer[..length]| == |Utf8.Encoded(u.cp)|;
    EncodedFits(u);
    forall i | 0 <= i < length {
      value[t + i] := buffer[i];
    }
    assert value[..t] == old(value[..t]);
    assert value[..t + length] == old(value[..t]) + buffer[..length];
    end := t + length;
  }

  method StoreByte(value: array<byte>, t: nat, c: byte)
    requires t < value.Length
    modifies value
    ensures value[..t + 1] == old(value[..t]) + [c]
  {
    value[t] := c;
    assert value[..t] == old(value[..t]);
  }

  /** Where the decoding loop stands: `t` bytes are written, `rest` is still to be read from index `p`. */
  ghost predicate Decoding(text: Text, raw: Text, done: Text, p: nat, rest: Text) {
    && p + |rest| == |text| - 1 && |done| < p && text[p..p + |rest|] == rest && text[|text| - 1] == '"' as int
    && Body(raw) && Body(rest) && DecodeBody(raw) == Prepend(done, DecodeBody(rest))
  }

  lemma DecodingStarts(text: Text, raw: Text)
    requires text == ['"' as int] + raw + ['"' as int] && Body(raw)
    ensures Decoding(text, raw, [], 1, raw)
  {
    EmptyFront(DecodeBody(raw));
  }

  lemma DecodingAt(text: Text, raw: Text, done: Text, p: nat, rest: Text)
    requires Decoding(text, raw, done, p, rest)
    ensures text[p] == '"' as int <==> rest == []
    ensures rest != [] ==> text[p] == rest[0]
    ensures rest != [] && rest[0] == '\\' as int ==>
              |rest| > 1 && text[p + 1] == rest[1] && (rest[1] == 'u' as int ==> StartsEscape(rest))
    ensures |done| + |rest| < |text|
    ensures rest == [] ==> DecodeBody(raw) == Decoded.Text(done)
  {
    if rest == [] {
      assert done + [] == done;
    }
  }

  lemma DecodingMoves(text: Text, raw: Text, done: Text, p: nat, rest: Text, n: nat, t: Text)
    requires Decoding(text, raw, done, p, rest) && |t| <= n <= |rest| && Body(rest[n..])
    requires Prepend(done, DecodeBody(rest)) == Prepend(done + t, DecodeBody(rest[n..]))
    ensures Decoding(text, raw, done + t, p + n, rest[n..])
  {
    hide Body, DecodeBody;
    assert text[p + n..p + |rest|] == rest[n..];
  }

  /** An escape in the decoding loop: either it ends the loop with `failed`, or `t` and `p` move on. */
  method DecodeEscape(text: Text, value: array<byte>, t0: nat, p0: nat, ghost raw: Text, ghost rest0: Text)
    returns (failed: Option<Decoded>, t: nat, p: nat, ghost rest: Text)
    requires t0 < p0 < |text| < value.Length && Decoding(text, raw, value[..t0], p0, rest0)
    requires rest0 != [] && rest0[0] == '\\' as int
    modifies value
    ensures failed.Some? ==> failed.value == DecodeBody(raw)
    ensures failed.None? ==> t < p < |text| && |rest| < |rest0| && Decoding(text, raw, value[..t], p, rest)
  {
    hide Decoding, Body, DecodeBody, UnicodeUnit, Utf8.Encoded, Prepend, UnitSize, StartsEscape;
    t, p, rest := t0, p0, rest0;
    ghost var done := value[..t];
    DecodingAt(text, raw, done, p, rest);
    DecodingIs(text, raw, done, p, rest);
    if text[p + 1] == 'u' as int {
      var u, next := ReadUnicode(text, p, rest);
      if u.Unpaired? {
        UnicodeFails(rest, done);
        return Some(Refused), t, p, rest;
      } else if u.Broken? {
        UnicodeFails(rest, done);
        return Some(Abort), t, p, rest;
      }
      StepOver(rest, u, done);
      EncodedFits(u);
      t := StoreCodePoint(value, t, u);
      DecodingMoves(text, raw, done, p, rest, u.size, Utf8.Encoded(u.cp));
      p := next;
      rest := rest[u.size..];
    } else {
      StepSimple(rest, done);
      StoreByte(value, t, SimpleEscape(text[p + 1]).value);
      DecodingMoves(text, raw, done, p, rest, 2, [SimpleEscape(rest[1]).value]);
      t := t + 1;
      p := p + 2;
      rest := rest[2..];
    }
    DecodingIs(text, raw, value[..t], p, rest);
    DecodingAt(text, raw, value[..t], p, rest);
    failed := None;
  }

  /**
   The decoding loop of `lex_scan_string` on `text`, a quoted literal.  The target has one byte more
   than the text; it is never written behind its end, because no unit decodes to more bytes than it has.
   */
  method DecodeLiteral(text: Text, ghost raw: Text) returns (r: Decoded)
    requires text == ['"' as int] + raw + ['"' as int] && Body(raw)
    ensures r == DecodeBody(raw)
  {
    hide Decoding, Body, DecodeBody, Prepend, UnitSize, StartsEscape;
    var value := new byte[|text| + 1](_ => 0);
    var t, p := 0, 1;
    ghost var rest := raw;
    DecodingStarts(text, raw);
    DecodingIs(text, raw, value[..0], p, rest);
    DecodingAt(text, raw, value[..0], p, rest);
    while text[p] != '"' as int
      invariant 0 <= t < p < |text| && Decoding(text, raw, value[..t], p, rest)
      invariant text[p] == '"' as int <==> rest == []
      decreases |rest|
    {
      ghost var done := value[..t];
      DecodingAt(text, raw, done, p, rest);
      DecodingIs(text, raw, done, p, rest);
      if text[p] == '\\' as int {
        var failed;
        failed, t, p, rest := DecodeEscape(text, value, t, p, raw, rest);
        if failed.Some? {
          return failed.value;
        }
      } else {
        StepPlain(rest, done);
        StoreByte(value, t, text[p]);
        DecodingMoves(text, raw, done, p, rest, 1, [rest[0]]);
        t := t + 1;
        p := p + 1;
        rest := rest[1..];
      }
      DecodingIs(text, raw, value[..t], p, rest);
      DecodingAt(text, raw, value[..t], p, rest);
    }
    DecodingAt(text, raw, value[..t], p, rest);
    r := Decoded.Text(value[..t]);
  }

  lemma DecodingIs(text: Text, raw: Text, done: Text, p: nat, rest: Text)
    requires Decoding(text, raw, done, p, rest)
    ensures p + |rest| == |text| - 1 && text[p..p + |rest|] == rest && text[|text| - 1] == '"' as int
    ensures Body(rest) && DecodeBody(raw) == Prepend(done, DecodeBody(rest))
  {
  }

  lemma UnicodeFails(rest: Text, done: Text)
    requires Body(rest) && StartsEscape(rest) && !UnicodeUnit(rest).Code?
    ensures Prepend(done, DecodeBody(rest)) == if UnicodeUnit(rest).Unpaired? then Refused else Abort
  {
  }

  lemma EmptyFront(d: Decoded)
    ensures Prepend([], d) == d
  {
  }

  /** No escape stands for more bytes than it has characters. */
  lemma EncodedFits(u: Unicode)
    requires u.Code? && Utf8.Scalar(u.cp) && u.size >= 6
    ensures |Utf8.Encoded(u.cp)| <= u.size
  {
  }

  lemma StepOver(rest: Text, u: Unicode, front: Text)
    requires Body(rest) && StartsEscape(rest) && u == UnicodeUnit(rest) && u.Code?
    ensures Body(rest[u.size..])
    ensures Prepend(front, DecodeBody(rest)) == Prepend(front + Utf8.Encoded(u.cp), DecodeBody(rest[u.size..]))
  {
    hide Utf8.Encoded, UnicodeUnit;
    BodyDrop(rest);
    if u.size == 12 {
      PairStarts(rest);
    }
    S.PrependTwice(front, Utf8.Encoded(u.cp), DecodeBody(rest[u.size..]));
  }

  lemma PairStarts(rest: Text)
    requires StartsEscape(rest) && UnicodeUnit(rest).Code? && UnicodeUnit(rest).size == 12
    ensures StartsEscape(rest[6..])
  {
  }

  lemma StepSimple(rest: Text, front: Text)
    requires Body(rest) && |rest| >= 2 && rest[0] == '\\' as int && rest[1] != 'u' as int
    ensures SimpleEscape(rest[1]).Some? && Body(rest[2..])
    ensures Prepend(front, DecodeBody(rest)) == Prepend(front + [SimpleEscape(rest[1]).value], DecodeBody(rest[2..]))
  {
    S.PrependTwice(front, [SimpleEscape(rest[1]).value], DecodeBody(rest[2..]));
  }

  lemma StepPlain(rest: Text, front: Text)
    requires Body(rest) && rest != [] && rest[0] != '\\' as int
    ensures Body(rest[1..])
    ensures Prepend(front, DecodeBody(rest)) == Prepend(front + [rest[0]], DecodeBody(rest[1..]))
  {
    S.PrependTwice(front, [rest[0]], DecodeBody(rest[1..]));
  }
}
