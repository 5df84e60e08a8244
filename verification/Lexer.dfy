/** The lexical analyser of `load.c` over its byte stream; `Tokens.Scan` is what it computes. */
module Lexer {
  import opened Bytes
  import opened Streams
  import opened StrBuffers
  import opened Tokens
  import G = Grammar
  import I = Input
  import U = Unescape
  import Utf8

  /** `c` is the character at `k`, or a status at the end. */
  predicate Char(s: Text, k: nat, c: int) {
    k <= |s| &&
    if k < |s| then c == SignedChar(s[k]) && 0 < s[k] < 0xF5
    else c == STREAM_STATE_EOF || c == STREAM_STATE_ERROR
  }

  function Next(s: Text, k: nat): (n: nat)
    ensures k <= |s| ==> n <= |s|
  {
    if k < |s| then k + 1 else k
  }

  class Lex {
    const stream: Stream
    const saved: StrBuffer
    var token: G.Token

    ghost predicate Valid()
      reads stream, stream.buffer, saved, saved.value
    {
      stream.Valid() && saved.Valid() && saved.value != stream.buffer
    }

    /**
     The scanning of one token: `s` is the input from its first character, `end` what follows the input,
     `k` characters of `s` have been read, and all of them are in the saved text.
     */
    ghost predicate Before(s: Text, end: End, k: nat)
      reads stream, stream.buffer, saved, saved.value
    {
      && Valid() && Deliverables(s) && k <= |s| <= |stream.source|
      && saved.Contents() == s[..k] && stream.Rest() == s[k..] && stream.Ending() == end
    }

    /** The byte just read can be pushed back; a status is the one that belongs to `end`. */
    ghost predicate CanUnget(s: Text, end: End, k: nat, c: int)
      requires k <= |s|
      reads stream, stream.buffer, saved, saved.value
    {
      if k < |s| then stream.JustRead() && stream.consumed[|stream.consumed| - 1] == s[k] else c == Status(end)
    }

    /** As `Before`, but `c`, the character at `k` or a status, has been read and may be pushed back. */
    ghost predicate Reading(s: Text, end: End, k: nat, c: int)
      reads stream, stream.buffer, saved, saved.value
    {
      Valid() && Char(s, k, c) && Before(s, end, Next(s, k)) && CanUnget(s, end, k, c)
    }

    constructor (text: CString)
      requires |text| <= INT_MAX
      ensures Valid() && fresh(stream) && fresh(stream.buffer) && fresh(saved) && fresh(saved.value) &&
                stream.source == text
      ensures stream.Rest() == I.Deliverable(text) && stream.Ending() == I.EndOf(text)
    {
      hide I.Deliverable, I.EndOf, Newlines, Column, Utf8.UnitLength;
      stream := new Stream(text);
      saved := new StrBuffer();
      token := G.Invalid;
    }

    /** `lex_save`: the buffer never refuses, because the saved text is no longer than the source. */
    method Save(c: int, ghost s: Text, ghost end: End, ghost k: nat)
      requires Valid() && k < |s| <= |stream.source| && Deliverables(s)
      requires stream.Ending() == end && saved.Contents() == s[..k] && stream.Rest() == s[k + 1..] &&
                c == SignedChar(s[k])
      modifies saved, saved.value
      ensures Before(s, end, k + 1) && (saved.value == old(saved.value) || fresh(saved.value))
      ensures unchanged(stream) && unchanged(stream.buffer)
    {
      hide I.Deliverable, I.EndOf, Newlines, Column;
      CharIsByte(s[k]);
      var rc := saved.AppendByte(ToByte(c));
      assert ToByte(c) == s[k];
      assert s[..k + 1] == s[..k] + [s[k]];
    }

    /** `lex_get_save`. */
    method GetSave(ghost s: Text, ghost end: End, ghost k: nat) returns (c: int)
      requires Before(s, end, k)
      modifies stream, stream.buffer, saved, saved.value
      ensures Reading(s, end, k, c) && (saved.value == old(saved.value) || fresh(saved.value))
    {
      hide I.Deliverable, I.EndOf, Newlines, Column;
      c := stream.Get();
      if c != STREAM_STATE_EOF && c != STREAM_STATE_ERROR {
        assert s[k..][1..] == s[k + 1..];
        Save(c, s, end, k);
      }
    }

    /** `lex_unget_unsave`: what is popped is what is pushed back. */
    method UngetUnsave(c: int, ghost s: Text, ghost end: End, ghost k: nat)
      requires Reading(s, end, k, c)
      modifies stream, stream.buffer, saved, saved.value
      ensures Before(s, end, k) && saved.value == old(saved.value)
    {
      hide I.Deliverable, I.EndOf, Newlines, Column;
      if c != STREAM_STATE_EOF && c != STREAM_STATE_ERROR {
        stream.Unget(c);
        var d := saved.Pop();
        assert s[..k + 1] == s[..k] + [s[k]];
        assert SignedChar(d) == c;
        assert s[k..] == [s[k]] + s[k + 1..];
      }
    }

    lemma BeforeIs(s: Text, end: End, k: nat)
      requires Before(s, end, k)
      ensures Valid() && k <= |s| && saved.Contents() == s[..k] && stream.Rest() == s[k..] && stream.Ending() == end
    {
    }

    // ---------------------------------------------------------------- strings

    /** The part of a `\u` escape behind the `u`: four characters, whatever they are. */
    method SkipHex(ghost s: Text, ghost end: End, ghost k: nat) returns (c: int, ghost j: nat)
      requires Before(s, end, k)
      modifies stream, stream.buffer, saved, saved.value
      ensures j == (if k + 4 <= |s| then k + 4 else |s|) && Reading(s, end, j, c)
      ensures (saved.value == old(saved.value) || fresh(saved.value))
    {
      hide Before, CanUnget, Valid, Char;
      BeforeIs(s, end, k);
      j := k;
      c := GetSave(s, end, j);
      var i := 0;
      while i < 4
        invariant 0 <= i <= 4 && j == (if k + i <= |s| then k + i else |s|) && Reading(s, end, j, c)
        invariant (saved.value == old(saved.value) || fresh(saved.value))
      {
        assert LIsXDigit(c);
        j := if j < |s| then j + 1 else j;
        c := GetSave(s, end, j);
        i := i + 1;
      }
    }

    /** An escape, behind its backslash at `k`. */
    method SkipEscape(ghost s: Text, ghost end: End, ghost k: nat) returns (ok: bool, c: int, ghost j: nat)
      requires k < |s| && s[k] == '\\' as int && Before(s, end, k + 1)
      modifies stream, stream.buffer, saved, saved.value
      ensures (saved.value == old(saved.value) || fresh(saved.value))
      ensures !ok ==> UnitSize(s[k..]) == 0 && Valid()
      ensures ok ==>
                k < j <= |s| && Reading(s, end, j, c) &&
                    j == (if UnitSize(s[k..]) > 0 then k + UnitSize(s[k..]) else |s|)
    {
      hide Before, CanUnget, Valid;
      c := GetSave(s, end, k + 1);
      EscapeSize(s, k);
      j := k;
      if c == 'u' as int {
        c, j := SkipHex(s, end, k + 2);
        ok := true;
      } else if SimpleEscape(c).Some? {
        c := GetSave(s, end, k + 2);
        j := k + 2;
        ok := true;
      } else {
        ok := false;
      }
    }

    /** The first loop of `lex_scan_string`, up to the closing quote. */
    method FindQuote(ghost s: Text, ghost end: End) returns (found: bool, ghost k: nat)
      requires Before(s, end, 1)
      modifies stream, stream.buffer, saved, saved.value
      ensures Valid() && (saved.value == old(saved.value) || fresh(saved.value))
      ensures found <==> LiteralEnd(s[1..]).Some?
      ensures found ==> k < |s| && LiteralEnd(s[1..]) == Some(k) && Before(s, end, k + 2)
    {
      hide Before, CanUnget, LiteralEnd, UnitSize, Valid;
      BeforeIs(s, end, 1);
      k := 1;
      var c := GetSave(s, end, k);
      Shift0(LiteralEnd(s[1..]));
      while c != '"' as int
        invariant 1 <= k <= |s| && Reading(s, end, k, c) && QuoteFrom(s, k)
        invariant (saved.value == old(saved.value) || fresh(saved.value))
        decreases |s| - k
      {
        UnitAt(s, k);
        if c == STREAM_STATE_ERROR {
          return false, k;
        } else if c == STREAM_STATE_EOF {
          return false, k;
        } else if 0 <= c <= 0x1F {
          UngetUnsave(c, s, end, k);
          BeforeIs(s, end, k);
          return false, k;
        } else if c == '\\' as int {
          ghost var j;
          var ok;
          ok, c, j := SkipEscape(s, end, k);
          if !ok {
            return false, k;
          }
          k := j;
        } else {
          c := GetSave(s, end, k + 1);
          k := k + 1;
        }
      }
      QuoteAt(s, k);
      found := true;
      k := k - 1;
    }

    /** The token is what `r` says, and unless it ends the parse so is the remaining input. */
    ghost predicate Scanned(r: Scanned)
      reads this, stream, stream.buffer, saved, saved.value
    {
      Valid() && token == r.token && (!token.Invalid? && !token.Aborted? ==> stream.Rest() == r.rest)
    }

    /** `lex_scan_string`, behind the opening quote. */
    method ScanString(ghost s: Text, ghost end: End)
      requires Before(s, end, 1) && s[0] == '"' as int
      modifies stream, stream.buffer, saved, saved.value, this`token
      ensures (saved.value == old(saved.value) || fresh(saved.value)) && Scanned(Tokens.ScanString(s[1..]))
      ensures !token.Invalid? && !token.Aborted? ==> stream.Ending() == end
    {
      hide Before, Valid, LiteralEnd, DecodeBody, Tokens.ScanString;
      BeforeIs(s, end, 1);
      token := G.Invalid;
      var found: bool;
      ghost var k;
      found, k := FindQuote(s, end);
      if !found {
        NoString(s);
        return;
      }
      BeforeIs(s, end, k + 2);
      ghost var raw := s[1..][..k];
      FoundString(s, k);
      var d := U.DecodeLiteral(saved.Contents(), raw);
      match d {
        case Text(t) => token := G.String(t);
        case Refused =>
        case Abort => token := G.Aborted;
      }
    }

    // ---------------------------------------------------------------- numbers and words

    /** `while(l_isdigit(c)) c = lex_get_save()`. */
    method Digits(c0: int, ghost s: Text, ghost end: End, ghost k0: nat) returns (c: int, ghost k: nat)
      requires Reading(s, end, k0, c0) && k0 <= |s|
      modifies stream, stream.buffer, saved, saved.value
      ensures (saved.value == old(saved.value) || fresh(saved.value)) && k == k0 + DigitRun(s[k0..]) &&
                Reading(s, end, k, c)
    {
      hide Before, CanUnget, Valid, DigitRun;
      c, k := c0, k0;
      while IsDigit(c)
        invariant k0 <= k <= |s| && Reading(s, end, k, c) && k0 + DigitRun(s[k0..]) == k + DigitRun(s[k..])
        invariant (saved.value == old(saved.value) || fresh(saved.value))
        decreases |s| - k
      {
        DigitRunStep(s, k);
        c := GetSave(s, end, k + 1);
        k := k + 1;
      }
      DigitRunEnds(s, k);
    }

    /** The integer part of `lex_scan_number`. */
    method IntegerDigits(c0: int, ghost s: Text, ghost end: End, ghost k0: nat) returns (ok: bool, c: int, ghost k: nat)
      requires Reading(s, end, k0, c0) && k0 <= |s|
      modifies stream, stream.buffer, saved, saved.value
      ensures (saved.value == old(saved.value) || fresh(saved.value))
      ensures !ok ==> Valid()
      ensures ok <==> IntegerPart(s[k0..]) > 0
      ensures ok ==> k == k0 + IntegerPart(s[k0..]) <= |s| && Reading(s, end, k, c)
    {
      hide Before, CanUnget, Valid, Utf8.CheckFirst;
      c, k := c0, k0;
      assert s[k0..] != [] ==> s[k0..][0] == s[k0];
      if c == '0' as int {
        c := GetSave(s, end, k + 1);
        k := k + 1;
        assert |s[k0..]| > 1 ==> s[k0..][1] == s[k0 + 1];
        if IsDigit(c) {
          UngetUnsave(c, s, end, k);
          BeforeIs(s, end, k);
          return false, c, k;
        }
      } else if IsDigit(c) {
        c := GetSave(s, end, k + 1);
        assert s[k0..][1..] == s[k0 + 1..];
        c, k := Digits(c, s, end, k + 1);
      } else {
        UngetUnsave(c, s, end, k);
        BeforeIs(s, end, k);
        return false, c, k;
      }
      ok := true;
    }

    /** The digits behind a decimal point, which is at `k0`; the first of them is read without being saved. */
    method FractionDigits(ghost s: Text, ghost end: End, ghost k0: nat) returns (ok: bool, c: int, ghost k: nat)
      requires k0 < |s| && Before(s, end, k0 + 1)
      modifies stream, stream.buffer, saved, saved.value
      ensures (saved.value == old(saved.value) || fresh(saved.value))
      ensures !ok ==> Valid()
      ensures ok <==> DigitRun(s[k0 + 1..]) > 0
      ensures ok ==> k == k0 + 1 + DigitRun(s[k0 + 1..]) <= |s| && Reading(s, end, k, c)
    {
      hide CanUnget, Utf8.CheckFirst, I.Deliverable, I.EndOf, Newlines, Column;
      k := k0 + 1;
      c := stream.Get();
      if !IsDigit(c) {
        stream.Unget(c);
        return false, c, k;
      }
      assert s[k..][1..] == s[k + 1..];
      Save(c, s, end, k);
      c := GetSave(s, end, k + 1);
      c, k := Digits(c, s, end, k + 1);
      ok := true;
    }

    /** The exponent, whose letter is at `k0`. */
    method ExponentDigits(ghost s: Text, ghost end: End, ghost k0: nat) returns (ok: bool, c: int, ghost k: nat)
      requires k0 < |s| && Before(s, end, k0 + 1) && (s[k0] == 'e' as int || s[k0] == 'E' as int)
      modifies stream, stream.buffer, saved, saved.value
      ensures (saved.value == old(saved.value) || fresh(saved.value))
      ensures !ok ==> Valid()
      ensures ok <==> Exponent(s[k0..]).Some?
      ensures ok ==> k == k0 + Exponent(s[k0..]).value <= |s| && Reading(s, end, k, c)
    {
      hide Before, CanUnget, Valid, Exponent, DigitRun;
      BeforeIs(s, end, k0 + 1);
      k := k0 + 1;
      c := GetSave(s, end, k);
      ghost var sign := if k < |s| && (s[k] == '+' as int || s[k] == '-' as int) then 2 else 1;
      ExponentIs(s, k0, sign);
      if c == '+' as int || c == '-' as int {
        c := GetSave(s, end, k + 1);
        k := k + 1;
      }
      if !IsDigit(c) {
        UngetUnsave(c, s, end, k);
        BeforeIs(s, end, k);
        return false, c, k;
      }
      c := GetSave(s, end, k + 1);
      DigitRunStep(s, k);
      c, k := Digits(c, s, end, k + 1);
      ok := true;
    }

    /** `lex_scan_number` on a number whose first character, `c0`, has been saved. */
    method ScanNumber(c0: int, ghost s: Text, ghost end: End)
      requires s != [] && Reading(s, end, 0, c0) && (IsDigit(c0) || c0 == '-' as int)
      modifies stream, stream.buffer, saved, saved.value, this`token
      ensures (saved.value == old(saved.value) || fresh(saved.value)) && Scanned(Tokens.ScanNumber(s))
      ensures !token.Invalid? && !token.Aborted? ==> stream.Ending() == end
    {
      hide Before, CanUnget, Valid, IntegerPart, DigitRun, DigitsValue, Strtoll, FitsInteger, Tokens.ScanNumber;
      token := G.Invalid;
      var c := c0;
      ghost var k: nat := 0;
      if c == '-' as int {
        c := GetSave(s, end, 1);
        k := 1;
      }
      ghost var begin := k;
      var ok;
      ok, c, k := IntegerDigits(c, s, end, k);
      if !ok {
        IntegerIs(s, begin, begin);
        return;
      }
      if c != '.' as int && c != 'E' as int && c != 'e' as int {
        UngetUnsave(c, s, end, k);
        BeforeIs(s, end, k);
        IntegerIs(s, begin, k);
        var value := Strtoll(saved.Contents());
        if FitsInteger(value) {
          token := G.Integer(value);
        }
        return;
      }
      ScanReal(c, s, end, begin, k);
    }

    /** What `lex_scan_number` does behind the integer part of a real. */
    method ScanReal(c0: int, ghost s: Text, ghost end: End, ghost begin: nat, ghost k0: nat)
      requires s != [] && begin == (if s[0] == '-' as int then 1 else 0) && IntegerPart(s[begin..]) > 0
      requires k0 == begin + IntegerPart(s[begin..]) < |s| && Reading(s, end, k0, c0)
      requires c0 == '.' as int || c0 == 'E' as int || c0 == 'e' as int
      requires token.Invalid?
      modifies stream, stream.buffer, saved, saved.value, this`token
      ensures (saved.value == old(saved.value) || fresh(saved.value)) && Scanned(Tokens.ScanNumber(s))
      ensures !token.Invalid? && !token.Aborted? ==> stream.Ending() == end
    {
      hide Before, CanUnget, Valid, IntegerPart, Fraction, RealFrom, DigitRun, DigitsValue, Tokens.ScanNumber;
      var c := c0;
      ghost var k := k0;
      RealIs(s, begin, k0);
      FractionIs(s, k0);
      if c == '.' as int {
        var ok;
        ok, c, k := FractionDigits(s, end, k);
        if !ok {
          return;
        }
      }
      ScanExponent(c, s, end, k);
    }

    /** The optional exponent, and the end of the number. */
    method ScanExponent(c0: int, ghost s: Text, ghost end: End, ghost k0: nat)
      requires Reading(s, end, k0, c0) && token.Invalid?
      modifies stream, stream.buffer, saved, saved.value, this`token
      ensures (saved.value == old(saved.value) || fresh(saved.value)) && k0 <= |s| && Scanned(RealFrom(s, k0))
      ensures !token.Invalid? && !token.Aborted? ==> stream.Ending() == end
    {
      hide Before, CanUnget, Valid, Exponent, RealFrom;
      var c := c0;
      ghost var k := k0;
      NoExponent(s, k0);
      RealFromIs(s, k0);
      if c == 'E' as int || c == 'e' as int {
        var ok;
        ok, c, k := ExponentDigits(s, end, k);
        if !ok {
          return;
        }
      }
      FinishReal(c, s, end, k);
    }

    /** The end of `lex_scan_number`; the conversion to `double` is left to the reader of the lexeme. */
    method FinishReal(c: int, ghost s: Text, ghost end: End, ghost k: nat)
      requires Reading(s, end, k, c)
      modifies stream, stream.buffer, saved, saved.value, this`token
      ensures (saved.value == old(saved.value) || fresh(saved.value))
      ensures k <= |s| && Scanned(Tokens.Scanned(G.Real(s[..k]), s[k..])) && token.Real? && stream.Ending() == end
    {
      hide Before, CanUnget, Valid;
      UngetUnsave(c, s, end, k);
      BeforeIs(s, end, k);
      token := G.Real(saved.Contents());
    }

    /** `while(l_isalpha(c)) c = lex_get_save()`. */
    method Letters(c0: int, ghost s: Text, ghost end: End, ghost k0: nat) returns (c: int, ghost k: nat)
      requires Reading(s, end, k0, c0) && k0 <= |s|
      modifies stream, stream.buffer, saved, saved.value
      ensures (saved.value == old(saved.value) || fresh(saved.value)) && k == k0 + AlphaRun(s[k0..]) &&
                Reading(s, end, k, c)
    {
      hide Before, CanUnget, Valid, AlphaRun;
      c, k := c0, k0;
      while IsAlpha(c)
        invariant k0 <= k <= |s| && Reading(s, end, k, c) && k0 + AlphaRun(s[k0..]) == k + AlphaRun(s[k..])
        invariant (saved.value == old(saved.value) || fresh(saved.value))
        decreases |s| - k
      {
        AlphaRunStep(s, k);
        c := GetSave(s, end, k + 1);
        k := k + 1;
      }
      AlphaRunEnds(s, k);
    }

    /** The identifier branch of `lex_scan`. */
    method ScanWord(ghost s: Text, ghost end: End)
      requires s != [] && IsAlpha(s[0]) && Before(s, end, 1)
      modifies stream, stream.buffer, saved, saved.value, this`token
      ensures (saved.value == old(saved.value) || fresh(saved.value)) &&
                Scanned(Tokens.Scanned(Word(s[..AlphaRun(s)]), s[AlphaRun(s)..]))
      ensures !token.Invalid? && !token.Aborted? ==> stream.Ending() == end
    {
      hide Before, CanUnget, Valid, Utf8.CheckFirst, Word, AlphaRun;
      FirstLetter(s);
      BeforeIs(s, end, 1);
      var c := GetSave(s, end, 1);
      ghost var k;
      c, k := Letters(c, s, end, 1);
      UngetUnsave(c, s, end, k);
      BeforeIs(s, end, k);
      token := Word(saved.Contents());
    }

    // ---------------------------------------------------------------- tokens

    /** What is left to read is clean, and no longer than the source. */
    lemma RestIsClean()
      requires Valid()
      ensures Deliverables(stream.Rest()) && |stream.Rest()| <= |stream.source|
    {
      hide I.Deliverable, I.EndOf, Newlines, Column;
      DeliveredBytes(stream.source);
      var all := I.Deliverable(stream.source);
      assert forall i | 0 <= i < |stream.Rest()| :: stream.Rest()[i] == all[|stream.consumed| + i];
    }

    /** Nothing is saved yet, and `c` is the first character of `t`, or a status when `t` is empty. */
    ghost predicate Visible(t: Text, end: End, c: int)
      reads stream, stream.buffer, saved, saved.value
    {
      && Valid() && saved.Contents() == [] && stream.Ending() == end && Deliverables(t) && |t| <= |stream.source|
      && if t == [] then c == Status(end) && stream.Rest() == []
         else
           stream.JustRead() && c == SignedChar(t[0]) && stream.consumed[|stream.consumed| - 1] == t[0] &&
           stream.Rest() == t[1..]
    }

    lemma VisibleIs(t: Text, end: End, c: int)
      requires Visible(t, end, c)
      ensures Valid() && saved.Contents() == [] && stream.Ending() == end
      ensures t == [] ==> c == Status(end) && stream.Rest() == []
      ensures t != [] ==>
                c == SignedChar(t[0]) && c != STREAM_STATE_EOF && c != STREAM_STATE_ERROR && stream.Rest() == t[1..]
    {
      hide Valid;
    }

    method GetVisible(ghost end: End) returns (c: int)
      requires Valid() && saved.Contents() == [] && stream.Ending() == end
      modifies stream, stream.buffer
      ensures Visible(old(stream.Rest()), end, c)
    {
      hide I.Deliverable, I.EndOf, Newlines, Column, Deliverables;
      RestIsClean();
      c := stream.Get();
    }

    /** Blanks are read and dropped; `c` is the first character behind them, the head of `t`, or a status. */
    method SkipBlanks(ghost end: End) returns (c: int, ghost t: Text)
      requires Valid() && saved.Contents() == [] && stream.Ending() == end
      modifies stream, stream.buffer
      ensures t == Tokens.SkipBlanks(old(stream.Rest())) && Visible(t, end, c)
    {
      hide Visible, Tokens.SkipBlanks, Deliverables, I.Deliverable, I.EndOf, Newlines, Column;
      t := stream.Rest();
      c := GetVisible(end);
      while IsBlank(c)
        invariant Tokens.SkipBlanks(t) == Tokens.SkipBlanks(old(stream.Rest())) && Visible(t, end, c)
        decreases |t|
      {
        VisibleIs(t, end, c);
        BlankSkipped(t);
        t := t[1..];
        c := GetVisible(end);
      }
      VisibleIs(t, end, c);
      NoBlank(t);
    }

    /** `lex_save_cached`. */
    method SaveCached()
      requires Valid() && stream.state == STREAM_STATE_OK && stream.bufferPos > 0
      modifies stream, stream.buffer, saved, saved.value
      ensures Valid() && (saved.value == old(saved.value) || fresh(saved.value))
    {
      hide I.Deliverable, I.EndOf, Newlines, Column, Stream.Rest, Stream.Ending, Stream.Shape, OneUnit;
      stream.CacheEnd();
      while stream.buffer[stream.bufferPos] != 0
        invariant Valid() && stream.state == STREAM_STATE_OK && stream.bufferPos > 0
        invariant stream.bufferPos <= stream.filled && stream.bufferPos < stream.buffer.Length
        invariant stream.buffer[stream.bufferPos] != 0 <==> stream.bufferPos < stream.filled
        invariant saved.value == old(saved.value) || fresh(saved.value)
        decreases stream.filled - stream.bufferPos
      {
        var c := stream.SkipCached();
        var _ := saved.AppendByte(c);
        stream.CacheEnd();
      }
    }

    /** `lex_scan` at the first character that is no blank, which has been saved. */
    method ScanAt(c: int, ghost s: Text, ghost end: End)
      requires s != [] && Reading(s, end, 0, c)
      modifies stream, stream.buffer, saved, saved.value, this`token
      ensures (saved.value == old(saved.value) || fresh(saved.value)) && Scanned(Tokens.ScanAt(s))
      ensures !token.Invalid? && !token.Aborted? ==> stream.Ending() == end
    {
      hide Before, Valid, CanUnget, Tokens.ScanNumber, Tokens.ScanString, Word, AlphaRun;
      BeforeIs(s, end, 1);
      if Punctuation(c).Some? {
        token := Punctuation(c).value;
      } else if c == '"' as int {
        ScanString(s, end);
      } else if IsDigit(c) || c == '-' as int {
        ScanNumber(c, s, end);
      } else if IsAlpha(c) {
        ScanWord(s, end);
      } else {
        JustReadState(s, end, c);
        SaveCached();
        token := G.Invalid;
      }
    }

    lemma JustReadState(s: Text, end: End, c: int)
      requires s != [] && Reading(s, end, 0, c)
      ensures stream.state == STREAM_STATE_OK && stream.bufferPos > 0
    {
    }

    /** `lex_scan`: the next token and the remaining input are those of `Tokens.Scan`. */
    method Scan()
      requires Valid()
      modifies stream, stream.buffer, saved, saved.value, this`token
      ensures (saved.value == old(saved.value) || fresh(saved.value))
      ensures Scanned(Tokens.Scan(old(stream.Rest()), old(stream.Ending())))
      ensures !token.Invalid? && !token.Aborted? ==> stream.Ending() == old(stream.Ending())
    {
      hide Tokens.ScanAt, Tokens.SkipBlanks, I.Deliverable, I.EndOf, Newlines, Column, Visible;
      ghost var end := stream.Ending();
      saved.Clear();
      var c;
      ghost var s;
      c, s := SkipBlanks(end);
      VisibleIs(s, end, c);
      if c == STREAM_STATE_EOF {
        token := G.Eof;
        return;
      }
      if c == STREAM_STATE_ERROR {
        token := G.Invalid;
        return;
      }
      SaveFirst(c, s, end);
      ScanAt(c, s, end);
    }

    /** `lex_save` of the first character of a token. */
    method SaveFirst(c: int, ghost s: Text, ghost end: End)
      requires s != [] && Visible(s, end, c)
      modifies saved, saved.value
      ensures (saved.value == old(saved.value) || fresh(saved.value)) && Reading(s, end, 0, c)
    {
      hide I.Deliverable, I.EndOf, Newlines, Column;
      assert s[..0] == [];
      Save(c, s, end, 0);
    }
  }

  lemma BlankSkipped(t: Text)
    requires t != [] && IsBlank(t[0])
    ensures Tokens.SkipBlanks(t) == Tokens.SkipBlanks(t[1..])
  {
  }

  lemma NoBlank(t: Text)
    requires t == [] || !IsBlank(t[0])
    ensures Tokens.SkipBlanks(t) == t
  {
  }

  lemma NoString(s: Text)
    requires s != [] && LiteralEnd(s[1..]).None?
    ensures Tokens.ScanString(s[1..]) == BROKEN
  {
    hide LiteralEnd, DecodeBody;
  }

  lemma FoundString(s: Text, k: nat)
    requires k + 1 < |s| && s[0] == '"' as int && LiteralEnd(s[1..]) == Some(k)
    ensures s[..k + 2] == ['"' as int] + s[1..][..k] + ['"' as int] && Body(s[1..][..k])
    ensures Tokens.ScanString(s[1..]) ==
            match DecodeBody(s[1..][..k])
            case Text(t) => Tokens.Scanned(G.String(t), s[k + 2..])
            case Refused => BROKEN
            case Abort => Tokens.Scanned(G.Aborted, [])
  {
    hide LiteralEnd, DecodeBody, Body;
    assert s[1..][k] == s[k + 1];
    assert s[1..][k + 1..] == s[k + 2..];
  }

  lemma DigitRunStep(s: Text, k: nat)
    requires k < |s| && IsDigit(s[k])
    ensures DigitRun(s[k..]) == 1 + DigitRun(s[k + 1..])
  {
    assert s[k..][1..] == s[k + 1..];
  }

  lemma DigitRunEnds(s: Text, k: nat)
    requires k <= |s| && (k < |s| ==> !IsDigit(s[k]))
    ensures DigitRun(s[k..]) == 0
  {
  }

  lemma AlphaRunStep(s: Text, k: nat)
    requires k < |s| && IsAlpha(s[k])
    ensures AlphaRun(s[k..]) == 1 + AlphaRun(s[k + 1..])
  {
    assert s[k..][1..] == s[k + 1..];
  }

  lemma FirstLetter(s: Text)
    requires s != [] && IsAlpha(s[0])
    ensures AlphaRun(s) == 1 + AlphaRun(s[1..])
  {
  }

  lemma AlphaRunEnds(s: Text, k: nat)
    requires k <= |s| && (k < |s| ==> !IsAlpha(s[k]))
    ensures AlphaRun(s[k..]) == 0
  {
  }

  lemma ExponentIs(s: Text, k: nat, sign: nat)
    requires k < |s| && (s[k] == 'e' as int || s[k] == 'E' as int)
    requires sign == if k + 1 < |s| && (s[k + 1] == '+' as int || s[k + 1] == '-' as int) then 2 else 1
    ensures k + sign <= |s|
    ensures Exponent(s[k..]) == if DigitRun(s[k + sign..]) == 0 then None else Some(sign + DigitRun(s[k + sign..]))
    ensures k + sign < |s| ==> (DigitRun(s[k + sign..]) > 0 <==> IsDigit(s[k + sign]))
  {
    assert s[k..][sign..] == s[k + sign..];
    assert s[k..][0] == s[k] && (k + 1 < |s| ==> s[k..][1] == s[k + 1]);
  }

  lemma FractionIs(s: Text, k: nat)
    requires k < |s|
    ensures Fraction(s[k..]) == if s[k] != '.' as int then Some(0)
                                else if DigitRun(s[k + 1..]) == 0 then None else Some(1 + DigitRun(s[k + 1..]))
  {
    assert s[k..][1..] == s[k + 1..];
  }

  lemma NoExponent(s: Text, k: nat)
    requires k <= |s|
    ensures k == |s| || !(s[k] == 'e' as int || s[k] == 'E' as int) ==> Exponent(s[k..]) == Some(0)
  {
  }

  /** What follows the integer part and the fraction of a real, which end at `k`. */
  function RealFrom(s: Text, k: nat): Tokens.Scanned
    requires k <= |s|
  {
    var e := Exponent(s[k..]);
    if e.None? then BROKEN else Tokens.Scanned(G.Real(s[..k + e.value]), s[k + e.value..])
  }

  lemma RealFromIs(s: Text, k0: nat)
    requires k0 <= |s|
    ensures Exponent(s[k0..]).None? ==> RealFrom(s, k0) == BROKEN
    ensures forall k: nat :: Exponent(s[k0..]) == Some(k - k0) && k <= |s| ==>
              RealFrom(s, k0) == Tokens.Scanned(G.Real(s[..k]), s[k..])
  {
    hide Exponent;
  }

  /** A number that is no integer. */
  lemma RealIs(s: Text, begin: nat, k0: nat)
    requires s != [] && begin == (if s[0] == '-' as int then 1 else 0) && IntegerPart(s[begin..]) > 0
    requires k0 == begin + IntegerPart(s[begin..]) < |s|
    requires s[k0] == '.' as int || s[k0] == 'E' as int || s[k0] == 'e' as int
    ensures Tokens.ScanNumber(s) == var f := Fraction(s[k0..]); if f.None? then BROKEN else RealFrom(s, k0 + f.value)
  {
    hide IntegerPart, Fraction, Exponent, DigitsValue;
    assert s[k0..][0] == s[k0];
    var f := Fraction(s[k0..]);
    if f.Some? {
      assert s[k0..][f.value..] == s[k0 + f.value..];
    }
  }

  lemma IntegerIs(s: Text, begin: nat, k: nat)
    requires s != [] && begin == (if s[0] == '-' as int then 1 else 0) && begin <= |s|
    requires k == begin + IntegerPart(s[begin..]) <= |s|
    requires IntegerPart(s[begin..]) > 0 ==>
              k == |s| || !(s[k] == '.' as int || s[k] == 'E' as int || s[k] == 'e' as int)
    ensures IntegerPart(s[begin..]) == 0 ==> Tokens.ScanNumber(s) == BROKEN
    ensures IntegerPart(s[begin..]) > 0 ==>
              && s[..k] != [] && AllDigits(if s[..k][0] == '-' as int then s[..k][1..] else s[..k])
              && Tokens.ScanNumber(s) == if FitsInteger(Strtoll(s[..k]))
                  then Tokens.Scanned(G.Integer(Strtoll(s[..k])), s[k..]) else BROKEN
  {
    hide IntegerPart, DigitsValue;
    if IntegerPart(s[begin..]) > 0 {
      SignIs(s, begin, k);
      assert k < |s| ==> s[k..][0] == s[k];
    }
  }

  lemma SignIs(s: Text, begin: nat, k: nat)
    requires s != [] && begin == (if s[0] == '-' as int then 1 else 0) && begin < k <= |s|
    requires AllDigits(s[begin..][..k - begin])
    ensures s[..k] != [] && s[..k][begin..] == s[begin..][..k - begin]
  {
  }

  /** `strtoll` on an optional minus sign and digits, before it checks the range. */
  function Strtoll(t: Text): int
    requires t != [] && AllDigits(if t[0] == '-' as int then t[1..] else t)
  {
    if t[0] == '-' as int then -(DigitsValue(t[1..]) as int) else DigitsValue(t)
  }

  predicate LIsXDigit(c: int) {
    IsDigit(c) || 'A' as int <= c || c <= 'F' as int || 'a' as int <= c || c <= 'f' as int
  }

  function Shifted(n: nat, r: Option<nat>): Option<nat> {
    if r.None? then None else Some(n + r.value)
  }

  lemma Shift0(r: Option<nat>)
    ensures Shifted(0, r) == r
  {
  }

  /** The literal behind the quote at 0 ends where the rest of it from `k` ends. */
  ghost predicate QuoteFrom(s: Text, k: nat)
    requires 1 <= k <= |s|
  {
    LiteralEnd(s[1..]) == Shifted(k - 1, LiteralEnd(s[k..]))
  }

  lemma EscapeSize(s: Text, k: nat)
    requires k < |s| && s[k] == '\\' as int
    ensures UnitSize(s[k..]) == if k + 6 <= |s| && s[k + 1] == 'u' as int then 6
                                else if k + 2 <= |s| && SimpleEscape(s[k + 1]).Some? then 2 else 0
  {
  }

  lemma LiteralStep(t: Text)
    ensures var n := UnitSize(t);
            LiteralEnd(t) == if n > 0 then Shifted(n, LiteralEnd(t[n..]))
                             else if t != [] && t[0] == '"' as int then Some(0) else None
  {
  }

  /** One round of the loop that looks for the closing quote. */
  lemma UnitAt(s: Text, k: nat)
    requires 1 <= k <= |s| && QuoteFrom(s, k)
    ensures var n := UnitSize(s[k..]);
            if n > 0 then k + n <= |s| && QuoteFrom(s, k + n)
            else (k < |s| && s[k] == '"' as int) || LiteralEnd(s[1..]).None?
    ensures LiteralEnd(s[1..]).None? ==> QuoteFrom(s, |s|)
    ensures k < |s| && s[k] == '\\' as int ==> UnitSize(s[k..]) > 0 || LiteralEnd(s[1..]).None?
    ensures k < |s| && s[k] != '\\' as int && s[k] != '"' as int ==> UnitSize(s[k..]) == if s[k] <= 0x1F then 0 else 1
  {
    hide LiteralEnd;
    LiteralStep(s[k..]);
    LiteralStep(s[|s|..]);
    var n := UnitSize(s[k..]);
    if n > 0 {
      assert s[k..][n..] == s[k + n..];
    }
  }

  lemma QuoteAt(s: Text, k: nat)
    requires 1 <= k < |s| && s[k] == '"' as int && QuoteFrom(s, k)
    ensures LiteralEnd(s[1..]) == Some(k - 1)
  {
    hide LiteralEnd;
    LiteralStep(s[k..]);
  }
}
