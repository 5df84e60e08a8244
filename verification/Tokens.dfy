/**
 The lexical analyser of `load.c` as functions of the bytes it is given: the longest decodable
 prefix of the input, and whether the end of the input or a decoding error follows it.
 */
module Tokens {
  import opened Bytes
  import opened Grammar
  import Utf8

  datatype End = AtEof | AtError

  // ---------------------------------------------------------------- character classes

  predicate IsBlank(c: int) { c == ' ' as int || c == '\t' as int || c == '\n' as int || c == '\r' as int }

  predicate IsDigit(c: int) { '0' as int <= c <= '9' as int }

  predicate IsUpper(c: int) { 'A' as int <= c <= 'Z' as int }

  predicate IsLower(c: int) { 'a' as int <= c <= 'z' as int }

  predicate IsAlpha(c: int) { IsUpper(c) || IsLower(c) }

  /** The tokens of one character. */
  function Punctuation(c: int): Option<Token> {
    if c == '{' as int then Some(LBrace)
    else if c == '}' as int then Some(RBrace)
    else if c == '[' as int then Some(LBracket)
    else if c == ']' as int then Some(RBracket)
    else if c == ':' as int then Some(Colon)
    else if c == ',' as int then Some(Comma)
    else None
  }

  // ---------------------------------------------------------------- string literals

  /** The character a two-character escape stands for, none when it is no such escape. */
  function SimpleEscape(c: int): Option<byte> {
    if c == '"' as int || c == '\\' as int || c == '/' as int then Some(c)
    else if c == 'b' as int then Some(0x08)
    else if c == 'f' as int then Some(0x0C)
    else if c == 'n' as int then Some(0x0A)
    else if c == 'r' as int then Some(0x0D)
    else if c == 't' as int then Some(0x09)
    else None
  }

  /**
   The length of the character or escape that `s` starts with, 0 when the literal ends or breaks
   off here.  After `\u` any four characters are taken.
   */
  function UnitSize(s: Text): (n: nat)
    ensures n <= |s|
  {
    if s == [] || s[0] == '"' as int || s[0] <= 0x1F then 0
    else if s[0] != '\\' as int then 1
    else if |s| >= 6 && s[1] == 'u' as int then 6
    else if |s| >= 2 && SimpleEscape(s[1]).Some? then 2
    else 0
  }

  /** Characters and escapes, up to the end. */
  predicate Body(raw: Text) {
    raw == [] || (UnitSize(raw) > 0 && Body(raw[UnitSize(raw)..]))
  }

  /** How far the closing quote is, when the literal has one. */
  function LiteralEnd(s: Text): (r: Option<nat>)
    ensures r.Some? ==> r.value < |s| && s[r.value] == '"' as int && Body(s[..r.value])
  {
    if UnitSize(s) > 0 then
      var n := UnitSize(s);
      var r := LiteralEnd(s[n..]);
      if r.None? then None
      else
        BodyCons(s[..n + r.value], s, n);
        assert s[..n + r.value][n..] == s[n..][..r.value];
        Some(n + r.value)
    else if s != [] && s[0] == '"' as int then Some(0)
    else None
  }

  lemma BodyCons(raw: Text, s: Text, n: nat)
    requires raw <= s && n == UnitSize(s) && 0 < n <= |raw|
    ensures UnitSize(raw) == n
  {
  }

  /** `decode_unicode_escape` fails an assertion on anything but a letter or a digit. */
  predicate AllAlnum(h: Text) {
    forall i | 0 <= i < |h| :: IsDigit(h[i]) || IsAlpha(h[i])
  }

  function AlnumValue(c: int): (v: nat)
    requires IsDigit(c) || IsAlpha(c)
    ensures v < 36
  {
    if IsDigit(c) then c - '0' as int
    else if IsLower(c) then c - 'a' as int + 10
    else c - 'A' as int + 10
  }

  /** The number that the first `k` characters of `h` give. */
  function EscapeValue(h: Text, k: nat): nat
    requires k <= |h| && AllAlnum(h)
  {
    if k == 0 then 0 else EscapeValue(h, k - 1) * 0x10 + AlnumValue(h[k - 1])
  }

  function Joined(high: int, low: int): int {
    (high - 0xD800) * 0x400 + (low - 0xDC00) + 0x10000
  }

  datatype Decoded = Text(t: Text) | Refused | Abort

  function Prepend(t: Text, d: Decoded): Decoded {
    if d.Text? then Decoded.Text(t + d.t) else d
  }

  /** What the code units of an escape, and of the one after it, come to. */
  datatype Unicode = Code(cp: int, size: nat) | Unpaired | Broken

  predicate StartsEscape(s: Text) {
    |s| >= 6 && s[0] == '\\' as int && s[1] == 'u' as int
  }

  lemma AtMost4(h: Text)
    requires |h| == 4 && AllAlnum(h)
    ensures EscapeValue(h, 4) <= 0x25553
    ensures EscapeValue(h, 4) ==
              AlnumValue(h[0]) * 0x1000 + AlnumValue(h[1]) * 0x100 + AlnumValue(h[2]) * 0x10 + AlnumValue(h[3])
  {
    assert EscapeValue(h, 0) == 0;
    assert EscapeValue(h, 1) == EscapeValue(h, 0) * 0x10 + AlnumValue(h[0]);
    assert EscapeValue(h, 2) == EscapeValue(h, 1) * 0x10 + AlnumValue(h[1]);
    assert EscapeValue(h, 3) == EscapeValue(h, 2) * 0x10 + AlnumValue(h[2]);
    assert EscapeValue(h, 4) == EscapeValue(h, 3) * 0x10 + AlnumValue(h[3]);
  }

  /** The code point of the `\u` escape that `raw` starts with: a surrogate needs its partner, NUL is refused. */
  function UnicodeUnit(raw: Text): (u: Unicode)
    requires StartsEscape(raw)
    ensures u.Code? ==> Utf8.Scalar(u.cp) && u.cp != 0 && 6 <= u.size <= |raw| && (u.size == 6 || u.size == 12)
  {
    var h := raw[2..6];
    if !AllAlnum(h) then Broken
    else
      var value := EscapeValue(h, 4);
      AtMost4(h);
      if 0xD800 <= value <= 0xDBFF then
        var rest := raw[6..];
        if !StartsEscape(rest) then Unpaired
        else if !AllAlnum(rest[2..6]) then Broken
        else
          var value2 := EscapeValue(rest[2..6], 4);
          if 0xDC00 <= value2 <= 0xDFFF then Code(Joined(value, value2), 12) else Unpaired
      else if 0xDC00 <= value <= 0xDFFF || value == 0 then Unpaired
      else Code(value, 6)
  }

  lemma BodyDrop(raw: Text)
    requires Body(raw) && StartsEscape(raw)
    ensures Body(raw[6..])
    ensures StartsEscape(raw[6..]) ==> Body(raw[12..])
  {
    if StartsEscape(raw[6..]) {
      assert raw[6..][6..] == raw[12..];
    }
  }

  /** The decoding loop of `lex_scan_string`. */
  function DecodeBody(raw: Text): Decoded
    requires Body(raw)
  {
    if raw == [] then Decoded.Text([])
    else if raw[0] != '\\' as int then Prepend([raw[0]], DecodeBody(raw[1..]))
    else if raw[1] != 'u' as int then Prepend([SimpleEscape(raw[1]).value], DecodeBody(raw[2..]))
    else
      var u := UnicodeUnit(raw);
      BodyDrop(raw);
      match u
      case Code(cp, size) =>
        (assert size == 12 ==> StartsEscape(raw[6..]);
         Prepend(Utf8.Encoded(cp), DecodeBody(raw[size..])))
      case Unpaired => Refused
      case Broken => Abort
  }

  // ---------------------------------------------------------------- runs, numbers and words

  function DigitRun(s: Text): (n: nat)
    ensures n <= |s|
  {
    if s == [] || !IsDigit(s[0]) then 0 else 1 + DigitRun(s[1..])
  }

  function AlphaRun(s: Text): (n: nat)
    ensures n <= |s|
  {
    if s == [] || !IsAlpha(s[0]) then 0 else 1 + AlphaRun(s[1..])
  }

  /** The run is as long as it can be. */
  lemma {:induction false} DigitRunExactly(s: Text)
    ensures AllDigits(s[..DigitRun(s)])
    ensures DigitRun(s) < |s| ==> !IsDigit(s[DigitRun(s)])
  {
    if s != [] && IsDigit(s[0]) {
      DigitRunExactly(s[1..]);
      assert s[..DigitRun(s)] == [s[0]] + s[1..][..DigitRun(s[1..])];
    }
  }

  predicate AllDigits(t: Text) {
    forall i | 0 <= i < |t| :: IsDigit(t[i])
  }

  function DigitsValue(t: Text): nat
    requires AllDigits(t)
  {
    if t == [] then 0 else DigitsValue(t[..|t| - 1]) * 10 + (t[|t| - 1] - '0' as int)
  }

  /** The integer part of a number: no digit may follow a leading zero. */
  function IntegerPart(s: Text): (n: nat)
    ensures n <= |s| && AllDigits(s[..n])
  {
    DigitRunExactly(s);
    if s != [] && s[0] == '0' as int then
      if |s| > 1 && IsDigit(s[1]) then 0 else 1
    else DigitRun(s)
  }

  /** `.` and digits, when they are there; none when the digits are missing. */
  function Fraction(s: Text): (n: Option<nat>)
    ensures n.Some? ==> n.value <= |s|
  {
    if s == [] || s[0] != '.' as int then Some(0)
    else if DigitRun(s[1..]) == 0 then None
    else Some(1 + DigitRun(s[1..]))
  }

  function Exponent(s: Text): (n: Option<nat>)
    ensures n.Some? ==> n.value <= |s|
  {
    if s == [] || !(s[0] == 'e' as int || s[0] == 'E' as int) then Some(0)
    else
      var sign := if |s| > 1 && (s[1] == '+' as int || s[1] == '-' as int) then 2 else 1;
      if DigitRun(s[sign..]) == 0 then None else Some(sign + DigitRun(s[sign..]))
  }

  predicate FitsInteger(n: int) {
    -0x8000_0000_0000_0000 <= n <= 0x7FFF_FFFF_FFFF_FFFF
  }

  /** A token, and the input behind it. */
  datatype Scanned = Scanned(token: Token, rest: Text)

  const BROKEN := Scanned(Invalid, [])

  /** `lex_scan_number` on input that starts with a digit or a minus sign. */
  function ScanNumber(s: Text): (r: Scanned)
    requires s != []
    ensures !r.token.Invalid? ==> |r.rest| < |s|
  {
    var sign := if s[0] == '-' as int then 1 else 0;
    var n := IntegerPart(s[sign..]);
    if n == 0 then BROKEN
    else
      var rest := s[sign + n..];
      if rest == [] || !(rest[0] == '.' as int || rest[0] == 'e' as int || rest[0] == 'E' as int) then
        var magnitude: int := DigitsValue(s[sign..][..n]);
        var value := if sign == 1 then -magnitude else magnitude;
        if FitsInteger(value) then Scanned(Integer(value), rest) else BROKEN
      else
        var f := Fraction(rest);
        if f.None? then BROKEN
        else
          var e := Exponent(rest[f.value..]);
          if e.None? then BROKEN
          else Scanned(Real(s[..sign + n + f.value + e.value]), s[sign + n + f.value + e.value..])
  }

  const TRUE: Text := ['t' as int, 'r' as int, 'u' as int, 'e' as int]
  const FALSE: Text := ['f' as int, 'a' as int, 'l' as int, 's' as int, 'e' as int]
  const NULL: Text := ['n' as int, 'u' as int, 'l' as int, 'l' as int]

  function Word(t: Text): Token {
    if t == TRUE then True else if t == FALSE then False else if t == NULL then Null else Invalid
  }

  // ---------------------------------------------------------------- tokens

  /** `lex_scan_string`, behind the opening quote. */
  function ScanString(s: Text): (r: Scanned)
    ensures |r.rest| <= |s|
  {
    var n := LiteralEnd(s);
    if n.None? then BROKEN
    else
      match DecodeBody(s[..n.value])
      case Text(t) => Scanned(String(t), s[n.value + 1..])
      case Refused => BROKEN
      case Abort => Scanned(Aborted, [])
  }

  function SkipBlanks(s: Text): (r: Text)
    ensures |r| <= |s| && (r != [] ==> !IsBlank(r[0]))
  {
    if s != [] && IsBlank(s[0]) then SkipBlanks(s[1..]) else s
  }

  /** `lex_scan` at a character that is no blank. */
  function ScanAt(s: Text): (r: Scanned)
    requires s != []
    ensures !r.token.Invalid? ==> |r.rest| < |s|
  {
    if Punctuation(s[0]).Some? then Scanned(Punctuation(s[0]).value, s[1..])
    else if s[0] == '"' as int then ScanString(s[1..])
    else if IsDigit(s[0]) || s[0] == '-' as int then ScanNumber(s)
    else if IsAlpha(s[0]) then Scanned(Word(s[..AlphaRun(s)]), s[AlphaRun(s)..])
    else BROKEN
  }

  /** `lex_scan`. */
  function Scan(s: Text, end: End): (r: Scanned)
    ensures !r.token.Invalid? && !r.token.Eof? ==> |r.rest| < |s|
  {
    var t := SkipBlanks(s);
    if t == [] then Scanned(if end.AtEof? then Eof else Invalid, []) else ScanAt(t)
  }

  /** The tokens up to the end, or up to the first that ends every parse. */
  function Tokenize(s: Text, end: End): seq<Token>
    decreases |s|
  {
    var r := Scan(s, end);
    if r.token.Eof? then []
    else if r.token.Invalid? || r.token.Aborted? then [r.token]
    else [r.token] + Tokenize(r.rest, end)
  }
}
