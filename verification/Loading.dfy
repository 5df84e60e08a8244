/** `json_loads` as a function of its input, and the round trip with `json_dumps`. */
module Loading {
  import opened Bytes
  import opened Input
  import opened Json
  import opened Printing
  import D = DocumentTrip
  import G = Grammar
  import R = RoundTrip
  import S = StringTrip
  import T = Tables
  import K = Tokens
  import X = Lexemes
  import Utf8

  /** `json_loads`: nothing when it fails. */
  function Loads(s: Text, reject: bool, disableEofCheck: bool): Option<Doc> {
    G.ParseJson(K.Tokenize(Deliverable(s), EndOf(s)), reject, disableEofCheck)
  }

  /** `json_dumps`: without JSON_ENCODE_ANY only arrays and objects are printed. */
  function Dumps(d: Doc, flags: Flags): Option<Text>
    requires Printable(d)
  {
    if !flags.encodeAny && !d.Array? && !d.Object? then None else Some(Print(d, flags, 0))
  }

  // ---------------------------------------------------------------- printed text is valid UTF-8

  /** Valid UTF-8 without NUL, of ASCII characters only when that is asked for. */
  ghost predicate Clean(s: Text, ascii: bool) {
    Utf8.Valid(s) && 0 !in s && (ascii ==> forall i | 0 <= i < |s| :: s[i] < 0x80)
  }

  lemma CleanConcat(a: Text, b: Text, ascii: bool)
    requires Clean(a, ascii) && Clean(b, ascii)
    ensures Clean(a + b, ascii)
  {
    hide Utf8.Valid;
    Utf8.ValidConcat(a, b);
  }

  lemma {:induction false} AsciiIsClean(s: Text, ascii: bool)
    requires forall i | 0 <= i < |s| :: 0 < s[i] < 0x80
    ensures Clean(s, ascii)
  {
    if s != [] {
      assert Utf8.UnitLength(s) == 1;
      AsciiIsClean(s[1..], ascii);
    }
  }

  lemma {:induction false} EncodedIsClean(cp: int, ascii: bool)
    requires Utf8.Scalar(cp) && cp != 0 && (ascii ==> cp < 0x80)
    ensures Clean(Utf8.Encoded(cp), ascii)
  {
    Utf8.UnitOfEncoded(cp, Utf8.Encoded(cp));
  }

  lemma CodePointIsClean(cp: int, ascii: bool)
    requires Utf8.Scalar(cp) && cp != 0
    ensures Clean(CodePointText(cp, ascii), ascii)
  {
    hide Clean;
    if MustEscape(cp, ascii) {
      AsciiIsClean(EscapeText(cp), ascii);
    } else {
      EncodedIsClean(cp, ascii);
    }
  }

  lemma {:induction false} BodyIsClean(cps: seq<int>, ascii: bool)
    requires Utf8.AllScalar(cps) && 0 !in cps
    ensures Clean(BodyText(cps, ascii), ascii)
  {
    hide Clean, CodePointText;
    if cps == [] {
      AsciiIsClean([], ascii);
    } else {
      CodePointIsClean(cps[0], ascii);
      BodyIsClean(cps[1..], ascii);
      CleanConcat(CodePointText(cps[0], ascii), BodyText(cps[1..], ascii), ascii);
    }
  }

  lemma StringIsClean(s: Text, ascii: bool)
    requires PrintableText(s)
    ensures Clean(StringText(s, ascii), ascii)
  {
    hide Clean, BodyText, Utf8.Decode;
    Utf8.EncodeDecode(s);
    S.NoZeroDecoded(s);
    var body := BodyText(Utf8.Decode(s), ascii);
    BodyIsClean(Utf8.Decode(s), ascii);
    AsciiIsClean(['"' as int], ascii);
    CleanConcat(['"' as int], body, ascii);
    CleanConcat(['"' as int] + body, ['"' as int], ascii);
  }

  lemma {:induction false} DigitsAreAscii(n: nat)
    ensures forall i | 0 <= i < |Digits(n)| :: 0 < Digits(n)[i] < 0x80
  {
    S.DigitsAreDigits(n);
  }

  lemma IndentIsAscii(flags: Flags, depth: nat, space: bool)
    ensures Clean(Indent(flags, depth, space), flags.ensureAscii)
  {
    R.IndentIsBlank(flags, depth, space);
    AsciiIsClean(Indent(flags, depth, space), flags.ensureAscii);
  }

  lemma Clean3(a: Text, b: Text, c: Text, ascii: bool)
    requires Clean(a, ascii) && Clean(b, ascii) && Clean(c, ascii)
    ensures Clean(a + b + c, ascii)
  {
    hide Clean;
    CleanConcat(a, b, ascii);
    CleanConcat(a + b, c, ascii);
  }

  lemma SeparationIsClean(flags: Flags, depth: nat, last: bool)
    ensures Clean(if last then Indent(flags, depth, false)
              else [',' as int] + Indent(flags, depth + 1, true), flags.ensureAscii)
  {
    hide Clean, Indent;
    IndentIsAscii(flags, depth, false);
    IndentIsAscii(flags, depth + 1, true);
    AsciiIsClean([',' as int], flags.ensureAscii);
    CleanConcat([',' as int], Indent(flags, depth + 1, true), flags.ensureAscii);
  }

  lemma {:induction false} PrintIsClean(d: Doc, flags: Flags, depth: nat)
    requires Printable(d)
    ensures Clean(Print(d, flags, depth), flags.ensureAscii)
    decreases d, 1
  {
    hide Clean, StringText, Arrange, Digits, Indent, PrintItems, PrintMembers, Utf8.Decode, MembersOf;
    var ascii := flags.ensureAscii;
    match d
    case Null => AsciiIsClean(K.NULL, ascii);
    case True => AsciiIsClean(K.TRUE, ascii);
    case False => AsciiIsClean(K.FALSE, ascii);
    case Integer(n) =>
      DigitsAreAscii(if n < 0 then -n else n);
      AsciiIsClean(IntText(n), ascii);
    case Str(s) => StringIsClean(s, ascii);
    case Array(items) =>
      AsciiIsClean(['[' as int, ']' as int], ascii);
      AsciiIsClean(['[' as int], ascii);
      AsciiIsClean([']' as int], ascii);
      if items != [] {
        IndentIsAscii(flags, depth + 1, false);
        ItemsAreClean(items, flags, depth);
        Clean3(['[' as int], Indent(flags, depth + 1, false), PrintItems(items, flags, depth), ascii);
        CleanConcat(['[' as int] + Indent(flags, depth + 1, false) + PrintItems(items, flags, depth), [']' as int],
            ascii);
      }
    case Object(members, _) =>
      AsciiIsClean(['{' as int, '}' as int], ascii);
      AsciiIsClean(['{' as int], ascii);
      AsciiIsClean(['}' as int], ascii);
      if members.order != [] {
        ArrangedMembers(flags, d);
        var ms := Arrange(flags, members.order);
        IndentIsAscii(flags, depth + 1, false);
        MembersAreClean(ms, flags, depth, d);
        Clean3(['{' as int], Indent(flags, depth + 1, false), PrintMembers(ms, flags, depth, d), ascii);
        CleanConcat(['{' as int] + Indent(flags, depth + 1, false) + PrintMembers(ms, flags, depth, d), ['}' as int],
            ascii);
      }
  }

  lemma {:induction false} ItemsAreClean(items: seq<Doc>, flags: Flags, depth: nat)
    requires AllPrintable(items)
    ensures Clean(PrintItems(items, flags, depth), flags.ensureAscii)
    decreases items, 0
  {
    hide Clean, Print, Indent;
    if items == [] {
      AsciiIsClean([], flags.ensureAscii);
    } else {
      PrintIsClean(items[0], flags, depth + 1);
      ItemsAreClean(items[1..], flags, depth);
      SeparationIsClean(flags, depth, |items| == 1);
      Clean3(Print(items[0], flags, depth + 1),
             if |items| == 1 then Indent(flags, depth, false) else [',' as int] + Indent(flags, depth + 1, true),
             PrintItems(items[1..], flags, depth), flags.ensureAscii);
    }
  }

  lemma {:induction false} MembersAreClean(ms: seq<T.Pair<Text, Doc>>, flags: Flags, depth: nat, d: Doc)
    requires MembersOf(ms, d)
    ensures Clean(PrintMembers(ms, flags, depth, d), flags.ensureAscii)
    decreases d, 0, |ms|
  {
    hide Clean, Print, Indent, StringText, Printable, Utf8.Valid;
    if ms == [] {
      AsciiIsClean([], flags.ensureAscii);
    } else {
      StringIsClean(ms[0].key, flags.ensureAscii);
      AsciiIsClean(Separator(flags), flags.ensureAscii);
      PrintIsClean(ms[0].value, flags, depth + 1);
      Clean3(StringText(ms[0].key, flags.ensureAscii), Separator(flags), Print(ms[0].value, flags, depth + 1),
          flags.ensureAscii);
      MembersAreClean(ms[1..], flags, depth, d);
      SeparationIsClean(flags, depth, |ms| == 1);
      Clean3(PrintMember(ms[0], flags, depth, d),
             if |ms| == 1 then Indent(flags, depth, false) else [',' as int] + Indent(flags, depth + 1, true),
             PrintMembers(ms[1..], flags, depth, d), flags.ensureAscii);
    }
  }

  // ---------------------------------------------------------------- the round trip

  /**
   Parsing the printed text of a value with an array or object root succeeds, for every formatting
   flag, whether duplicate keys are rejected or not, and gives a value that `json_equal` cannot tell
   from the original.  With JSON_ENSURE_ASCII the text is ASCII.
   */
  lemma DocumentRoundTrip(d: Doc, flags: Flags, reject: bool, disableEofCheck: bool)
    requires (d.Array? || d.Object?) && Printable(d) && WellFormed(d)
    ensures var text := Dumps(d, flags);
            && text.Some? && Clean(text.value, flags.ensureAscii)
            && var r := Loads(text.value, reject, disableEofCheck);
            && r.Some? && WellFormed(r.value) && Equal(d, r.value) && ValueOf(r.value) == ValueOf(d)
  {
    hide Arrange, Print, R.TreeOf, ValueOf, WellFormed, Printable, G.Yield, K.Scan, Equal;
    var text := Print(d, flags, 0);
    PrintIsClean(d, flags, 0);
    EndIsEofExactly(text);
    R.PrintTokens(d, flags, 0, [], K.AtEof);
    var t := R.TreeOf(d, flags);
    var toks := K.Tokenize(text, K.AtEof);
    NoTokens(text, G.Yield(t), K.Tokenize([], K.AtEof));
    D.TreeIsProper(d, flags);
    D.NoRepeats(d, flags);
    D.BuildTree(d, flags);
    RootIsContainer(d, flags);
    assert G.Reads(toks, t, []);
    G.ParserDecidesGrammar(toks, reject, disableEofCheck);
    EqualIsSameValue(d, G.Build(t));
  }

  lemma NoTokens(text: Text, toks: seq<G.Token>, none: seq<G.Token>)
    requires none == K.Tokenize([], K.AtEof)
    ensures text + [] == text && toks + none == toks && toks + [] == toks
  {
  }

  lemma RootIsContainer(d: Doc, flags: Flags)
    requires (d.Array? || d.Object?) && Printable(d)
    ensures G.Container(R.TreeOf(d, flags))
  {
    hide Arrange;
  }

  // ---------------------------------------------------------------- malformed input

  /** Behind input that is no UTF-8 the tokens end in one that no parse gets past. */
  lemma {:induction false} ErrorEndsTokens(s: Text)
    ensures var toks := K.Tokenize(s, K.AtError);
            && toks != [] && (toks[|toks| - 1].Invalid? || toks[|toks| - 1].Aborted?)
            && G.Eof !in toks
    decreases |s|
  {
    hide K.ScanAt;
    var r := K.Scan(s, K.AtError);
    if K.SkipBlanks(s) != [] {
      X.NotEof(K.SkipBlanks(s));
    }
    if !r.token.Invalid? && !r.token.Aborted? {
      ErrorEndsTokens(r.rest);
    }
  }

  lemma ContainerEnds(t: G.Tree)
    requires G.Container(t)
    ensures var toks := G.Yield(t); toks[|toks| - 1].RBracket? || toks[|toks| - 1].RBrace?
  {
    hide G.YieldItems, G.YieldFields;
  }

  /** Only valid UTF-8 is loaded, unless the end of the input is not looked at. */
  lemma OnlyValidLoads(s: Text, reject: bool)
    requires Loads(s, reject, false).Some?
    ensures Utf8.Valid(s)
  {
    hide K.Tokenize, G.ParseJson, G.Yield, Utf8.Valid, Deliverable, EndOf;
    EndIsEofExactly(s);
    if EndOf(s) == K.AtError {
      var toks := K.Tokenize(Deliverable(s), K.AtError);
      ErrorEndsTokens(Deliverable(s));
      G.ParserDecidesGrammar(toks, reject, false);
      var t: G.Tree, rest: seq<G.Token> :| G.Reads(toks, t, rest) && G.Container(t) && G.At(rest).Eof?;
      ContainerEnds(t);
    }
  }
}
