/** Parsing a printed document gives an equal document, for every choice of formatting flags. */
module RoundTrip {
  import opened Bytes
  import opened Json
  import opened Printing
  import opened StringTrip
  import opened Tokens
  import G = Grammar
  import T = Tables
  import Utf8

  // ---------------------------------------------------------------- tokens of a text

  predicate AllBlank(b: Text) {
    forall i | 0 <= i < |b| :: IsBlank(b[i])
  }

  lemma {:induction false} BlanksSkipped(b: Text, s: Text, end: End)
    requires AllBlank(b)
    ensures SkipBlanks(b + s) == SkipBlanks(s)
    ensures Tokenize(b + s, end) == Tokenize(s, end)
  {
    hide ScanAt;
    if b == [] {
      assert b + s == s;
    } else {
      assert (b + s)[1..] == b[1..] + s;
      BlanksSkipped(b[1..], s, end);
    }
  }

  lemma TokenStep(s: Text, token: G.Token, rest: Text, end: End)
    requires s != [] && !IsBlank(s[0]) && ScanAt(s) == Scanned(token, rest)
    requires !token.Eof? && !token.Invalid? && !token.Aborted?
    ensures Tokenize(s, end) == [token] + Tokenize(rest, end)
  {
    hide ScanAt;
  }

  lemma MarkStep(c: byte, rest: Text, end: End)
    requires Punctuation(c).Some?
    ensures Tokenize([c] + rest, end) == [Punctuation(c).value] + Tokenize(rest, end)
  {
    hide Tokenize;
    assert ([c] + rest)[1..] == rest;
    TokenStep([c] + rest, Punctuation(c).value, rest, end);
  }

  lemma {:induction false} SpacesAreBlank(n: nat)
    ensures AllBlank(Spaces(n))
  {
    if n > 0 {
      SpacesAreBlank(n - 1);
    }
  }

  lemma IndentIsBlank(flags: Flags, depth: nat, space: bool)
    ensures AllBlank(Indent(flags, depth, space))
  {
    SpacesAreBlank(flags.indent * depth);
  }

  lemma DelimitsAfter(b: Text, c: byte, rest: Text)
    requires AllBlank(b) && Punctuation(c).Some?
    ensures Delimits(b + ([c] + rest))
  {
    if b != [] {
      assert IsBlank(b[0]);
    }
  }

  /** Blanks and a mark behind a value. */
  lemma MarkAfterBlanks(b: Text, c: byte, rest: Text, end: End)
    requires AllBlank(b) && Punctuation(c).Some?
    ensures Delimits(b + ([c] + rest))
    ensures Tokenize(b + ([c] + rest), end) == [Punctuation(c).value] + Tokenize(rest, end)
  {
    hide Tokenize, SkipBlanks;
    DelimitsAfter(b, c, rest);
    BlanksSkipped(b, [c] + rest, end);
    MarkStep(c, rest, end);
  }

  // ---------------------------------------------------------------- the tree of a document

  /** The syntax tree of the printed text: fields come in the order in which they are printed. */
  function TreeOf(d: Doc, flags: Flags): G.Tree
    requires Printable(d)
    decreases d, 1
  {
    match d
    case Null => G.Leaf(G.Null)
    case True => G.Leaf(G.True)
    case False => G.Leaf(G.False)
    case Integer(n) => G.Leaf(G.Integer(n))
    case Str(s) => G.Leaf(G.String(s))
    case Array(items) => G.Arr(TreesOf(items, flags))
    case Object(members, _) =>
      ArrangedMembers(flags, d);
      G.Obj(FieldsOf(Arrange(flags, members.order), flags, d))
  }

  function TreesOf(items: seq<Doc>, flags: Flags): (ts: seq<G.Tree>)
    requires AllPrintable(items)
    ensures |ts| == |items|
    decreases items, 0
  {
    if items == [] then [] else [TreeOf(items[0], flags)] + TreesOf(items[1..], flags)
  }

  function FieldsOf(ms: seq<T.Pair<Text, Doc>>, flags: Flags, ghost d: Doc): (fs: seq<G.Field>)
    requires MembersOf(ms, d)
    ensures |fs| == |ms|
    decreases d, 0, |ms|
  {
    if ms == [] then [] else [G.Field(ms[0].key, TreeOf(ms[0].value, flags))] + FieldsOf(ms[1..], flags, d)
  }

  // ---------------------------------------------------------------- printing yields the tree

  lemma StringTokens(s: Text, ascii: bool, rest: Text, end: End)
    requires PrintableText(s)
    ensures Tokenize(StringText(s, ascii) + rest, end) == [G.String(s)] + Tokenize(rest, end)
  {
    hide Tokenize, ScanAt, BodyText, Utf8.Decode, Utf8.Valid, Utf8.AllScalar, Utf8.EncodeAll;
    StringRoundTrip(s, ascii, rest);
    TokenStep(StringText(s, ascii) + rest, G.String(s), rest, end);
  }

  lemma IntTokens(n: int, rest: Text, end: End)
    requires FitsInteger(n) && Delimits(rest)
    ensures Tokenize(IntText(n) + rest, end) == [G.Integer(n)] + Tokenize(rest, end)
  {
    hide Tokenize, ScanAt, Digits, DigitsValue;
    IntRoundTrip(n, rest);
    DigitsAreDigits(if n < 0 then -n else n);
    TokenStep(IntText(n) + rest, G.Integer(n), rest, end);
  }

  lemma WordTokens(t: Text, rest: Text, end: End)
    requires (t == TRUE || t == FALSE || t == NULL) && Delimits(rest)
    ensures Tokenize(t + rest, end) == [Word(t)] + Tokenize(rest, end)
  {
    hide Tokenize, ScanAt;
    WordRoundTrip(t, rest);
    TokenStep(t + rest, Word(t), rest, end);
  }

  /** Scanning what `do_dump` prints gives the tokens of the value's tree. */
  lemma {:induction false} PrintTokens(d: Doc, flags: Flags, depth: nat, rest: Text, end: End)
    requires Printable(d) && Delimits(rest)
    ensures Tokenize(Print(d, flags, depth) + rest, end) == G.Yield(TreeOf(d, flags)) + Tokenize(rest, end)
    decreases d, 1
  {
    hide Tokenize, StringText, IntText, Delimits, Arrange;
    match d
    case Null => WordTokens(NULL, rest, end);
    case True => WordTokens(TRUE, rest, end);
    case False => WordTokens(FALSE, rest, end);
    case Integer(n) => IntTokens(n, rest, end);
    case Str(s) => StringTokens(s, flags.ensureAscii, rest, end);
    case Array(items) => ArrayTokens(d, flags, depth, rest, end);
    case Object(_, _) => ObjectTokens(d, flags, depth, rest, end);
  }

  lemma FilledArray(d: Doc, flags: Flags, depth: nat, rest: Text)
    requires Printable(d) && d.Array? && d.items != []
    ensures Print(d, flags, depth) + rest
            == ['[' as int] +
                (Indent(flags, depth + 1, false) + (PrintItems(d.items, flags, depth) + ([']' as int] + rest)))
  {
    hide Indent, PrintItems;
  }

  lemma {:induction false} ArrayTokens(d: Doc, flags: Flags, depth: nat, rest: Text, end: End)
    requires Printable(d) && d.Array?
    ensures Tokenize(Print(d, flags, depth) + rest, end) == G.Yield(TreeOf(d, flags)) + Tokenize(rest, end)
    decreases d, 0
  {
    hide Tokenize, Indent, Delimits, Print, PrintItems, TreesOf, G.Yield, G.YieldItems, AllBlank;
    var b := Indent(flags, depth + 1, false);
    IndentIsBlank(flags, depth + 1, false);
    MarkStep(']' as int, rest, end);
    YieldArr(TreesOf(d.items, flags), Tokenize(rest, end));
    NoYield();
    if d.items == [] {
      EmptyArray(d, flags, depth);
      assert ['[' as int, ']' as int] + rest == ['[' as int] + ([']' as int] + rest);
      MarkStep('[' as int, [']' as int] + rest, end);
    } else {
      var tail := PrintItems(d.items, flags, depth) + ([']' as int] + rest);
      FilledArray(d, flags, depth, rest);
      MarkStep('[' as int, b + tail, end);
      BlanksSkipped(b, tail, end);
      ItemsTokens(d.items, flags, depth, rest, end);
    }
  }

  lemma EmptyArray(d: Doc, flags: Flags, depth: nat)
    requires Printable(d) && d.Array? && d.items == []
    ensures Print(d, flags, depth) == ['[' as int, ']' as int]
    ensures TreeOf(d, flags) == G.Arr([]) && TreesOf(d.items, flags) == []
  {
  }

  lemma NoYield()
    ensures G.YieldItems([]) == [] && G.YieldFields([]) == []
  {
  }

  lemma YieldArr(ts: seq<G.Tree>, toks: seq<G.Token>)
    ensures G.Yield(G.Arr(ts)) + toks == [G.LBracket] + (G.YieldItems(ts) + ([G.RBracket] + toks))
  {
    hide G.YieldItems;
  }

  lemma YieldObj(fs: seq<G.Field>, toks: seq<G.Token>)
    ensures G.Yield(G.Obj(fs)) + toks == [G.LBrace] + (G.YieldFields(fs) + ([G.RBrace] + toks))
  {
    hide G.YieldFields;
  }

  // one layer of the printer and of the tree

  lemma LastItem(items: seq<Doc>, flags: Flags, depth: nat, close: Text, toks: seq<G.Token>)
    requires AllPrintable(items) && |items| == 1
    ensures PrintItems(items, flags, depth) + close ==
              Print(items[0], flags, depth + 1) + (Indent(flags, depth, false) + close)
    ensures G.YieldItems(TreesOf(items, flags)) + toks == G.Yield(TreeOf(items[0], flags)) + toks
  {
    hide Print, TreeOf, G.Yield, Indent;
    assert PrintItems(items[1..], flags, depth) == [];
    assert TreesOf(items[1..], flags) == [];
  }

  lemma EarlierItem(items: seq<Doc>, flags: Flags, depth: nat, close: Text, toks: seq<G.Token>)
    requires AllPrintable(items) && |items| > 1
    ensures PrintItems(items, flags, depth) + close
            == Print(items[0], flags, depth + 1) +
                ([',' as int] + (Indent(flags, depth + 1, true) + (PrintItems(items[1..], flags, depth) + close)))
    ensures G.YieldItems(TreesOf(items, flags)) + toks
            == G.Yield(TreeOf(items[0], flags)) + ([G.Comma] + (G.YieldItems(TreesOf(items[1..], flags)) + toks))
  {
    hide Print, TreeOf, G.Yield, Indent, PrintItems;
    EarlierText(items, flags, depth);
    Regroup(Print(items[0], flags, depth + 1), [',' as int], Indent(flags, depth + 1, true),
            PrintItems(items[1..], flags, depth), close);
    assert TreesOf(items, flags)[1..] == TreesOf(items[1..], flags);
    Regroup(G.Yield(TreeOf(items[0], flags)), [G.Comma], G.YieldItems(TreesOf(items[1..], flags)), [], toks);
  }

  lemma EarlierText(items: seq<Doc>, flags: Flags, depth: nat)
    requires AllPrintable(items) && |items| > 1
    ensures PrintItems(items, flags, depth)
            == Print(items[0], flags, depth + 1) + ([',' as int] + Indent(flags, depth + 1, true)) +
                PrintItems(items[1..], flags, depth)
  {
    hide Print, Indent;
  }

  lemma Regroup<X>(a: seq<X>, b: seq<X>, c: seq<X>, d: seq<X>, e: seq<X>)
    ensures a + (b + c) + d + e == a + (b + (c + (d + e)))
    ensures d == [] ==> a + b + c + e == a + (b + (c + e))
  {
  }

  /** A comma, the blanks behind it, and what follows. */
  lemma CommaThen(b: Text, tail: Text, end: End)
    requires AllBlank(b)
    ensures Delimits([',' as int] + (b + tail))
    ensures Tokenize([',' as int] + (b + tail), end) == [G.Comma] + Tokenize(tail, end)
  {
    hide Tokenize, SkipBlanks;
    MarkStep(',' as int, b + tail, end);
    BlanksSkipped(b, tail, end);
  }

  lemma {:induction false} ItemsTokens(items: seq<Doc>, flags: Flags, depth: nat, rest: Text, end: End)
    requires AllPrintable(items) && items != []
    ensures Tokenize(PrintItems(items, flags, depth) + ([']' as int] + rest), end)
            == G.YieldItems(TreesOf(items, flags)) + ([G.RBracket] + Tokenize(rest, end))
    decreases items, 0
  {
    hide Tokenize, Indent, Delimits, Print, PrintItems, TreeOf, TreesOf, G.Yield, G.YieldItems, AllBlank;
    var close, toks := [']' as int] + rest, [G.RBracket] + Tokenize(rest, end);
    if |items| == 1 {
      var b := Indent(flags, depth, false);
      IndentIsBlank(flags, depth, false);
      MarkAfterBlanks(b, ']' as int, rest, end);
      LastItem(items, flags, depth, close, toks);
      PrintTokens(items[0], flags, depth + 1, b + close, end);
    } else {
      var b := Indent(flags, depth + 1, true);
      IndentIsBlank(flags, depth + 1, true);
      var tail := PrintItems(items[1..], flags, depth) + close;
      CommaThen(b, tail, end);
      ItemsTokens(items[1..], flags, depth, rest, end);
      EarlierItem(items, flags, depth, close, toks);
      PrintTokens(items[0], flags, depth + 1, [',' as int] + (b + tail), end);
    }
  }

  lemma EmptyObject(d: Doc, flags: Flags, depth: nat)
    requires Printable(d) && d.Object? && d.members.order == []
    ensures Print(d, flags, depth) == ['{' as int, '}' as int]
    ensures TreeOf(d, flags) == G.Obj([])
  {
    ArrangeMembers(flags, d.members.order);
    ArrangedMembers(flags, d);
  }

  lemma FilledObject(d: Doc, flags: Flags, depth: nat, rest: Text)
    requires Printable(d) && d.Object? && d.members.order != []
    ensures var ms := Arrange(flags, d.members.order);
            && ms != [] && MembersOf(ms, d)
            && TreeOf(d, flags) == G.Obj(FieldsOf(ms, flags, d))
            && Print(d, flags, depth) + rest
               == ['{' as int] +
                   (Indent(flags, depth + 1, false) + (PrintMembers(ms, flags, depth, d) + (['}' as int] + rest)))
  {
    hide Indent, PrintMembers, FieldsOf, MembersOf, Arrange;
    ArrangeMembers(flags, d.members.order);
    ArrangedMembers(flags, d);
  }

  lemma {:induction false} ObjectTokens(d: Doc, flags: Flags, depth: nat, rest: Text, end: End)
    requires Printable(d) && d.Object?
    ensures Tokenize(Print(d, flags, depth) + rest, end) == G.Yield(TreeOf(d, flags)) + Tokenize(rest, end)
    decreases d, 0
  {
    hide Tokenize, Indent, Delimits, Print, PrintMembers, TreeOf, FieldsOf, G.Yield, G.YieldFields, MembersOf,
        AllBlank, Arrange;
    var b := Indent(flags, depth + 1, false);
    IndentIsBlank(flags, depth + 1, false);
    MarkStep('}' as int, rest, end);
    YieldObj([], Tokenize(rest, end));
    NoYield();
    if d.members.order == [] {
      EmptyObject(d, flags, depth);
      assert ['{' as int, '}' as int] + rest == ['{' as int] + (['}' as int] + rest);
      MarkStep('{' as int, ['}' as int] + rest, end);
    } else {
      var ms := Arrange(flags, d.members.order);
      FilledObject(d, flags, depth, rest);
      var tail := PrintMembers(ms, flags, depth, d) + (['}' as int] + rest);
      MarkStep('{' as int, b + tail, end);
      BlanksSkipped(b, tail, end);
      MembersTokens(ms, flags, depth, d, rest, end);
      YieldObj(FieldsOf(ms, flags, d), Tokenize(rest, end));
    }
  }

  lemma MemberText(m: T.Pair<Text, Doc>, flags: Flags, depth: nat, d: Doc, rest: Text)
    requires m.value < d && PrintableText(m.key) && Printable(m.value)
    ensures PrintMember(m, flags, depth, d) + rest
            == StringText(m.key, flags.ensureAscii) + (Separator(flags) + (Print(m.value, flags, depth + 1) + rest))
  {
    hide StringText, Separator, Print, Printable;
  }

  lemma SeparatorTokens(flags: Flags, rest: Text, end: End)
    ensures Tokenize(Separator(flags) + rest, end) == [G.Colon] + Tokenize(rest, end)
  {
    hide Tokenize;
    var b: Text := if flags.compact then [] else [' ' as int];
    assert Separator(flags) + rest == [':' as int] + (b + rest);
    MarkStep(':' as int, b + rest, end);
    BlanksSkipped(b, rest, end);
  }

  lemma {:induction false} MemberTokens(m: T.Pair<Text, Doc>, flags: Flags, depth: nat, d: Doc, rest: Text, end: End)
    requires m.value < d && PrintableText(m.key) && Printable(m.value) && Delimits(rest)
    ensures Tokenize(PrintMember(m, flags, depth, d) + rest, end)
            == G.YieldField(G.Field(m.key, TreeOf(m.value, flags))) + Tokenize(rest, end)
    decreases d, 0, 0, 0
  {
    hide Tokenize, Delimits, Print, PrintMember, TreeOf, StringText, Separator, PrintableText, G.Yield;
    var value := Print(m.value, flags, depth + 1) + rest;
    MemberText(m, flags, depth, d, rest);
    PrintTokens(m.value, flags, depth + 1, rest, end);
    SeparatorTokens(flags, value, end);
    StringTokens(m.key, flags.ensureAscii, Separator(flags) + value, end);
  }

  lemma LastMember(ms: seq<T.Pair<Text, Doc>>, flags: Flags, depth: nat, d: Doc, close: Text, toks: seq<G.Token>)
    requires MembersOf(ms, d) && |ms| == 1
    ensures PrintMembers(ms, flags, depth, d) + close ==
              PrintMember(ms[0], flags, depth, d) + (Indent(flags, depth, false) + close)
    ensures G.YieldFields(FieldsOf(ms, flags, d)) + toks
            == G.YieldField(G.Field(ms[0].key, TreeOf(ms[0].value, flags))) + toks
  {
    hide PrintMember, TreeOf, G.YieldField, Indent;
    assert PrintMembers(ms[1..], flags, depth, d) == [];
    assert FieldsOf(ms[1..], flags, d) == [];
  }

  lemma EarlierMember(ms: seq<T.Pair<Text, Doc>>, flags: Flags, depth: nat, d: Doc, close: Text)
    requires MembersOf(ms, d) && |ms| > 1
    ensures PrintMembers(ms, flags, depth, d) + close
            == PrintMember(ms[0], flags, depth, d) +
                ([',' as int] + (Indent(flags, depth + 1, true) + (PrintMembers(ms[1..], flags, depth, d) + close)))
  {
    hide PrintMember, Indent, PrintableText, Printable;
  }

  lemma EarlierField(ms: seq<T.Pair<Text, Doc>>, flags: Flags, d: Doc, toks: seq<G.Token>)
    requires MembersOf(ms, d) && |ms| > 1
    ensures G.YieldFields(FieldsOf(ms, flags, d)) + toks
            == G.YieldField(G.Field(ms[0].key, TreeOf(ms[0].value, flags))) +
                ([G.Comma] + (G.YieldFields(FieldsOf(ms[1..], flags, d)) + toks))
  {
    hide TreeOf, G.YieldField, PrintableText, Printable;
    assert FieldsOf(ms, flags, d)[1..] == FieldsOf(ms[1..], flags, d);
  }

  lemma {:induction false} MembersTokens(ms: seq<T.Pair<Text, Doc>>, flags: Flags, depth: nat, d: Doc, rest: Text,
          end: End)
    requires MembersOf(ms, d) && ms != []
    ensures Tokenize(PrintMembers(ms, flags, depth, d) + (['}' as int] + rest), end)
            == G.YieldFields(FieldsOf(ms, flags, d)) + ([G.RBrace] + Tokenize(rest, end))
    decreases d, 0, 0, |ms|
  {
    hide Tokenize, Indent, Delimits, Print, PrintMember, PrintMembers, TreeOf, FieldsOf, G.Yield, G.YieldField,
        G.YieldFields, AllBlank, Printable;
    var close, toks := ['}' as int] + rest, [G.RBrace] + Tokenize(rest, end);
    if |ms| == 1 {
      var b := Indent(flags, depth, false);
      IndentIsBlank(flags, depth, false);
      MarkAfterBlanks(b, '}' as int, rest, end);
      LastMember(ms, flags, depth, d, close, toks);
      MemberTokens(ms[0], flags, depth, d, b + close, end);
    } else {
      var b := Indent(flags, depth + 1, true);
      IndentIsBlank(flags, depth + 1, true);
      var tail := PrintMembers(ms[1..], flags, depth, d) + close;
      CommaThen(b, tail, end);
      MembersTokens(ms[1..], flags, depth, d, rest, end);
      EarlierMember(ms, flags, depth, d, close);
      EarlierField(ms, flags, d, toks);
      MemberTokens(ms[0], flags, depth, d, [',' as int] + (b + tail), end);
    }
  }
}
