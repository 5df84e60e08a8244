/**
 Where printed text has blanks.  The recursive printer is a formatter that sees one token after another: what it puts
 between two tokens depends on the two and on the number of containers that are open.
 */
module Layouts {
  import opened Bytes
  import opened Json
  import opened Printing
  import G = Grammar
  import R = RoundTrip
  import T = Tables
  import Utf8

  // ---------------------------------------------------------------- the formatter

  predicate Opens(t: G.Token) { t.LBrace? || t.LBracket? }

  predicate Closes(t: G.Token) { t.RBrace? || t.RBracket? }

  /** With an indentation, a new line and that many spaces for each open container. */
  ghost function NewLine(flags: Flags, depth: int): Text {
    if flags.indent == 0 then [] else [0x0A] + seq(if depth < 0 then 0 else flags.indent * depth, _ => 0x20)
  }

  /** What stands between `a` and `b`, where `depth` containers are open. */
  ghost function Gap(a: G.Token, b: G.Token, flags: Flags, depth: int): Text {
    if Closes(b) then if Opens(a) then [] else NewLine(flags, depth - 1)
    else if Opens(a) then NewLine(flags, depth)
    else if a.Comma? && flags.indent > 0 then NewLine(flags, depth)
    else if (a.Comma? || a.Colon?) && !flags.compact then [0x20]
    else []
  }

  ghost function Spelling(t: G.Token, ascii: bool): Text {
    match t
    case LBrace => [0x7B]
    case RBrace => [0x7D]
    case LBracket => [0x5B]
    case RBracket => [0x5D]
    case Colon => [0x3A]
    case Comma => [0x2C]
    case True => [0x74, 0x72, 0x75, 0x65]
    case False => [0x66, 0x61, 0x6C, 0x73, 0x65]
    case Null => [0x6E, 0x75, 0x6C, 0x6C]
    case Integer(n) => IntText(n)
    case String(s) => if Utf8.Valid(s) then StringText(s, ascii) else []
    case _ => []
  }

  function Level(t: G.Token, depth: int): int {
    if Opens(t) then depth + 1 else if Closes(t) then depth - 1 else depth
  }

  /** The tokens one after another, with `depth` containers open in front of them. */
  ghost function Layout(toks: seq<G.Token>, flags: Flags, depth: int): Text {
    if toks == [] then []
    else
      var d := Level(toks[0], depth);
      Spelling(toks[0], flags.ensureAscii) +
      ((if |toks| == 1 then [] else Gap(toks[0], toks[1], flags, d)) + Layout(toks[1..], flags, d))
  }

  /** The spellings without anything between them. */
  ghost function Spellings(toks: seq<G.Token>, ascii: bool): Text {
    if toks == [] then [] else Spelling(toks[0], ascii) + Spellings(toks[1..], ascii)
  }

  // ---------------------------------------------------------------- steps

  /** What follows a value: nothing, a comma, or the end of its container. */
  predicate Follows(rest: seq<G.Token>) {
    rest == [] || rest[0].Comma? || Closes(rest[0])
  }

  /** What is put behind a value, with the tokens that follow it. */
  ghost function After(rest: seq<G.Token>, flags: Flags, depth: int): Text {
    if rest == [] then []
    else (if Closes(rest[0]) then NewLine(flags, depth - 1) else []) + Layout(rest, flags, depth)
  }

  lemma Step(t: G.Token, rest: seq<G.Token>, flags: Flags, depth: int)
    requires rest != []
    ensures Layout([t] + rest, flags, depth)
            == Spelling(t, flags.ensureAscii) +
                (Gap(t, rest[0], flags, Level(t, depth)) + Layout(rest, flags, Level(t, depth)))
  {
    hide Gap, Spelling, Level;
    assert ([t] + rest)[1..] == rest;
  }

  /** A scalar, or the end of a container. */
  lemma LastStep(t: G.Token, rest: seq<G.Token>, flags: Flags, depth: int)
    requires Follows(rest) && !Opens(t) && !t.Comma? && !t.Colon?
    ensures Layout([t] + rest, flags, depth)
            == Spelling(t, flags.ensureAscii) + After(rest, flags, Level(t, depth))
  {
    hide Spelling, NewLine;
    if rest == [] {
      assert [t] + rest == [t] && [t][1..] == [];
    } else {
      Step(t, rest, flags, depth);
    }
  }

  lemma {:induction false} SpacesAre(n: nat)
    ensures Spaces(n) == seq(n, _ => 0x20)
  {
    if n > 0 {
      SpacesAre(n - 1);
    }
  }

  lemma IndentIsNewLine(flags: Flags, depth: nat)
    ensures Indent(flags, depth, false) == NewLine(flags, depth)
    ensures Indent(flags, depth, true)
            == if flags.indent > 0 then NewLine(flags, depth) else if flags.compact then [] else [0x20]
  {
    SpacesAre(flags.indent * depth);
  }

  lemma StartsValue(d: Doc, flags: Flags)
    requires Printable(d)
    ensures var toks := G.Yield(R.TreeOf(d, flags)); toks != [] && !Closes(toks[0])
  {
    hide R.FieldsOf, R.TreesOf, G.YieldItems, G.YieldFields, Arrange;
  }

  // ---------------------------------------------------------------- values

  lemma ScalarLayout(d: Doc, flags: Flags, depth: nat, rest: seq<G.Token>)
    requires Printable(d) && !d.Array? && !d.Object? && Follows(rest)
    ensures Layout(G.Yield(R.TreeOf(d, flags)) + rest, flags, depth)
            == Print(d, flags, depth) + After(rest, flags, depth)
  {
    hide After, Layout, IntText, StringText;
    LastStep(R.TreeOf(d, flags).token, rest, flags, depth);
  }

  /** Printing a value at some depth is laying out its tokens there. */
  lemma {:induction false} ValueLayout(d: Doc, flags: Flags, depth: nat, rest: seq<G.Token>)
    requires Printable(d) && Follows(rest)
    ensures Layout(G.Yield(R.TreeOf(d, flags)) + rest, flags, depth)
            == Print(d, flags, depth) + After(rest, flags, depth)
    decreases d, 1
  {
    hide After, Layout, Print, R.TreeOf, G.Yield, Printable;
    if d.Array? {
      ArrayLayout(d, flags, depth, rest);
    } else if d.Object? {
      ObjectLayout(d, flags, depth, rest);
    } else {
      ScalarLayout(d, flags, depth, rest);
    }
  }

  /** An opening mark with something inside it. */
  lemma OpenStep(t: G.Token, tail: seq<G.Token>, flags: Flags, depth: nat)
    requires Opens(t) && tail != [] && !Closes(tail[0])
    ensures Layout([t] + tail, flags, depth)
            == Spelling(t, flags.ensureAscii) + (Indent(flags, depth + 1, false) + Layout(tail, flags, depth + 1))
  {
    hide Layout, Spelling, NewLine, Indent;
    Step(t, tail, flags, depth);
    IndentIsNewLine(flags, depth + 1);
  }

  lemma EmptyStep(open: G.Token, close: G.Token, rest: seq<G.Token>, flags: Flags, depth: nat)
    requires Opens(open) && Closes(close) && Follows(rest)
    ensures Layout([open] + ([close] + rest), flags, depth)
            == Spelling(open, flags.ensureAscii) +
                (Spelling(close, flags.ensureAscii) + After(rest, flags, depth))
  {
    hide Layout, Spelling, NewLine, After;
    Step(open, [close] + rest, flags, depth);
    LastStep(close, rest, flags, depth + 1);
    var tail := Layout([close] + rest, flags, depth + 1);
    assert [] + tail == tail;
  }

  lemma {:induction false} ArrayLayout(d: Doc, flags: Flags, depth: nat, rest: seq<G.Token>)
    requires Printable(d) && d.Array? && Follows(rest)
    ensures Layout(G.Yield(R.TreeOf(d, flags)) + rest, flags, depth)
            == Print(d, flags, depth) + After(rest, flags, depth)
    decreases d, 0
  {
    hide After, Layout, Print, PrintItems, Indent, R.TreesOf, G.Yield, G.YieldItems;
    R.YieldArr(R.TreesOf(d.items, flags), rest);
    R.NoYield();
    var more := After(rest, flags, depth);
    if d.items == [] {
      R.EmptyArray(d, flags, depth);
      assert [] + ([G.RBracket] + rest) == [G.RBracket] + rest;
      EmptyStep(G.LBracket, G.RBracket, rest, flags, depth);
      assert [0x5B, 0x5D] + more == [0x5B] + ([0x5D] + more);
    } else {
      var tail := G.YieldItems(R.TreesOf(d.items, flags)) + ([G.RBracket] + rest);
      ItemsLayout(d.items, flags, depth, rest);
      OpenStep(G.LBracket, tail, flags, depth);
      R.FilledArray(d, flags, depth, more);
    }
  }

  /** The end of a container that is not empty. */
  lemma CloseStep(close: G.Token, rest: seq<G.Token>, flags: Flags, depth: nat)
    requires Closes(close) && Follows(rest)
    ensures After([close] + rest, flags, depth + 1)
            == Indent(flags, depth, false) + (Spelling(close, flags.ensureAscii) + After(rest, flags, depth))
  {
    hide Layout, Spelling, NewLine, Indent;
    IndentIsNewLine(flags, depth);
    LastStep(close, rest, flags, depth + 1);
  }

  lemma CommaStep(tail: seq<G.Token>, flags: Flags, depth: nat)
    requires tail != [] && !Closes(tail[0])
    ensures After([G.Comma] + tail, flags, depth + 1)
            == [',' as int] + (Indent(flags, depth + 1, true) + Layout(tail, flags, depth + 1))
  {
    hide Layout, NewLine, Indent;
    IndentIsNewLine(flags, depth + 1);
    Step(G.Comma, tail, flags, depth + 1);
    var all := Layout([G.Comma] + tail, flags, depth + 1);
    assert [] + all == all;
  }

  lemma {:induction false} ItemsLayout(items: seq<Doc>, flags: Flags, depth: nat, rest: seq<G.Token>)
    requires AllPrintable(items) && items != [] && Follows(rest)
    ensures var tail := G.YieldItems(R.TreesOf(items, flags)) + ([G.RBracket] + rest);
            && tail != [] && !Closes(tail[0])
            && Layout(tail, flags, depth + 1)
               == PrintItems(items, flags, depth) + ([']' as int] + After(rest, flags, depth))
    decreases items, 0
  {
    hide After, Layout, Print, PrintItems, Indent, R.TreeOf, R.TreesOf, G.Yield, G.YieldItems;
    var close, toks := [']' as int] + After(rest, flags, depth), [G.RBracket] + rest;
    StartsValue(items[0], flags);
    if |items| == 1 {
      R.LastItem(items, flags, depth, close, toks);
      ValueLayout(items[0], flags, depth + 1, toks);
      CloseStep(G.RBracket, rest, flags, depth);
    } else {
      var tail := G.YieldItems(R.TreesOf(items[1..], flags)) + toks;
      R.EarlierItem(items, flags, depth, close, toks);
      ItemsLayout(items[1..], flags, depth, rest);
      ValueLayout(items[0], flags, depth + 1, [G.Comma] + tail);
      CommaStep(tail, flags, depth);
    }
  }

  lemma {:induction false} ObjectLayout(d: Doc, flags: Flags, depth: nat, rest: seq<G.Token>)
    requires Printable(d) && d.Object? && Follows(rest)
    ensures Layout(G.Yield(R.TreeOf(d, flags)) + rest, flags, depth)
            == Print(d, flags, depth) + After(rest, flags, depth)
    decreases d, 0
  {
    hide After, Layout, Print, PrintMembers, Indent, R.TreeOf, R.FieldsOf, G.Yield, G.YieldFields, MembersOf, Arrange;
    R.NoYield();
    var more := After(rest, flags, depth);
    if d.members.order == [] {
      R.EmptyObject(d, flags, depth);
      R.YieldObj([], rest);
      assert [] + ([G.RBrace] + rest) == [G.RBrace] + rest;
      EmptyStep(G.LBrace, G.RBrace, rest, flags, depth);
      assert [0x7B, 0x7D] + more == [0x7B] + ([0x7D] + more);
    } else {
      var ms := Arrange(flags, d.members.order);
      R.FilledObject(d, flags, depth, more);
      R.YieldObj(R.FieldsOf(ms, flags, d), rest);
      var tail := G.YieldFields(R.FieldsOf(ms, flags, d)) + ([G.RBrace] + rest);
      MembersLayout(ms, flags, depth, d, rest);
      OpenStep(G.LBrace, tail, flags, depth);
    }
  }

  lemma {:induction false} MemberLayout(m: T.Pair<Text, Doc>, flags: Flags, depth: nat, d: Doc, rest: seq<G.Token>)
    requires m.value < d && PrintableText(m.key) && Printable(m.value) && Follows(rest)
    ensures var toks := G.YieldField(G.Field(m.key, R.TreeOf(m.value, flags))) + rest;
            && toks != [] && !Closes(toks[0])
            && Layout(toks, flags, depth + 1)
               == PrintMember(m, flags, depth, d) + After(rest, flags, depth + 1)
    decreases d, 0, 0, 0
  {
    hide After, Layout, Print, PrintMember, StringText, R.TreeOf, G.Yield;
    var value := G.Yield(R.TreeOf(m.value, flags)) + rest;
    StartsValue(m.value, flags);
    ValueLayout(m.value, flags, depth + 1, rest);
    var key := G.String(m.key);
    assert G.YieldField(G.Field(m.key, R.TreeOf(m.value, flags))) + rest == [key] + ([G.Colon] + value);
    Step(key, [G.Colon] + value, flags, depth + 1);
    Step(G.Colon, value, flags, depth + 1);
    R.MemberText(m, flags, depth, d, After(rest, flags, depth + 1));
    ColonGap(flags, Layout(value, flags, depth + 1));
  }

  lemma ColonGap(flags: Flags, tail: Text)
    ensures [] + ([0x3A] + ((if flags.compact then [] else [0x20]) + tail)) == Separator(flags) + tail
  {
    assert flags.compact ==> [] + tail == tail;
  }

  lemma {:induction false} MembersLayout(ms: seq<T.Pair<Text, Doc>>, flags: Flags, depth: nat, d: Doc,
          rest: seq<G.Token>)
    requires MembersOf(ms, d) && ms != [] && Follows(rest)
    ensures var tail := G.YieldFields(R.FieldsOf(ms, flags, d)) + ([G.RBrace] + rest);
            && tail != [] && !Closes(tail[0])
            && Layout(tail, flags, depth + 1)
               == PrintMembers(ms, flags, depth, d) + (['}' as int] + After(rest, flags, depth))
    decreases d, 0, 0, |ms|
  {
    hide After, Layout, Print, PrintMember, PrintMembers, Indent, R.TreeOf, R.FieldsOf, G.Yield, G.YieldField,
        G.YieldFields, Printable, PrintableText;
    var close, toks := ['}' as int] + After(rest, flags, depth), [G.RBrace] + rest;
    if |ms| == 1 {
      R.LastMember(ms, flags, depth, d, close, toks);
      MemberLayout(ms[0], flags, depth, d, toks);
      CloseStep(G.RBrace, rest, flags, depth);
    } else {
      var tail := G.YieldFields(R.FieldsOf(ms[1..], flags, d)) + toks;
      R.EarlierMember(ms, flags, depth, d, close);
      R.EarlierField(ms, flags, d, toks);
      MembersLayout(ms[1..], flags, depth, d, rest);
      MemberLayout(ms[0], flags, depth, d, [G.Comma] + tail);
      CommaStep(tail, flags, depth);
    }
  }

  // ---------------------------------------------------------------- whole texts

  /** The printed text of a value, under any flags, is its tokens as the formatter lays them out. */
  lemma PrintIsLayout(d: Doc, flags: Flags, depth: nat)
    requires Printable(d)
    ensures Print(d, flags, depth) == Layout(G.Yield(R.TreeOf(d, flags)), flags, depth)
  {
    hide Layout, Print, R.TreeOf, G.Yield, Printable;
    ValueLayout(d, flags, depth, []);
    assert G.Yield(R.TreeOf(d, flags)) + [] == G.Yield(R.TreeOf(d, flags));
    assert Print(d, flags, depth) + [] == Print(d, flags, depth);
  }

  lemma {:induction false} NoGaps(toks: seq<G.Token>, flags: Flags, depth: int)
    requires flags.indent == 0 && flags.compact
    ensures Layout(toks, flags, depth) == Spellings(toks, flags.ensureAscii)
    decreases |toks|
  {
    hide Spelling, Level;
    if toks != [] {
      NoGaps(toks[1..], flags, Level(toks[0], depth));
    }
  }

  /** With JSON_COMPACT and no indentation there is nothing between the tokens. */
  lemma CompactHasNoBlanks(d: Doc, flags: Flags, depth: nat)
    requires Printable(d) && flags.indent == 0 && flags.compact
    ensures Print(d, flags, depth) == Spellings(G.Yield(R.TreeOf(d, flags)), flags.ensureAscii)
  {
    hide Print, R.TreeOf, G.Yield, Printable;
    PrintIsLayout(d, flags, depth);
    NoGaps(G.Yield(R.TreeOf(d, flags)), flags, depth);
  }
}
