/** What `json_loads` accepts can be printed again: the lexer lets nothing else through. */
module Reparse {
  import opened Bytes
  import opened Json
  import opened Printing
  import opened Tokens
  import D = DocumentTrip
  import G = Grammar
  import I = Input
  import L = Loading
  import S = StringTrip
  import T = Tables
  import Utf8

  // ---------------------------------------------------------------- splitting valid text

  lemma GoodTail(s: Text)
    requires PrintableText(s) && s != [] && s[0] < 0x80
    ensures PrintableText(s[1..])
  {
    assert Utf8.UnitLength(s) == 1;
  }

  /** Valid text can be cut in front of any ASCII character. */
  lemma {:induction false} CutAtAscii(s: Text, k: nat)
    requires Utf8.Valid(s) && k < |s| && s[k] < 0x80
    ensures Utf8.Valid(s[..k]) && Utf8.Valid(s[k..])
    decreases |s|
  {
    hide Utf8.UnitLength, Utf8.UnitValue, Utf8.Encoded;
    if k == 0 {
      assert s[0..] == s;
    } else {
      var n := Utf8.UnitLength(s);
      Utf8.UnitIsEncoded(s);
      if k < n {
        UnitTail(s, k);
      }
      assert s[n..][k - n] == s[k];
      CutAtAscii(s[n..], k - n);
      assert s[n..][k - n..] == s[k..];
      var p := s[..k];
      assert Utf8.Encoded(Utf8.UnitValue(s)) <= p;
      Utf8.UnitOfEncoded(Utf8.UnitValue(s), p);
      assert p[n..] == s[n..][..k - n];
    }
  }

  lemma CutGood(s: Text, k: nat)
    requires PrintableText(s) && k < |s| && s[k] < 0x80
    ensures PrintableText(s[..k]) && PrintableText(s[k..])
  {
    hide Utf8.Valid;
    CutAtAscii(s, k);
  }

  /** Behind the first byte of a code point there is no ASCII character. */
  lemma UnitTail(s: Text, k: nat)
    requires 0 < k < Utf8.UnitLength(s)
    ensures s[k] >= 0x80
  {
    assert Utf8.Continuation(s[..Utf8.UnitLength(s)][k]);
  }

  // ---------------------------------------------------------------- strings

  lemma GoodDrop6(raw: Text)
    requires PrintableText(raw) && StartsEscape(raw) && AllAlnum(raw[2..6])
    ensures PrintableText(raw[6..])
  {
    var h := raw[2..6];
    assert h[0] < 0x80 && h[1] < 0x80 && h[2] < 0x80 && h[3] < 0x80;
    GoodTail(raw);
    GoodTail(raw[1..]);
    GoodTail(raw[1..][1..]);
    GoodTail(raw[1..][1..][1..]);
    GoodTail(raw[1..][1..][1..][1..]);
    GoodTail(raw[1..][1..][1..][1..][1..]);
    assert raw[1..][1..][1..][1..][1..][1..] == raw[6..];
  }

  lemma UnicodeDrop(raw: Text)
    requires PrintableText(raw) && Body(raw) && StartsEscape(raw) && UnicodeUnit(raw).Code?
    ensures var n := UnicodeUnit(raw).size; n <= |raw| && PrintableText(raw[n..]) && Body(raw[n..])
  {
    BodyDrop(raw);
    GoodDrop6(raw);
    if UnicodeUnit(raw).size == 12 {
      GoodDrop6(raw[6..]);
      assert raw[6..][6..] == raw[12..];
    }
  }

  lemma GoodJoin(a: Text, b: Text)
    requires PrintableText(a) && PrintableText(b)
    ensures PrintableText(a + b)
  {
    Utf8.ValidConcat(a, b);
  }

  lemma GoodEncoded(cp: int)
    requires Utf8.Scalar(cp) && cp != 0
    ensures PrintableText(Utf8.Encoded(cp))
  {
    Utf8.UnitOfEncoded(cp, Utf8.Encoded(cp));
  }

  lemma {:induction false} PlainFront(front: Text, rest: Text)
    requires S.Plain(front) && Body(front + rest)
    ensures Body(rest)
    decreases |front|
  {
    if front == [] {
      assert front + rest == rest;
    } else {
      assert (front + rest)[1..] == front[1..] + rest;
      assert (front + rest)[0] == front[0];
      PlainFront(front[1..], rest);
    }
  }

  lemma UnitIsPlain(raw: Text)
    requires PrintableText(raw) && Body(raw) && raw != [] && raw[0] != '\\' as int
    ensures var n := Utf8.UnitLength(raw);
            n > 0 && S.Plain(raw[..n]) && PrintableText(raw[..n]) && PrintableText(raw[n..])
  {
    var n := Utf8.UnitLength(raw);
    Utf8.UnitIsEncoded(raw);
    S.UnitIsNotZero(raw);
    GoodEncoded(Utf8.UnitValue(raw));
    assert UnitSize(raw) > 0;
    if n > 1 {
      forall i | 0 <= i < n ensures raw[..n][i] >= 0x80 {
        if i > 0 {
          assert Utf8.Continuation(raw[..n][i]);
        }
      }
    }
  }

  /** Decoding good text gives good text. */
  lemma {:induction false} DecodedIsGood(raw: Text)
    requires PrintableText(raw) && Body(raw) && DecodeBody(raw).Text?
    ensures PrintableText(DecodeBody(raw).t)
    decreases |raw|
  {
    hide PrintableText, DecodeBody, Body;
    if raw == [] {
      NothingIsGood();
      NothingDecodes();
    } else {
      var n, front := FirstIsGood(raw);
      DecodedIsGood(raw[n..]);
      GoodJoin(front, DecodeBody(raw[n..]).t);
    }
  }

  lemma NothingDecodes()
    ensures DecodeBody([]) == Decoded.Text([])
  {
  }

  /** The first unit of a literal comes to good text, and good text is behind it. */
  lemma FirstIsGood(raw: Text) returns (n: nat, front: Text)
    requires PrintableText(raw) && Body(raw) && DecodeBody(raw).Text? && raw != []
    ensures 0 < n <= |raw| && PrintableText(front) && PrintableText(raw[n..]) && Body(raw[n..])
    ensures DecodeBody(raw[n..]).Text? && DecodeBody(raw).t == front + DecodeBody(raw[n..]).t
  {
    hide PrintableText, Body, Utf8.UnitLength, Utf8.Encoded, SimpleEscape, UnicodeUnit;
    if raw[0] != '\\' as int {
      n := PlainIsGood(raw);
      front := raw[..n];
    } else {
      LongerEscape(raw);
      if raw[1] != 'u' as int {
        SimpleIsGood(raw);
        n, front := 2, [SimpleEscape(raw[1]).value];
      } else {
        UnicodeDrop(raw);
        var u := UnicodeUnit(raw);
        GoodEncoded(u.cp);
        n, front := u.size, Utf8.Encoded(u.cp);
      }
    }
  }

  lemma LongerEscape(raw: Text)
    requires Body(raw) && raw != [] && raw[0] == '\\' as int
    ensures |raw| >= 2 && (raw[1] == 'u' as int ==> StartsEscape(raw))
  {
  }

  lemma PlainIsGood(raw: Text) returns (n: nat)
    requires PrintableText(raw) && Body(raw) && DecodeBody(raw).Text? && raw != [] && raw[0] != '\\' as int
    ensures 0 < n <= |raw| && PrintableText(raw[..n]) && PrintableText(raw[n..]) && Body(raw[n..])
    ensures DecodeBody(raw[n..]).Text? && DecodeBody(raw).t == raw[..n] + DecodeBody(raw[n..]).t
  {
    hide PrintableText, DecodeBody, Body, Utf8.UnitLength;
    n := Utf8.UnitLength(raw);
    UnitIsPlain(raw);
    var front, rest := raw[..n], raw[n..];
    assert raw == front + rest;
    PlainFront(front, rest);
    S.PlainDecodes(front);
    assert DecodeBody(raw) == Prepend(front, DecodeBody(rest));
  }

  lemma NothingIsGood()
    ensures PrintableText([])
  {
  }

  lemma SimpleIsGood(raw: Text)
    requires PrintableText(raw) && Body(raw) && |raw| >= 2 && raw[0] == '\\' as int && raw[1] != 'u' as int
    ensures SimpleEscape(raw[1]).Some? && PrintableText([SimpleEscape(raw[1]).value]) && PrintableText(raw[2..]) &&
              Body(raw[2..])
  {
    var c := SimpleEscape(raw[1]).value;
    GoodTail(raw);
    GoodTail(raw[1..]);
    assert raw[1..][1..] == raw[2..];
    assert Utf8.UnitLength([c]) == 1;
  }

  /** The tokens that printing could have produced, reals apart. */
  ghost predicate Clean(t: G.Token) {
    (t.String? ==> PrintableText(t.s)) && (t.Integer? ==> FitsInteger(t.n))
  }

  lemma StringIsClean(s: Text)
    requires PrintableText(s)
    ensures var r := ScanString(s); Clean(r.token) && (r.token.String? ==> PrintableText(r.rest))
  {
    hide DecodeBody, LiteralEnd, Body, PrintableText;
    var n := LiteralEnd(s);
    if n.Some? {
      CutGood(s, n.value);
      var raw := s[..n.value];
      if DecodeBody(raw).Text? {
        DecodedIsGood(raw);
        assert s[n.value..][0] == s[n.value];
        GoodTail(s[n.value..]);
        assert s[n.value..][1..] == s[n.value + 1..];
      }
    }
  }

  // ---------------------------------------------------------------- tokens

  /** Behind an ASCII character valid text goes on. */
  lemma GoodBehind(s: Text, k: nat)
    requires PrintableText(s) && 0 < k <= |s| && s[k - 1] < 0x80
    ensures PrintableText(s[k..])
  {
    CutAtAscii(s, k - 1);
    assert s[k - 1..][0] == s[k - 1];
    GoodTail(s[k - 1..]);
    assert s[k - 1..][1..] == s[k..];
  }

  lemma {:induction false} RunEnds(s: Text)
    ensures DigitRun(s) > 0 ==> IsDigit(s[DigitRun(s) - 1])
    ensures AlphaRun(s) > 0 ==> IsAlpha(s[AlphaRun(s) - 1])
    decreases |s|
  {
    if s != [] {
      RunEnds(s[1..]);
    }
  }

  lemma IntegerPartEnds(s: Text)
    ensures IntegerPart(s) > 0 ==> IsDigit(s[IntegerPart(s) - 1])
  {
    RunEnds(s);
  }

  lemma ExponentEnds(s: Text)
    ensures Exponent(s).Some? && Exponent(s).value > 0 ==> IsDigit(s[Exponent(s).value - 1])
  {
    if s != [] && (s[0] == 'e' as int || s[0] == 'E' as int) {
      var sign := if |s| > 1 && (s[1] == '+' as int || s[1] == '-' as int) then 2 else 1;
      RunEnds(s[sign..]);
    }
  }

  lemma FractionEnds(s: Text)
    ensures Fraction(s).Some? && Fraction(s).value > 0 ==> IsDigit(s[Fraction(s).value - 1])
  {
    if s != [] && s[0] == '.' as int {
      RunEnds(s[1..]);
    }
  }

  lemma NumberIsClean(s: Text)
    requires PrintableText(s) && s != []
    ensures var r := ScanNumber(s); Clean(r.token) && (!r.token.Invalid? ==> PrintableText(r.rest))
  {
    hide IntegerPart, Fraction, Exponent, DigitsValue, PrintableText;
    var sign := if s[0] == '-' as int then 1 else 0;
    var n := IntegerPart(s[sign..]);
    IntegerPartEnds(s[sign..]);
    if n > 0 {
      GoodBehind(s, sign + n);
      var rest := s[sign + n..];
      if rest != [] && (rest[0] == '.' as int || rest[0] == 'e' as int || rest[0] == 'E' as int) {
        RealIsClean(s, sign + n);
      }
    }
  }

  lemma RealIsClean(s: Text, at: nat)
    requires PrintableText(s) && 0 < at <= |s| && s[at - 1] < 0x80
    ensures var f := Fraction(s[at..]);
            f.Some? ==> var e := Exponent(s[at..][f.value..]); e.Some? ==> PrintableText(s[at + f.value + e.value..])
  {
    hide Fraction, Exponent, PrintableText;
    var f := Fraction(s[at..]);
    FractionEnds(s[at..]);
    if f.Some? {
      var e := Exponent(s[at..][f.value..]);
      ExponentEnds(s[at..][f.value..]);
      if e.Some? {
        var k := at + f.value + e.value;
        assert e.value > 0 ==> s[k - 1] == s[at..][f.value..][e.value - 1];
        assert e.value == 0 && f.value > 0 ==> s[k - 1] == s[at..][f.value - 1];
        GoodBehind(s, k);
      }
    }
  }

  lemma TokenIsClean(s: Text)
    requires PrintableText(s) && s != []
    ensures var r := ScanAt(s); Clean(r.token) && (!r.token.Invalid? && !r.token.Aborted? ==> PrintableText(r.rest))
  {
    hide ScanNumber, ScanString, PrintableText;
    if Punctuation(s[0]).Some? {
      GoodBehind(s, 1);
    } else if s[0] == '"' as int {
      GoodBehind(s, 1);
      StringIsClean(s[1..]);
      StringOrNothing(s[1..]);
    } else if IsDigit(s[0]) || s[0] == '-' as int {
      NumberIsClean(s);
    } else if IsAlpha(s[0]) {
      RunEnds(s);
      GoodBehind(s, AlphaRun(s));
    }
  }

  lemma StringOrNothing(s: Text)
    ensures var t := ScanString(s).token; t.String? || t.Invalid? || t.Aborted?
  {
  }

  lemma {:induction false} BlanksAreGood(s: Text)
    requires PrintableText(s)
    ensures PrintableText(SkipBlanks(s))
    decreases |s|
  {
    if s != [] && IsBlank(s[0]) {
      GoodTail(s);
      BlanksAreGood(s[1..]);
    }
  }

  lemma {:induction false} TokensAreClean(s: Text, end: End)
    requires PrintableText(s)
    ensures forall i :: 0 <= i < |Tokenize(s, end)| ==> Clean(Tokenize(s, end)[i])
    decreases |s|
  {
    hide ScanAt, PrintableText, Clean;
    BlanksAreGood(s);
    var t := SkipBlanks(s);
    OtherTokensAreClean();
    if t != [] {
      TokenIsClean(t);
      var r := Scan(s, end);
      if !r.token.Eof? && !r.token.Invalid? && !r.token.Aborted? {
        TokensAreClean(r.rest, end);
        var toks := Tokenize(s, end);
        forall i | 0 <= i < |toks| ensures Clean(toks[i]) {
          assert i > 0 ==> toks[i] == Tokenize(r.rest, end)[i - 1];
        }
      }
    }
  }

  lemma OtherTokensAreClean()
    ensures Clean(G.Invalid) && Clean(G.Aborted) && Clean(G.Eof)
  {
  }

  // ---------------------------------------------------------------- documents

  /** A token that printing could have produced. */
  ghost predicate Writable(t: G.Token) {
    Clean(t) && !t.Real?
  }

  ghost predicate AllWritable(toks: seq<G.Token>) {
    forall i :: 0 <= i < |toks| ==> Writable(toks[i])
  }

  lemma WritableParts(a: seq<G.Token>, b: seq<G.Token>)
    requires AllWritable(a + b)
    ensures AllWritable(a) && AllWritable(b)
  {
    assert forall i {:trigger a[i]} :: 0 <= i < |a| ==> a[i] == (a + b)[i];
    assert forall i {:trigger b[i]} :: 0 <= i < |b| ==> b[i] == (a + b)[|a| + i];
  }

  /** A tree of such tokens builds a value that can be printed, with distinct keys. */
  lemma {:induction false} TreeIsPrintable(t: G.Tree)
    requires G.Proper(t) && AllWritable(G.Yield(t))
    ensures Printable(G.Build(t)) && WellFormed(G.Build(t))
    decreases t, 1
  {
    match t
    case Leaf(token) => LeafIsPrintable(token);
    case Arr(items) =>
      WritableParts([G.LBracket] + G.YieldItems(items), [G.RBracket]);
      WritableParts([G.LBracket], G.YieldItems(items));
      ItemsArePrintable(items);
    case Obj(fields) =>
      WritableParts([G.LBrace] + G.YieldFields(fields), [G.RBrace]);
      WritableParts([G.LBrace], G.YieldFields(fields));
      FieldsArePrintable(fields);
      ObjectIsPrintable(fields);
  }

  lemma LeafIsPrintable(token: G.Token)
    requires G.IsScalar(token) && AllWritable([token])
    ensures Printable(G.ScalarDoc(token)) && WellFormed(G.ScalarDoc(token))
  {
    assert Writable([token][0]);
  }

  lemma {:induction false} ItemsArePrintable(items: seq<G.Tree>)
    requires G.AllProper(items) && AllWritable(G.YieldItems(items))
    ensures AllPrintable(G.BuildItems(items)) && AllWellFormed(G.BuildItems(items))
    decreases items, 0
  {
    hide Printable, WellFormed, G.Build, G.Yield, AllWritable;
    if items != [] {
      var first, rest := G.Yield(items[0]), G.YieldItems(items[1..]);
      if |items| == 1 {
        NoItemsWritable();
      } else {
        WritableParts(first + [G.Comma], rest);
        WritableParts(first, [G.Comma]);
      }
      TreeIsPrintable(items[0]);
      ItemsArePrintable(items[1..]);
      assert G.BuildItems(items)[1..] == G.BuildItems(items[1..]);
    }
  }

  lemma NoItemsWritable()
    ensures AllWritable([]) && AllWritable(G.YieldItems([])) && AllWritable(G.YieldFields([]))
  {
  }

  /** Keys and values of a map of members can be printed. */
  ghost predicate MapPrintable(m: map<Text, Doc>) {
    forall k :: k in m ==> PrintableText(k) && Printable(m[k]) && WellFormed(m[k])
  }

  lemma {:induction false} FieldsArePrintable(fields: seq<G.Field>)
    requires G.FieldsProper(fields) && AllWritable(G.YieldFields(fields))
    ensures MapPrintable(D.FieldMap(fields))
    decreases fields, 0
  {
    hide Printable, WellFormed, G.Build, G.Yield, AllWritable, PrintableText;
    if fields != [] {
      assert fields[0].value < fields[0];
      var first, rest := G.YieldField(fields[0]), G.YieldFields(fields[1..]);
      if |fields| == 1 {
        NoItemsWritable();
      } else {
        WritableParts(first + [G.Comma], rest);
        WritableParts(first, [G.Comma]);
      }
      WritableParts([G.String(fields[0].key), G.Colon], G.Yield(fields[0].value));
      KeyIsPrintable(fields[0].key);
      TreeIsPrintable(fields[0].value);
      FieldsArePrintable(fields[1..]);
    }
  }

  lemma KeyIsPrintable(key: Text)
    requires AllWritable([G.String(key), G.Colon])
    ensures PrintableText(key)
  {
    assert Writable([G.String(key), G.Colon][0]);
  }

  lemma ObjectIsPrintable(fields: seq<G.Field>)
    requires G.FieldsProper(fields) && MapPrintable(D.FieldMap(fields))
    ensures Printable(G.Build(G.Obj(fields))) && WellFormed(G.Build(G.Obj(fields)))
  {
    hide T.MapOf, WellFormed;
    var d := G.Build(G.Obj(fields));
    D.LaterFieldWins(fields);
    G.EmptyIsValid();
    D.FieldsOverride(fields, EMPTY_OBJECT);
    D.WellFormedFromMap(d);
    forall i | 0 <= i < |d.members.order| ensures PrintableText(d.members.order[i].key) &&
        Printable(d.members.order[i].value) {
      T.LookupMember(d.members.order, d.members.order[i]);
      MemberOfMap(d, i);
    }
    AllMembersPrintable(d.members.order);
  }

  lemma MemberOfMap(d: Doc, i: nat)
    requires d.Object? && T.Distinct(d.members.order) && i < |d.members.order|
    ensures var p := d.members.order[i]; p.key in D.DocMap(d) && D.DocMap(d)[p.key] == p.value
  {
    T.LookupMember(d.members.order, d.members.order[i]);
    T.InMapIff(d.members.order, d.members.order[i].key);
  }

  lemma {:induction false} AllMembersPrintable(order: seq<T.Pair<Text, Doc>>)
    requires forall i :: 0 <= i < |order| ==> PrintableText(order[i].key) && Printable(order[i].value)
    ensures MembersPrintable(order)
    decreases |order|
  {
    hide PrintableText;
    if order != [] {
      assert order[0].value < order[0];
      assert forall i :: 0 <= i < |order[1..]| ==> order[1..][i] == order[i + 1];
      AllMembersPrintable(order[1..]);
    }
  }

  /**
   Whatever `json_loads` accepts, real numbers apart, can be dumped with any formatting flags, and the
   text loads again as an equal value.
   */
  lemma LoadedCanBeDumped(s: CString, reject: bool, disableEofCheck: bool, flags: Flags)
    requires L.Loads(s, reject, disableEofCheck).Some?
    requires forall i :: 0 <= i < |Tokenize(I.Deliverable(s), I.EndOf(s))| ==>
              !Tokenize(I.Deliverable(s), I.EndOf(s))[i].Real?
    ensures var d := L.Loads(s, reject, disableEofCheck).value;
            && Printable(d) && WellFormed(d) && L.Dumps(d, flags).Some?
            && var r := L.Loads(L.Dumps(d, flags).value, reject, disableEofCheck);
            && r.Some? && Equal(d, r.value)
  {
    hide Printable, WellFormed, Equal, Tokenize, G.ParseJson, G.Build, G.Yield, Print, Writable, G.Proper;
    var text := I.Deliverable(s);
    I.LongestValidPrefix(s, []);
    var toks := Tokenize(text, I.EndOf(s));
    assert PrintableText(text);
    TokensAreClean(text, I.EndOf(s));
    G.ParserDecidesGrammar(toks, reject, disableEofCheck);
    var t, rest :| G.Reads(toks, t, rest) && G.Container(t);
    CleanIsWritable(toks);
    WritableParts(G.Yield(t), rest);
    TreeIsPrintable(t);
    ContainerIsRoot(t);
    L.DocumentRoundTrip(G.Build(t), flags, reject, disableEofCheck);
  }

  lemma CleanIsWritable(toks: seq<G.Token>)
    requires forall i :: 0 <= i < |toks| ==> Clean(toks[i]) && !toks[i].Real?
    ensures AllWritable(toks)
  {
  }

  lemma ContainerIsRoot(t: G.Tree)
    requires G.Proper(t) && G.Container(t)
    ensures G.Build(t).Array? || G.Build(t).Object?
  {
  }
}
