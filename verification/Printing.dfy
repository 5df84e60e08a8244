/** The text that `dump.c` produces, as a function of the value and the flags. */
module Printing {
  import opened Bytes
  import opened Json
  import T = Tables
  import Utf8

  /** The formatting flags of `jansson.h`; `indent` is the number in their low five bits. */
  datatype Flags = Flags(indent: nat, compact: bool, ensureAscii: bool, sortKeys: bool, preserveOrder: bool,
      encodeAny: bool)

  // ---------------------------------------------------------------- white space

  function Spaces(n: nat): Text {
    if n == 0 then [] else Spaces(n - 1) + [' ' as int]
  }

  /** `dump_indent`: a new line and the indentation when one is set, else a blank where one is wanted. */
  function Indent(flags: Flags, depth: nat, space: bool): Text {
    if flags.indent > 0 then ['\n' as int] + Spaces(flags.indent * depth)
    else if space && !flags.compact then [' ' as int]
    else []
  }

  function Separator(flags: Flags): Text {
    if flags.compact then [':' as int] else [':' as int, ' ' as int]
  }

  // ---------------------------------------------------------------- numbers and strings

  function Digits(n: nat): (t: Text)
    ensures |t| > 0
  {
    if n < 10 then ['0' as int + n] else Digits(n / 10) + ['0' as int + n % 10]
  }

  function IntText(n: int): Text {
    if n < 0 then ['-' as int] + Digits(-n) else Digits(n)
  }

  function HexDigit(n: nat): byte
    requires n < 16
  {
    if n < 10 then '0' as int + n else 'a' as int + n - 10
  }

  function Hex4(n: nat): (t: Text)
    requires n < 0x10000
    ensures |t| == 4
  {
    [HexDigit(n / 0x1000), HexDigit(n / 0x100 % 0x10), HexDigit(n / 0x10 % 0x10), HexDigit(n % 0x10)]
  }

  function UnicodeEscape(n: nat): Text
    requires n < 0x10000
  {
    ['\\' as int, 'u' as int] + Hex4(n)
  }

  /** The surrogates of sections 2.1 and 2.2 of RFC 2781. */
  function HighSurrogate(cp: int): nat
    requires 0x10000 <= cp <= 0x10FFFF
  {
    0xD800 + (cp - 0x10000) / 0x400
  }

  function LowSurrogate(cp: int): nat
    requires 0x10000 <= cp <= 0x10FFFF
  {
    0xDC00 + (cp - 0x10000) % 0x400
  }

  /** The code points `dump_string` does not copy. */
  predicate MustEscape(cp: int, ascii: bool) {
    cp == '\\' as int || cp == '"' as int || cp < 0x20 || (ascii && cp > 0x7F)
  }

  function EscapeText(cp: int): Text
    requires 0 <= cp <= 0x10FFFF
  {
    if cp == '\\' as int then ['\\' as int, '\\' as int]
    else if cp == '"' as int then ['\\' as int, '"' as int]
    else if cp == 0x08 then ['\\' as int, 'b' as int]
    else if cp == 0x0C then ['\\' as int, 'f' as int]
    else if cp == 0x0A then ['\\' as int, 'n' as int]
    else if cp == 0x0D then ['\\' as int, 'r' as int]
    else if cp == 0x09 then ['\\' as int, 't' as int]
    else if cp < 0x10000 then UnicodeEscape(cp)
    else UnicodeEscape(HighSurrogate(cp)) + UnicodeEscape(LowSurrogate(cp))
  }

  function CodePointText(cp: int, ascii: bool): Text
    requires 0 <= cp <= 0x10FFFF
  {
    if MustEscape(cp, ascii) then EscapeText(cp) else Utf8.Encoded(cp)
  }

  function BodyText(cps: seq<int>, ascii: bool): Text
    requires Utf8.AllScalar(cps)
  {
    if cps == [] then [] else CodePointText(cps[0], ascii) + BodyText(cps[1..], ascii)
  }

  /** `dump_string` on a string of valid UTF-8. */
  function StringText(s: Text, ascii: bool): Text
    requires Utf8.Valid(s)
  {
    Utf8.EncodeDecode(s);
    ['"' as int] + BodyText(Utf8.Decode(s), ascii) + ['"' as int]
  }

  // ---------------------------------------------------------------- the order of an object's members

  /** `strcmp`: bytes are compared as unsigned numbers, a proper prefix comes first. */
  function CompareKeys(a: Text, b: Text): int {
    if a == [] && b == [] then 0
    else if a == [] then -1
    else if b == [] then 1
    else if a[0] != b[0] then a[0] as int - b[0] as int
    else CompareKeys(a[1..], b[1..])
  }

  /** The difference of two serials, taken modulo 2^64 and truncated to `int`. */
  function CompareSerials(a: nat, b: nat): int {
    var low := (a - b) % 0x1_0000_0000;
    if low < 0x8000_0000 then low else low - 0x1_0000_0000
  }

  function Compare<V>(byKeys: bool, a: T.Pair<Text, V>, b: T.Pair<Text, V>): int {
    if byKeys then CompareKeys(a.key, b.key) else CompareSerials(a.serial, b.serial)
  }

  /** `p` goes behind the pairs that do not come after it. */
  function Place<V>(byKeys: bool, p: T.Pair<Text, V>, s: seq<T.Pair<Text, V>>): (r: seq<T.Pair<Text, V>>)
    ensures multiset(r) == multiset(s) + multiset{p}
  {
    if s == [] then [p]
    else if Compare(byKeys, s[0], p) <= 0 then
      assert s == [s[0]] + s[1..];
      [s[0]] + Place(byKeys, p, s[1..])
    else [p] + s
  }

  /** What `qsort` leaves of distinct keys. */
  function Sort<V>(byKeys: bool, s: seq<T.Pair<Text, V>>): (r: seq<T.Pair<Text, V>>)
    ensures multiset(r) == multiset(s)
  {
    if s == [] then []
    else
      assert s == [s[0]] + s[1..];
      Place(byKeys, s[0], Sort(byKeys, s[1..]))
  }

  /** The order in which an object's members are printed. */
  function Arrange<V>(flags: Flags, s: seq<T.Pair<Text, V>>): (r: seq<T.Pair<Text, V>>)
    ensures multiset(r) == multiset(s)
  {
    if flags.sortKeys then Sort(true, s) else if flags.preserveOrder then Sort(false, s) else s
  }

  lemma {:induction false} ArrangeMembers<V>(flags: Flags, s: seq<T.Pair<Text, V>>)
    ensures |Arrange(flags, s)| == |s|
    ensures forall p :: p in Arrange(flags, s) <==> p in s
    ensures !flags.sortKeys && !flags.preserveOrder ==> Arrange(flags, s) == s
  {
    T.SameBag(Arrange(flags, s), s);
    assert |multiset(s)| == |s| && |multiset(Arrange(flags, s))| == |Arrange(flags, s)|;
  }

  // ---------------------------------------------------------------- values

  predicate PrintableText(s: Text) {
    0 !in s && Utf8.Valid(s)
  }

  /** Strings and keys are C strings of valid UTF-8, integers fit 64 bits, and there are no reals. */
  predicate Printable(d: Doc)
    decreases d, 1
  {
    match d
    case Integer(n) => -0x8000_0000_0000_0000 <= n <= 0x7FFF_FFFF_FFFF_FFFF
    case Real(_) => false
    case Str(s) => PrintableText(s)
    case Array(items) => AllPrintable(items)
    case Object(members, _) => MembersPrintable(members.order)
    case _ => true
  }

  predicate AllPrintable(items: seq<Doc>)
    decreases items, 0
  {
    items == [] || (Printable(items[0]) && AllPrintable(items[1..]))
  }

  predicate MembersPrintable(order: seq<T.Pair<Text, Doc>>)
    decreases order, 0
  {
    order == [] ||
    (assert order[0].value < order[0];
     PrintableText(order[0].key) && Printable(order[0].value) && MembersPrintable(order[1..]))
  }

  /** The members of `d`, in some order: each is printable and smaller than `d`. */
  ghost predicate MembersOf(ms: seq<T.Pair<Text, Doc>>, d: Doc) {
    forall i | 0 <= i < |ms| :: ms[i].value < d && PrintableText(ms[i].key) && Printable(ms[i].value)
  }

  lemma {:induction false} MemberPrintable(order: seq<T.Pair<Text, Doc>>, i: nat)
    requires MembersPrintable(order) && i < |order|
    ensures PrintableText(order[i].key) && Printable(order[i].value)
  {
    if i > 0 {
      MemberPrintable(order[1..], i - 1);
    }
  }

  lemma {:induction false} ArrangedMembers(flags: Flags, d: Doc)
    requires d.Object? && Printable(d)
    ensures MembersOf(Arrange(flags, d.members.order), d)
  {
    var order := d.members.order;
    ArrangeMembers(flags, order);
    var ms := Arrange(flags, order);
    forall i | 0 <= i < |ms| ensures ms[i].value < d && PrintableText(ms[i].key) && Printable(ms[i].value) {
      var m := ms[i];
      assert m in multiset(ms) && m in multiset(order);
      assert m in order;
      var j :| 0 <= j < |order| && order[j] == ms[i];
      MemberPrintable(order, j);
      assert d.members < d;
      assert order[j] < d.members;
      assert order[j].value < order[j];
    }
  }

  /** `do_dump` on a value without cycles. */
  function Print(d: Doc, flags: Flags, depth: nat): Text
    requires Printable(d)
    decreases d, 1
  {
    match d
    case Null => ['n' as int, 'u' as int, 'l' as int, 'l' as int]
    case True => ['t' as int, 'r' as int, 'u' as int, 'e' as int]
    case False => ['f' as int, 'a' as int, 'l' as int, 's' as int, 'e' as int]
    case Integer(n) => IntText(n)
    case Str(s) => StringText(s, flags.ensureAscii)
    case Array(items) =>
      if items == [] then ['[' as int, ']' as int]
      else ['[' as int] + Indent(flags, depth + 1, false) + PrintItems(items, flags, depth) + [']' as int]
    case Object(members, _) =>
      if members.order == [] then ['{' as int, '}' as int]
      else
        ArrangedMembers(flags, d);
        ['{' as int] + Indent(flags, depth + 1, false)
        + PrintMembers(Arrange(flags, members.order), flags, depth, d) + ['}' as int]
  }

  /** The items of an array at `depth`, each followed by a comma or by what precedes the bracket. */
  function PrintItems(items: seq<Doc>, flags: Flags, depth: nat): Text
    requires AllPrintable(items)
    decreases items, 0
  {
    if items == [] then []
    else
      Print(items[0], flags, depth + 1)
      + (if |items| == 1 then Indent(flags, depth, false) else [',' as int] + Indent(flags, depth + 1, true))
      + PrintItems(items[1..], flags, depth)
  }

  function PrintMember(m: T.Pair<Text, Doc>, flags: Flags, depth: nat, ghost d: Doc): Text
    requires m.value < d && PrintableText(m.key) && Printable(m.value)
    decreases d, 0, 0
  {
    StringText(m.key, flags.ensureAscii) + Separator(flags) + Print(m.value, flags, depth + 1)
  }

  function PrintMembers(ms: seq<T.Pair<Text, Doc>>, flags: Flags, depth: nat, ghost d: Doc): Text
    requires MembersOf(ms, d)
    decreases d, 0, |ms|
  {
    if ms == [] then []
    else
      PrintMember(ms[0], flags, depth, d)
      + (if |ms| == 1 then Indent(flags, depth, false) else [',' as int] + Indent(flags, depth + 1, true))
      + PrintMembers(ms[1..], flags, depth, d)
  }
}
