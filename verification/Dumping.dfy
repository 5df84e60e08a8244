/** The printer of `dump.c` on the heap: a stateful callback, and visited marks against cycles. */
module Dumping {
  import opened Bytes
  import opened Graphs
  import opened Heaps
  import opened Parts
  import opened Printing
  import opened Stores
  import J = Json
  import S = StringTrip
  import T = Tables
  import Utf8

  /** A dump callback and its data: what it has written, and which of its calls it refuses. */
  class Sink {
    var out: Text
    var calls: nat
    const refuses: nat -> bool

    constructor (refuses: nat -> bool)
      ensures out == [] && this.refuses == refuses
    {
      out, calls := [], 0;
      this.refuses := refuses;
    }

    ghost predicate Reliable() {
      forall k: nat :: !refuses(k)
    }

    method Dump(text: Text) returns (rc: int)
      modifies this
      ensures rc == (if refuses(old(calls)) then -1 else 0) && calls == old(calls) + 1
      ensures out == if rc == 0 then old(out) + text else old(out)
    {
      if refuses(calls) {
        calls := calls + 1;
        return -1;
      }
      calls := calls + 1;
      out := out + text;
      return 0;
    }
  }

  // ---------------------------------------------------------------- white space and strings

  lemma {:induction false} SpacesAdd(m: nat, n: nat)
    ensures Spaces(m + n) == Spaces(m) + Spaces(n)
  {
    if n == 0 {
      assert Spaces(0) == [];
    } else {
      SpacesAdd(m, n - 1);
    }
  }

  lemma SpacesTimes(n: nat, i: nat)
    ensures Spaces(n * (i + 1)) == Spaces(n * i) + Spaces(n) && Spaces(n * 0) == []
  {
    SpacesAdd(n * i, n);
    assert n * (i + 1) == n * i + n;
    assert n * 0 == 0;
  }

  lemma IndentStep(out: Text, n: nat, i: nat)
    ensures out + (['\n' as int] + Spaces(n * i)) + Spaces(n) == out + (['\n' as int] + Spaces(n * (i + 1)))
    ensures out + ['\n' as int] == out + (['\n' as int] + Spaces(n * 0))
  {
    hide Spaces;
    SpacesTimes(n, i);
  }

  /** `dump_indent`. */
  method DumpIndent(flags: Flags, depth: nat, space: bool, sink: Sink) returns (rc: int)
    modifies sink
    ensures rc == 0 || rc == -1
    ensures sink.Reliable() ==> rc == 0 && sink.out == old(sink.out) + Indent(flags, depth, space)
  {
    hide Spaces;
    if flags.indent > 0 {
      rc := sink.Dump(['\n' as int]);
      if rc != 0 {
        return -1;
      }
      var i := 0;
      IndentStep(old(sink.out), flags.indent, 0);
      while i < depth
        invariant 0 <= i <= depth
        invariant sink.Reliable() ==> sink.out == old(sink.out) + (['\n' as int] + Spaces(flags.indent * i))
      {
        rc := sink.Dump(Spaces(flags.indent));
        if rc != 0 {
          return -1;
        }
        IndentStep(old(sink.out), flags.indent, i);
        i := i + 1;
      }
    } else if space && !flags.compact {
      rc := sink.Dump([' ' as int]);
      return rc;
    }
    rc := 0;
  }

  /** The escapes of `dump_string`; a code point beyond the first plane becomes a surrogate pair. */
  method EscapeSequence(codepoint: int) returns (text: Text)
    requires 0 <= codepoint <= 0x10FFFF
    ensures text == EscapeText(codepoint)
  {
    if codepoint == '\\' as int {
      text := ['\\' as int, '\\' as int];
    } else if codepoint == '"' as int {
      text := ['\\' as int, '"' as int];
    } else if codepoint == 0x08 {
      text := ['\\' as int, 'b' as int];
    } else if codepoint == 0x0C {
      text := ['\\' as int, 'f' as int];
    } else if codepoint == 0x0A {
      text := ['\\' as int, 'n' as int];
    } else if codepoint == 0x0D {
      text := ['\\' as int, 'r' as int];
    } else if codepoint == 0x09 {
      text := ['\\' as int, 't' as int];
    } else if codepoint < 0x10000 {
      text := UnicodeEscape(codepoint);
    } else {
      var rest := codepoint - 0x10000;
      var first := 0xD800 + rest / 0x400;
      var last := 0xDC00 + rest % 0x400;
      text := UnicodeEscape(first) + UnicodeEscape(last);
    }
  }

  /** What is written between the quotes. */
  function Escaped(s: Text, ascii: bool): Text
    requires Utf8.Valid(s)
  {
    Utf8.EncodeDecode(s);
    BodyText(Utf8.Decode(s), ascii)
  }

  lemma EscapedStep(s: Text, ascii: bool)
    requires Utf8.Valid(s) && s != []
    ensures var n := Utf8.UnitLength(s); var cp := Utf8.UnitValue(s);
            && n > 0 && Utf8.Valid(s[n..]) && Utf8.Scalar(cp) && s[..n] == Utf8.Encoded(cp)
            && Escaped(s, ascii) == CodePointText(cp, ascii) + Escaped(s[n..], ascii)
  {
    hide Utf8.Encoded, CodePointText, Utf8.UnitLength;
    Utf8.UnitIsEncoded(s);
    Utf8.EncodeDecode(s);
    Utf8.EncodeDecode(s[Utf8.UnitLength(s)..]);
    assert Utf8.Decode(s)[1..] == Utf8.Decode(s[Utf8.UnitLength(s)..]);
  }

  /** The terminator never becomes part of a code point. */
  lemma Terminated(s: Text)
    requires s != [] && 0 !in s
    ensures Utf8.UnitLength(s + [0]) == Utf8.UnitLength(s)
    ensures Utf8.UnitLength(s) > 0 ==> Utf8.UnitValue(s + [0]) == Utf8.UnitValue(s)
  {
    var n := Utf8.CheckFirst(s[0]);
    if 2 <= n <= |s| {
      assert (s + [0])[..n] == s[..n];
    } else if n == |s| + 1 {
      var t := (s + [0])[..n];
      assert !Utf8.Continuation(t[n - 1]);
      assert Utf8.FullValue(t).None?;
    }
  }

  /** The run of characters that need no escape, from `pos` on, and the one that stops it. */
  method SkipPlain(s: Text, ascii: bool, start: nat) returns (ok: bool, pos: nat, end: nat, codepoint: int)
    requires start <= |s| && 0 !in s
    ensures ok ==> start <= pos <= end <= |s| && (pos == end <==> pos == |s|)
    ensures ok ==> (Utf8.Valid(s[start..]) <==> Utf8.Valid(s[pos..]))
    ensures ok && Utf8.Valid(s[start..]) ==> Escaped(s[start..], ascii) == s[start..pos] + Escaped(s[pos..], ascii)
    ensures ok && pos < end ==>
              Utf8.UnitLength(s[pos..]) == end - pos && Utf8.UnitValue(s[pos..]) == codepoint &&
                  MustEscape(codepoint, ascii)
    ensures !ok ==> !Utf8.Valid(s[start..])
  {
    hide Utf8.Valid, Utf8.UnitLength, Utf8.UnitValue, Escaped, MustEscape;
    pos, end, codepoint := start, start, 0;
    assert s[start..start] == [];
    EmptyFront(if Utf8.Valid(s[start..]) then Escaped(s[start..], ascii) else []);
    while end < |s|
      invariant start <= pos == end <= |s| && (Utf8.Valid(s[start..]) <==> Utf8.Valid(s[pos..]))
      invariant Utf8.Valid(s[start..]) ==> Escaped(s[start..], ascii) == s[start..pos] + Escaped(s[pos..], ascii)
      decreases |s| - pos
    {
      assert (s + [0])[pos] == s[pos] != 0;
      var next, cp := Utf8.Iterate(s + [0], pos);
      assert (s + [0])[pos..] == s[pos..] + [0];
      Terminated(s[pos..]);
      NextUnit(s[pos..], ascii);
      if next == -1 {
        return false, pos, end, codepoint;
      }
      end, codepoint := next, cp;
      if codepoint == '\\' as int || codepoint == '"' as int || codepoint < 0x20 {
        MustBeEscaped(codepoint, ascii);
        return true, pos, end, codepoint;
      }
      if ascii && codepoint > 0x7F {
        MustBeEscaped(codepoint, ascii);
        return true, pos, end, codepoint;
      }
      NeedsNoEscape(codepoint, ascii);
      PlainStep(s, ascii, start, pos, end);
      pos := end;
    }
    ok := true;
  }

  lemma MustBeEscaped(cp: int, ascii: bool)
    requires cp == '\\' as int || cp == '"' as int || cp < 0x20 || (ascii && cp > 0x7F)
    ensures MustEscape(cp, ascii)
  {
  }

  lemma NeedsNoEscape(cp: int, ascii: bool)
    requires cp != '\\' as int && cp != '"' as int && cp >= 0x20 && !(ascii && cp > 0x7F)
    ensures !MustEscape(cp, ascii)
  {
  }

  lemma EmptyFront(t: Text)
    ensures [] + t == t
  {
  }

  lemma NextUnit(s: Text, ascii: bool)
    requires s != []
    ensures Utf8.UnitLength(s) == 0 ==> !Utf8.Valid(s)
    ensures Utf8.UnitLength(s) > 0 ==> (Utf8.Valid(s) <==> Utf8.Valid(s[Utf8.UnitLength(s)..]))
  {
    hide Utf8.UnitLength;
  }

  lemma PlainStep(s: Text, ascii: bool, start: nat, pos: nat, end: nat)
    requires start <= pos < end <= |s| && Utf8.UnitLength(s[pos..]) == end - pos
    requires !MustEscape(Utf8.UnitValue(s[pos..]), ascii)
    ensures Utf8.Valid(s[pos..]) <==> Utf8.Valid(s[end..])
    ensures Utf8.Valid(s[pos..]) ==>
              s[start..pos] + Escaped(s[pos..], ascii) == s[start..end] + Escaped(s[end..], ascii)
  {
    hide Escaped, Utf8.UnitLength, Utf8.UnitValue;
    NextUnit(s[pos..], ascii);
    assert s[pos..][end - pos..] == s[end..];
    if Utf8.Valid(s[pos..]) {
      EscapedStep(s[pos..], ascii);
      assert s[pos..][..end - pos] == s[pos..end];
      assert s[start..end] == s[start..pos] + s[pos..end];
    }
  }

  /** `dump_string` on a NUL-free string; text that is not UTF-8 makes it fail, in the middle of its output. */
  method DumpString(s: Text, ascii: bool, sink: Sink) returns (rc: int)
    requires 0 !in s
    modifies sink
    ensures rc == 0 || rc == -1
    ensures sink.Reliable() ==> (rc == 0 <==> Utf8.Valid(s))
    ensures sink.Reliable() && rc == 0 ==> sink.out == old(sink.out) + StringText(s, ascii)
  {
    hide Utf8.Valid, Utf8.UnitLength, Utf8.UnitValue, Utf8.Encoded, Escaped, EscapeText, Utf8.Decode, BodyText;
    rc := sink.Dump(['"' as int]);
    if rc != 0 {
      return -1;
    }
    ghost var quoted := sink.out;
    var str := 0;
    assert s[0..] == s;
    while true
      invariant 0 <= str <= |s| && (Utf8.Valid(s) <==> Utf8.Valid(s[str..]))
      invariant sink.Reliable() && Utf8.Valid(s) ==> quoted + Escaped(s, ascii) == sink.out + Escaped(s[str..], ascii)
      decreases |s| - str
    {
      var ok, pos, end, codepoint := SkipPlain(s, ascii, str);
      if !ok {
        return -1;
      }
      ghost var before := sink.out;
      if pos != str {
        rc := sink.Dump(s[str..pos]);
        if rc != 0 {
          return -1;
        }
      }
      if end == pos {
        LastPart(s, ascii, str, before);
        break;
      }
      EscapeStep(s, ascii, str, pos, end, before);
      var text := EscapeSequence(codepoint);
      rc := sink.Dump(text);
      if rc != 0 {
        return -1;
      }
      str := end;
    }
    rc := sink.Dump(['"' as int]);
    QuotedText(old(sink.out), s, ascii);
  }

  lemma LastPart(s: Text, ascii: bool, str: nat, out: Text)
    requires str <= |s|
    ensures Utf8.Valid(s[|s|..]) && Escaped(s[|s|..], ascii) == []
    ensures s[str..|s|] == [] ==> str == |s|
    ensures out + (s[str..|s|] + []) == out + s[str..|s|]
  {
  }

  lemma EscapeStep(s: Text, ascii: bool, str: nat, pos: nat, end: nat, out: Text)
    requires str <= pos < end <= |s| && Utf8.UnitLength(s[pos..]) == end - pos
    requires MustEscape(Utf8.UnitValue(s[pos..]), ascii)
    ensures 0 <= Utf8.UnitValue(s[pos..]) <= 0x10FFFF
    ensures Utf8.Valid(s[pos..]) <==> Utf8.Valid(s[end..])
    ensures Utf8.Valid(s[pos..]) ==>
              out + (s[str..pos] + Escaped(s[pos..], ascii))
              == (if pos != str then out + s[str..pos] else out) + EscapeText(Utf8.UnitValue(s[pos..])) +
                  Escaped(s[end..], ascii)
  {
    hide Escaped, Utf8.UnitLength, Utf8.UnitValue, Utf8.Encoded, EscapeText, MustEscape;
    Utf8.UnitIsEncoded(s[pos..]);
    NextUnit(s[pos..], ascii);
    assert s[pos..][end - pos..] == s[end..];
    if Utf8.Valid(s[pos..]) {
      EscapedStep(s[pos..], ascii);
      var front := if pos != str then out + s[str..pos] else out;
      assert front == out + s[str..pos];
    }
  }

  lemma QuotedText(out: Text, s: Text, ascii: bool)
    ensures Utf8.Valid(s) ==> out + StringText(s, ascii) == out + ['"' as int] + Escaped(s, ascii) + [] + ['"' as int]
  {
  }

  // ---------------------------------------------------------------- do_dump

  /** The nodes of `h`, the part of the heap that is looked at, with exactly those of `v` marked. */
  ghost predicate Marked(cells: Heap, h: Heap, v: set<Ref>) {
    |cells| == |h| && forall r: Ref :: Live(h, r) ==> cells[r] == h[r].(visited := r in v)
  }

  /** Cells that are not in that part are not touched. */
  ghost predicate Untouched(before: Heap, after: Heap, h: Heap) {
    |after| == |before| && forall r: Ref :: r < |after| && !Live(h, r) ==> after[r] == before[r]
  }

  lemma Mark(cells: Heap, h: Heap, v: set<Ref>, r: Ref)
    requires Marked(cells, h, v) && Live(h, r)
    ensures Marked(cells[r := cells[r].(visited := true)], h, v + {r})
    ensures Marked(cells[r := cells[r].(visited := false)], h, v - {r})
  {
  }

  /** With strings that can be written and a callback that never fails, the outcome is determined. */
  ghost predicate Determined(sink: Sink, h: Heap) {
    sink.Reliable() && Writable(h)
  }

  lemma ChildrenLive(h: Heap, r: Ref)
    requires Linked(h) && Live(h, r)
    ensures forall c: Ref :: c in Children(h[r].node) ==> Live(h, c)
  {
  }

  /** `do_dump`: the marks are as before when it succeeds, and none is added when it fails. */
  method DoDump(st: Store, r: Ref, flags: Flags, depth: nat, sink: Sink, ghost h: Heap, ghost v: set<Ref>)
    returns (rc: int, ghost w: set<Ref>)
    requires Linked(h) && Live(h, r) && Marked(st.cells, h, v) && CStrings(h)
    modifies st`cells, sink
    ensures Untouched(old(st.cells), st.cells, h)
    ensures (rc == 0 || rc == -1) && Marked(st.cells, h, w) && w <= v && (rc == 0 ==> w == v)
    ensures Determined(sink, h) ==> (rc == 0 <==> Clear(h, r, v))
    ensures Determined(sink, h) && rc == 0 ==> sink.out == old(sink.out) + TextOf(h, r, v, flags, depth)
    decreases All(h) - v, 2, 0
  {
    hide Clear, AllClear, Print, Unfold, Marked, Linked, All, Writable;
    w := v;
    NodeIs(st.cells, h, v, r);
    if !Container(h[r].node) {
      LeafText(h, r, v, flags, depth);
    }
    match st.cells[r].node {
      case Null => rc := sink.Dump(['n' as int, 'u' as int, 'l' as int, 'l' as int]);
      case True => rc := sink.Dump(['t' as int, 'r' as int, 'u' as int, 'e' as int]);
      case False => rc := sink.Dump(['f' as int, 'a' as int, 'l' as int, 's' as int, 'e' as int]);
      case Integer(n) => rc := sink.Dump(IntText(n));
      case Real(lexeme) => rc := sink.Dump(lexeme);
      case Str(s) => rc := DumpString(s, flags.ensureAscii, sink);
      case Array(_) => rc, w := DumpArray(st, r, flags, depth, sink, h, v);
      case Object(_, _) => rc, w := DumpObject(st, r, flags, depth, sink, h, v);
    }
  }

  /** The strings of the heap are C strings. */
  ghost predicate CStrings(h: Heap) {
    forall r: Ref :: r < |h| ==>
      (h[r].node.Str? ==> 0 !in h[r].node.s) &&
      (h[r].node.Object? ==> forall i :: 0 <= i < |h[r].node.members.order| ==> 0 !in h[r].node.members.order[i].key)
  }

  lemma NodeIs(cells: Heap, h: Heap, v: set<Ref>, r: Ref)
    requires Marked(cells, h, v) && Live(h, r)
    ensures r < |cells| && cells[r].node == h[r].node && (cells[r].visited <==> r in v)
  {
  }

  lemma LeafText(h: Heap, r: Ref, v: set<Ref>, flags: Flags, depth: nat)
    requires Linked(h) && Live(h, r) && !Container(h[r].node)
    ensures Clear(h, r, v)
    ensures Writable(h) ==> !h[r].node.Real?
    ensures Writable(h) && h[r].node.Null? ==>
              TextOf(h, r, v, flags, depth) == ['n' as int, 'u' as int, 'l' as int, 'l' as int]
    ensures Writable(h) && h[r].node.True? ==>
              TextOf(h, r, v, flags, depth) == ['t' as int, 'r' as int, 'u' as int, 'e' as int]
    ensures Writable(h) && h[r].node.False? ==>
              TextOf(h, r, v, flags, depth) == ['f' as int, 'a' as int, 'l' as int, 's' as int, 'e' as int]
    ensures Writable(h) && h[r].node.Integer? ==> TextOf(h, r, v, flags, depth) == IntText(h[r].node.n)
    ensures Writable(h) && h[r].node.Str? ==>
              PrintableText(h[r].node.s) && TextOf(h, r, v, flags, depth) == StringText(h[r].node.s, flags.ensureAscii)
  {
    hide StringText, IntText, PrintableText;
    if Writable(h) {
      assert WritableNode(h[r].node);
      UnfoldPrintable(h, r, v);
    }
  }

  /** The end of a container: its mark is taken away again. */
  method Unmark(st: Store, r: Ref, ghost h: Heap, ghost u: set<Ref>)
    requires Marked(st.cells, h, u) && Live(h, r)
    modifies st`cells
    ensures Marked(st.cells, h, u - {r}) && Untouched(old(st.cells), st.cells, h)
  {
    Mark(st.cells, h, u, r);
    st.cells := st.cells[r := st.cells[r].(visited := false)];
  }

  /** What `do_dump` writes behind an item or a member. */
  method DumpBetween(flags: Flags, depth: nat, last: bool, sink: Sink) returns (rc: int)
    modifies sink
    ensures rc == 0 || rc == -1
    ensures sink.Reliable() ==> rc == 0 && sink.out == old(sink.out) + Between(flags, depth, last)
  {
    hide Indent;
    if !last {
      rc := sink.Dump([',' as int]);
      if rc != 0 {
        return -1;
      }
      rc := DumpIndent(flags, depth + 1, true, sink);
    } else {
      rc := DumpIndent(flags, depth, false, sink);
    }
  }

  lemma ItemStep(h: Heap, items: seq<Ref>, i: nat, v: set<Ref>, flags: Flags, depth: nat)
    requires Linked(h) && (forall c: Ref :: c in items ==> Live(h, c)) && i < |items|
    ensures forall c: Ref :: c in items[i..] ==> Live(h, c)
    ensures forall c: Ref :: c in items[i + 1..] ==> Live(h, c)
    ensures Live(h, items[i])
    ensures AllClear(h, items[i..], v) <==> Clear(h, items[i], v) && AllClear(h, items[i + 1..], v)
    ensures AllClear(h, items[i..], v) && Writable(h) ==>
              ItemsText(h, items[i..], v, flags, depth)
              == TextOf(h, items[i], v, flags, depth + 1) + Between(flags, depth, i + 1 == |items|) +
                  ItemsText(h, items[i + 1..], v, flags, depth)
  {
    hide Clear, TextOf, Between;
    assert items[i..][1..] == items[i + 1..];
    assert items[i] in items;
  }

  /** What remains to be written after the items before `i`. */
  ghost predicate ItemsLeft(h: Heap, items: seq<Ref>, i: nat, v: set<Ref>, flags: Flags, depth: nat, start: Text,
          out: Text)
    requires Writable(h) && (forall c: Ref :: c in items ==> Live(h, c)) && i <= |items|
  {
    && (AllClear(h, items, v) <==> AllClear(h, items[i..], v))
    && (AllClear(h, items, v) ==>
        out + ItemsText(h, items[i..], v, flags, depth) == start + ItemsText(h, items, v, flags, depth))
  }

  lemma ItemsStart(h: Heap, items: seq<Ref>, v: set<Ref>, flags: Flags, depth: nat, out: Text)
    requires Writable(h) && forall c: Ref :: c in items ==> Live(h, c)
    ensures ItemsLeft(h, items, 0, v, flags, depth, out, out)
  {
    assert items[0..] == items;
  }

  lemma ItemsFail(h: Heap, items: seq<Ref>, i: nat, v: set<Ref>, flags: Flags, depth: nat, start: Text, out: Text)
    requires Writable(h) && (forall c: Ref :: c in items ==> Live(h, c)) && i < |items|
    requires ItemsLeft(h, items, i, v, flags, depth, start, out) && Live(h, items[i]) && !Clear(h, items[i], v)
    ensures !AllClear(h, items, v)
  {
    ItemStep(h, items, i, v, flags, depth);
  }

  lemma ItemsNext(h: Heap, items: seq<Ref>, i: nat, v: set<Ref>, flags: Flags, depth: nat, start: Text, out: Text,
          next: Text)
    requires Writable(h) && (forall c: Ref :: c in items ==> Live(h, c)) && i < |items|
    requires ItemsLeft(h, items, i, v, flags, depth, start, out) && Live(h, items[i]) && Clear(h, items[i], v)
    requires next == out + TextOf(h, items[i], v, flags, depth + 1) + Between(flags, depth, i + 1 == |items|)
    ensures ItemsLeft(h, items, i + 1, v, flags, depth, start, next)
  {
    hide Clear, AllClear, TextOf, ItemsText, Between;
    ItemStep(h, items, i, v, flags, depth);
    if AllClear(h, items, v) {
      Assoc4(out, TextOf(h, items[i], v, flags, depth + 1), Between(flags, depth, i + 1 == |items|),
          ItemsText(h, items[i + 1..], v, flags, depth));
    }
  }

  lemma Assoc4(a: Text, b: Text, c: Text, d: Text)
    ensures a + (b + c + d) == a + b + c + d
  {
  }

  lemma ItemsDone(h: Heap, items: seq<Ref>, v: set<Ref>, flags: Flags, depth: nat, start: Text, out: Text)
    requires Writable(h) && (forall c: Ref :: c in items ==> Live(h, c)) &&
              ItemsLeft(h, items, |items|, v, flags, depth, start, out)
    ensures AllClear(h, items, v) && out == start + ItemsText(h, items, v, flags, depth)
  {
    assert items[|items|..] == [];
    assert out + [] == out;
  }

  /** The loop of `do_dump` over an array. */
  method DumpItems(st: Store, items: seq<Ref>, flags: Flags, depth: nat, sink: Sink, ghost h: Heap, ghost v: set<Ref>)
    returns (rc: int, ghost w: set<Ref>)
    requires Linked(h) && Marked(st.cells, h, v) && CStrings(h) && forall c: Ref :: c in items ==> Live(h, c)
    modifies st`cells, sink
    ensures Untouched(old(st.cells), st.cells, h)
    ensures (rc == 0 || rc == -1) && Marked(st.cells, h, w) && w <= v && (rc == 0 ==> w == v)
    ensures Determined(sink, h) ==> (rc == 0 <==> AllClear(h, items, v))
    ensures Determined(sink, h) && rc == 0 ==> sink.out == old(sink.out) + ItemsText(h, items, v, flags, depth)
    decreases All(h) - v, 3, 0
  {
    hide Clear, AllClear, Marked, Linked, All, Writable, ItemsText, TextOf, ItemsLeft, Between;
    w := v;
    ghost var start := sink.out;
    if Determined(sink, h) {
      ItemsStart(h, items, v, flags, depth, start);
    }
    var i := 0;
    while i < |items|
      invariant 0 <= i <= |items| && Marked(st.cells, h, v) && w == v && Untouched(old(st.cells), st.cells, h)
      invariant Determined(sink, h) ==> ItemsLeft(h, items, i, v, flags, depth, start, sink.out)
    {
      ghost var out := sink.out;
      assert items[i] in items;
      rc, w := DoDump(st, items[i], flags, depth + 1, sink, h, v);
      if rc != 0 {
        if Determined(sink, h) {
          ItemsFail(h, items, i, v, flags, depth, start, out);
        }
        return -1, w;
      }
      rc := DumpBetween(flags, depth, i + 1 == |items|, sink);
      if rc != 0 {
        return -1, w;
      }
      if Determined(sink, h) {
        ItemsNext(h, items, i, v, flags, depth, start, out, sink.out);
      }
      i := i + 1;
    }
    if Determined(sink, h) {
      ItemsDone(h, items, v, flags, depth, start, sink.out);
    }
    rc := 0;
  }

  lemma ArrayIs(h: Heap, r: Ref, v: set<Ref>, flags: Flags, depth: nat)
    requires Linked(h) && Live(h, r) && h[r].node.Array?
    ensures forall c: Ref :: c in h[r].node.items ==> Live(h, c)
    ensures r in v ==> !Clear(h, r, v)
    ensures r !in v ==> All(h) - (v + {r}) < All(h) - v && v + {r} - {r} == v
    ensures r !in v ==> (Clear(h, r, v) <==> AllClear(h, h[r].node.items, v + {r}))
    ensures r !in v && Clear(h, r, v) && Writable(h) ==>
              TextOf(h, r, v, flags, depth) ==
              if h[r].node.items == [] then ['[' as int, ']' as int]
              else
                ['[' as int] + Indent(flags, depth + 1, false) +
                ItemsText(h, h[r].node.items, v + {r}, flags, depth) + [']' as int]
  {
    hide TextOf, ItemsText, Indent;
    ChildrenLive(h, r);
    if r !in v {
      LessLeft(h, r, v);
      if Clear(h, r, v) && Writable(h) {
        ArrayText(h, r, v, flags, depth);
      }
    }
  }

  lemma Assoc5(a: Text, b: Text, c: Text, d: Text, e: Text)
    ensures a + b + (c + d) + e == a + (b + c + d + e)
  {
  }

  /** What stands between the brackets of an array that is not empty. */
  method DumpFilledArray(st: Store, items: seq<Ref>, flags: Flags, depth: nat, sink: Sink, ghost h: Heap,
          ghost u: set<Ref>) returns (rc: int, ghost w: set<Ref>)
    requires Linked(h) && Marked(st.cells, h, u) && CStrings(h) && forall c: Ref :: c in items ==> Live(h, c)
    modifies st`cells, sink
    ensures Untouched(old(st.cells), st.cells, h)
    ensures (rc == 0 || rc == -1) && Marked(st.cells, h, w) && w <= u && (rc == 0 ==> w == u)
    ensures Determined(sink, h) ==> (rc == 0 <==> AllClear(h, items, u))
    ensures Determined(sink, h) && rc == 0 ==>
              sink.out == old(sink.out) +
                  (Indent(flags, depth + 1, false) + ItemsText(h, items, u, flags, depth))
    decreases All(h) - u, 5, 0
  {
    hide AllClear, Marked, Linked, All, Writable, ItemsText, Indent;
    w := u;
    rc := DumpIndent(flags, depth + 1, false, sink);
    if rc != 0 {
      return -1, w;
    }
    rc, w := DumpItems(st, items, flags, depth, sink, h, u);
  }

  method DumpArray(st: Store, r: Ref, flags: Flags, depth: nat, sink: Sink, ghost h: Heap, ghost v: set<Ref>)
    returns (rc: int, ghost w: set<Ref>)
    requires Linked(h) && Live(h, r) && h[r].node.Array? && Marked(st.cells, h, v) && CStrings(h)
    modifies st`cells, sink
    ensures Untouched(old(st.cells), st.cells, h)
    ensures (rc == 0 || rc == -1) && Marked(st.cells, h, w) && w <= v && (rc == 0 ==> w == v)
    ensures Determined(sink, h) ==> (rc == 0 <==> Clear(h, r, v))
    ensures Determined(sink, h) && rc == 0 ==> sink.out == old(sink.out) + TextOf(h, r, v, flags, depth)
    decreases All(h) - v, 1, 0
  {
    hide Clear, AllClear, Marked, Linked, All, Writable, ItemsText, TextOf, Indent;
    NodeIs(st.cells, h, v, r);
    ArrayIs(h, r, v, flags, depth);
    if st.cells[r].visited {
      Unmark(st, r, h, v);
      return -1, v - {r};
    }
    Mark(st.cells, h, v, r);
    st.cells := st.cells[r := st.cells[r].(visited := true)];
    ghost var u := v + {r};
    NodeIs(st.cells, h, u, r);
    var items := st.cells[r].node.items;
    rc := sink.Dump(['[' as int]);
    if rc != 0 {
      Unmark(st, r, h, u);
      return -1, v;
    }
    if |items| == 0 {
      Unmark(st, r, h, u);
      rc := sink.Dump([']' as int]);
      NoItems(h, u);
      return rc, v;
    }
    rc, w := DumpFilledArray(st, items, flags, depth, sink, h, u);
    Unmark(st, r, h, w);
    w := w - {r};
    if rc != 0 {
      return -1, w;
    }
    rc := sink.Dump([']' as int]);
    if Determined(sink, h) {
      Assoc5(old(sink.out), ['[' as int], Indent(flags, depth + 1, false), ItemsText(h, items, u, flags, depth),
          [']' as int]);
    }
  }

  lemma NoItems(h: Heap, v: set<Ref>)
    ensures Linked(h) ==> AllClear(h, [], v)
  {
  }

  // ---------------------------------------------------------------- objects

  /** The members `ms`, in some order, are the pairs of `members`. */
  ghost predicate Listed(h: Heap, ms: seq<T.Pair<Text, Ref>>, members: Members) {
    forall i :: 0 <= i < |ms| ==>
        Live(h, ms[i].value) && 0 !in ms[i].key && T.Get(members, ms[i].key) == Some(ms[i].value)
  }

  lemma MemberStep(h: Heap, ms: seq<T.Pair<Text, Ref>>, i: nat, v: set<Ref>, flags: Flags, depth: nat)
    requires Linked(h) && i < |ms|
    ensures EachClear(h, ms[i..], v) <==> PairClear(h, ms[i], v) && EachClear(h, ms[i + 1..], v)
    ensures Keyed(ms) ==> Keyed(ms[i..]) && Keyed(ms[i + 1..]) && PrintableText(ms[i].key)
    ensures EachClear(h, ms[i..], v) && Keyed(ms) && Writable(h) ==>
              MembersText(h, ms[i..], v, flags, depth)
              == MemberText(h, ms[i], v, flags, depth) + Between(flags, depth, i + 1 == |ms|) +
                  MembersText(h, ms[i + 1..], v, flags, depth)
  {
    hide PairClear, MemberText, Between, PrintableText, Linked;
    assert ms[i..][1..] == ms[i + 1..];
    if PairClear(h, ms[i], v) && EachClear(h, ms[i + 1..], v) {
      forall j | 0 <= j < |ms[i..]| ensures PairClear(h, ms[i..][j], v) {
        if j > 0 {
          assert ms[i..][j] == ms[i + 1..][j - 1];
        }
      }
    }
    if EachClear(h, ms[i..], v) {
      assert ms[i..][0] == ms[i];
      var later := ms[i + 1..];
      forall j | 0 <= j < |later| ensures PairClear(h, later[j], v) {
        assert later[j] == ms[i..][j + 1];
      }
    }
  }

  ghost predicate MembersLeft(h: Heap, ms: seq<T.Pair<Text, Ref>>, i: nat, v: set<Ref>, flags: Flags, depth: nat,
          start: Text, out: Text)
    requires Writable(h) && i <= |ms| && Keyed(ms)
  {
    && (EachClear(h, ms, v) <==> EachClear(h, ms[i..], v))
    && (EachClear(h, ms, v) ==>
        out + MembersText(h, ms[i..], v, flags, depth) == start + MembersText(h, ms, v, flags, depth))
  }

  lemma MembersStart(h: Heap, ms: seq<T.Pair<Text, Ref>>, v: set<Ref>, flags: Flags, depth: nat, out: Text)
    requires Writable(h) && Keyed(ms)
    ensures MembersLeft(h, ms, 0, v, flags, depth, out, out)
  {
    assert ms[0..] == ms;
  }

  lemma MembersFail(h: Heap, ms: seq<T.Pair<Text, Ref>>, i: nat, v: set<Ref>, flags: Flags, depth: nat, start: Text,
          out: Text)
    requires Writable(h) && Keyed(ms) && i < |ms| && MembersLeft(h, ms, i, v, flags, depth, start, out) &&
              !PairClear(h, ms[i], v)
    ensures !EachClear(h, ms, v)
  {
    hide MembersText, PairClear, EachClear;
    MemberStep(h, ms, i, v, flags, depth);
  }

  lemma MembersNext(h: Heap, ms: seq<T.Pair<Text, Ref>>, i: nat, v: set<Ref>, flags: Flags, depth: nat, start: Text,
          out: Text, next: Text)
    requires Writable(h) && Keyed(ms) && i < |ms| && MembersLeft(h, ms, i, v, flags, depth, start, out) &&
              PairClear(h, ms[i], v)
    requires PrintableText(ms[i].key) &&
              next == out + MemberText(h, ms[i], v, flags, depth) + Between(flags, depth, i + 1 == |ms|)
    ensures MembersLeft(h, ms, i + 1, v, flags, depth, start, next)
  {
    hide PairClear, EachClear, MemberText, MembersText, Between, PrintableText;
    MemberStep(h, ms, i, v, flags, depth);
    if EachClear(h, ms, v) {
      Assoc4(out, MemberText(h, ms[i], v, flags, depth), Between(flags, depth, i + 1 == |ms|),
          MembersText(h, ms[i + 1..], v, flags, depth));
    }
  }

  lemma MembersDone(h: Heap, ms: seq<T.Pair<Text, Ref>>, v: set<Ref>, flags: Flags, depth: nat, start: Text, out: Text)
    requires Writable(h) && Keyed(ms) && MembersLeft(h, ms, |ms|, v, flags, depth, start, out)
    ensures EachClear(h, ms, v) && out == start + MembersText(h, ms, v, flags, depth)
  {
    assert ms[|ms|..] == [];
    assert out + [] == out;
  }

  /** A key, the separator and the value; whether the key could be written is not asked. */
  method DumpMember(st: Store, r: Ref, key: Text, value: Ref, flags: Flags, depth: nat, sink: Sink, ghost h: Heap,
          ghost v: set<Ref>) returns (rc: int, ghost w: set<Ref>)
    requires Linked(h) && Marked(st.cells, h, v) && CStrings(h) && Live(h, value) && 0 !in key
    modifies st`cells, sink
    ensures Untouched(old(st.cells), st.cells, h)
    ensures (rc == 0 || rc == -1) && Marked(st.cells, h, w) && w <= v && (rc == 0 ==> w == v)
    ensures Determined(sink, h) ==> (rc == 0 <==> Clear(h, value, v))
    ensures Determined(sink, h) && rc == 0 && PrintableText(key) ==>
              sink.out == old(sink.out) +
                  (StringText(key, flags.ensureAscii) + Separator(flags) + TextOf(h, value, v, flags, depth + 1))
    decreases All(h) - v, 3, 0
  {
    hide Clear, Marked, Linked, All, Writable, TextOf, StringText, Utf8.Valid;
    w := v;
    var _ := DumpString(key, flags.ensureAscii, sink);
    rc := sink.Dump(if flags.compact then [':' as int] else [':' as int, ' ' as int]);
    if rc != 0 {
      return -1, v;
    }
    ghost var out := sink.out;
    rc, w := DoDump(st, value, flags, depth + 1, sink, h, v);
    if Determined(sink, h) && rc == 0 && PrintableText(key) {
      Assoc3(old(sink.out), StringText(key, flags.ensureAscii), Separator(flags),
          TextOf(h, value, v, flags, depth + 1));
    }
  }

  lemma Assoc3(a: Text, b: Text, c: Text, d: Text)
    ensures a + b + c + d == a + (b + c + d)
  {
  }

  /**
   The loops of `do_dump` over an object.  When keys are sorted, each value is looked up by its key,
   and the look-up finds it.
   */
  method DumpMembers(st: Store, r: Ref, ms: seq<T.Pair<Text, Ref>>, flags: Flags, depth: nat, sink: Sink,
          ghost h: Heap, ghost v: set<Ref>) returns (rc: int, ghost w: set<Ref>)
    requires Linked(h) && Marked(st.cells, h, v) && CStrings(h)
    requires Live(h, r) && h[r].node.Object? && Listed(h, ms, h[r].node.members)
    modifies st`cells, sink
    ensures Untouched(old(st.cells), st.cells, h)
    ensures (rc == 0 || rc == -1) && Marked(st.cells, h, w) && w <= v && (rc == 0 ==> w == v)
    ensures Determined(sink, h) && Keyed(ms) ==> (rc == 0 <==> EachClear(h, ms, v))
    ensures Determined(sink, h) && Keyed(ms) && rc == 0 ==>
              sink.out == old(sink.out) + MembersText(h, ms, v, flags, depth)
    decreases All(h) - v, 4, 0
  {
    hide Clear, EachClear, Marked, Linked, All, Writable, MembersText, MembersLeft, TextOf, StringText, Between,
        PrintableText, T.Get, Separator;
    w := v;
    ghost var start := sink.out;
    if Determined(sink, h) && Keyed(ms) {
      MembersStart(h, ms, v, flags, depth, start);
    }
    var i := 0;
    while i < |ms|
      invariant 0 <= i <= |ms| && Marked(st.cells, h, v) && w == v && Untouched(old(st.cells), st.cells, h)
      invariant Determined(sink, h) && Keyed(ms) ==> MembersLeft(h, ms, i, v, flags, depth, start, sink.out)
    {
      ghost var out := sink.out;
      NodeIs(st.cells, h, v, r);
      var value := ms[i].value;
      if flags.sortKeys || flags.preserveOrder {
        var found := T.Get(st.cells[r].node.members, ms[i].key);
        assert found.Some?;
        value := found.value;
      }
      rc, w := DumpMember(st, r, ms[i].key, value, flags, depth, sink, h, v);
      if rc != 0 {
        if Determined(sink, h) && Keyed(ms) {
          MembersFail(h, ms, i, v, flags, depth, start, out);
        }
        return -1, w;
      }
      rc := DumpBetween(flags, depth, i + 1 == |ms|, sink);
      if rc != 0 {
        return -1, w;
      }
      if Determined(sink, h) && Keyed(ms) {
        MembersNext(h, ms, i, v, flags, depth, start, out, sink.out);
      }
      i := i + 1;
    }
    if Determined(sink, h) && Keyed(ms) {
      MembersDone(h, ms, v, flags, depth, start, sink.out);
    }
    rc := 0;
  }

  lemma ListedArranged(h: Heap, r: Ref, flags: Flags)
    requires Linked(h) && CStrings(h) && Live(h, r) && h[r].node.Object?
    ensures Listed(h, Arrange(flags, h[r].node.members.order), h[r].node.members)
    ensures |Arrange(flags, h[r].node.members.order)| == |h[r].node.members.order|
  {
    hide Arrange;
    var order := h[r].node.members.order;
    var ms := Arrange(flags, order);
    assert |multiset(ms)| == |multiset(order)|;
    forall i | 0 <= i < |ms|
      ensures Live(h, ms[i].value) && 0 !in ms[i].key && T.Get(h[r].node.members, ms[i].key) == Some(ms[i].value)
    {
      var m := ms[i];
      assert m in multiset(ms) && m in multiset(order);
      var j :| 0 <= j < |order| && order[j] == m;
      PairValue(order, j);
      T.FindAt(order, j);
    }
  }

  lemma {:induction false} EachClearIsAllClear(h: Heap, order: seq<T.Pair<Text, Ref>>, v: set<Ref>)
    requires Linked(h) && forall c: Ref :: c in ValuesIn(order) ==> Live(h, c)
    ensures EachClear(h, order, v) <==> AllClear(h, ValuesIn(order), v)
    decreases |order|
  {
    if AllClear(h, ValuesIn(order), v) {
      PairsClear(h, order, v);
    }
    if EachClear(h, order, v) && order != [] {
      assert ValuesIn(order)[1..] == ValuesIn(order[1..]);
      forall c: Ref | c in ValuesIn(order[1..]) ensures Live(h, c) {
        assert c in ValuesIn(order);
      }
      assert forall i {:trigger order[1..][i]} :: 0 <= i < |order| - 1 ==> order[1..][i] == order[i + 1];
      EachClearIsAllClear(h, order[1..], v);
      assert PairClear(h, order[0], v);
    }
  }

  lemma EachClearArranged(h: Heap, flags: Flags, order: seq<T.Pair<Text, Ref>>, v: set<Ref>)
    requires Linked(h)
    ensures EachClear(h, Arrange(flags, order), v) <==> EachClear(h, order, v)
  {
    hide Arrange, PairClear;
    var ms := Arrange(flags, order);
    if EachClear(h, ms, v) {
      forall i | 0 <= i < |order| ensures PairClear(h, order[i], v) {
        assert order[i] in multiset(order) && order[i] in multiset(ms);
        var j :| 0 <= j < |ms| && ms[j] == order[i];
      }
    }
    if EachClear(h, order, v) {
      forall i | 0 <= i < |ms| ensures PairClear(h, ms[i], v) {
        assert ms[i] in multiset(ms) && ms[i] in multiset(order);
        var j :| 0 <= j < |order| && order[j] == ms[i];
      }
    }
  }

  lemma ObjectIs(h: Heap, r: Ref, v: set<Ref>, flags: Flags, depth: nat)
    requires Linked(h) && Live(h, r) && h[r].node.Object?
    ensures r in v ==> !Clear(h, r, v)
    ensures r !in v ==> All(h) - (v + {r}) < All(h) - v && v + {r} - {r} == v
    ensures r !in v ==> (Clear(h, r, v) <==> EachClear(h, Arrange(flags, h[r].node.members.order), v + {r}))
    ensures Writable(h) ==> Keyed(Arrange(flags, h[r].node.members.order))
    ensures r !in v && Clear(h, r, v) && Writable(h) ==>
              TextOf(h, r, v, flags, depth) ==
              if h[r].node.members.order == [] then ['{' as int, '}' as int]
              else ['{' as int] + Indent(flags, depth + 1, false)
                   + MembersText(h, Arrange(flags, h[r].node.members.order), v + {r}, flags, depth) + ['}' as int]
  {
    hide TextOf, MembersText, Indent, Arrange, EachClear, PrintableText;
    ChildrenLive(h, r);
    var order := h[r].node.members.order;
    if Writable(h) {
      assert WritableNode(h[r].node);
      ArrangedKeys(flags, order);
    }
    if r !in v {
      LessLeft(h, r, v);
      EachClearIsAllClear(h, order, v + {r});
      EachClearArranged(h, flags, order, v + {r});
      if Clear(h, r, v) && Writable(h) {
        ObjectText(h, r, v, flags, depth);
      }
    }
  }

  method DumpObject(st: Store, r: Ref, flags: Flags, depth: nat, sink: Sink, ghost h: Heap, ghost v: set<Ref>)
    returns (rc: int, ghost w: set<Ref>)
    requires Linked(h) && Live(h, r) && h[r].node.Object? && Marked(st.cells, h, v) && CStrings(h)
    modifies st`cells, sink
    ensures Untouched(old(st.cells), st.cells, h)
    ensures (rc == 0 || rc == -1) && Marked(st.cells, h, w) && w <= v && (rc == 0 ==> w == v)
    ensures Determined(sink, h) ==> (rc == 0 <==> Clear(h, r, v))
    ensures Determined(sink, h) && rc == 0 ==> sink.out == old(sink.out) + TextOf(h, r, v, flags, depth)
    decreases All(h) - v, 1, 0
  {
    hide Clear, EachClear, Marked, Linked, All, Writable, MembersText, TextOf, Indent, Arrange, Listed, Keyed;
    NodeIs(st.cells, h, v, r);
    ObjectIs(h, r, v, flags, depth);
    ListedArranged(h, r, flags);
    if st.cells[r].visited {
      Unmark(st, r, h, v);
      return -1, v - {r};
    }
    Mark(st.cells, h, v, r);
    st.cells := st.cells[r := st.cells[r].(visited := true)];
    ghost var u := v + {r};
    NodeIs(st.cells, h, u, r);
    var order := st.cells[r].node.members.order;
    rc := sink.Dump(['{' as int]);
    if rc != 0 {
      Unmark(st, r, h, u);
      return -1, v;
    }
    if order == [] {
      Unmark(st, r, h, u);
      rc := sink.Dump(['}' as int]);
      NoMembers(h, flags, u);
      return rc, v;
    }
    ghost var out := sink.out;
    rc, w := DumpFilledObject(st, r, order, flags, depth, sink, h, u);
    Unmark(st, r, h, w);
    w := w - {r};
    if rc != 0 {
      return -1, w;
    }
    rc := sink.Dump(['}' as int]);
    if Determined(sink, h) {
      Assoc5(old(sink.out), ['{' as int], Indent(flags, depth + 1, false),
          MembersText(h, Arrange(flags, order), u, flags, depth), ['}' as int]);
    }
  }

  /** The inside of an object that has members. */
  method DumpFilledObject(st: Store, r: Ref, order: seq<T.Pair<Text, Ref>>, flags: Flags, depth: nat, sink: Sink,
          ghost h: Heap, ghost u: set<Ref>) returns (rc: int, ghost w: set<Ref>)
    requires Linked(h) && Live(h, r) && h[r].node.Object? && Marked(st.cells, h, u) && CStrings(h) &&
              order == h[r].node.members.order
    requires Listed(h, Arrange(flags, order), h[r].node.members)
    modifies st`cells, sink
    ensures Untouched(old(st.cells), st.cells, h)
    ensures (rc == 0 || rc == -1) && Marked(st.cells, h, w) && w <= u && (rc == 0 ==> w == u)
    ensures Determined(sink, h) && Keyed(Arrange(flags, order)) ==>
              (rc == 0 <==> EachClear(h, Arrange(flags, order), u))
    ensures Determined(sink, h) && Keyed(Arrange(flags, order)) && rc == 0 ==>
              sink.out == old(sink.out) +
                  (Indent(flags, depth + 1, false) + MembersText(h, Arrange(flags, order), u, flags, depth))
    decreases All(h) - u, 5, 0
  {
    hide EachClear, Marked, Linked, All, Writable, MembersText, Indent, Arrange, Listed, Keyed;
    w := u;
    rc := DumpIndent(flags, depth + 1, false, sink);
    if rc != 0 {
      return -1, w;
    }
    rc, w := DumpMembers(st, r, Arrange(flags, order), flags, depth, sink, h, u);
  }

  lemma NoMembers(h: Heap, flags: Flags, v: set<Ref>)
    requires Linked(h)
    ensures EachClear(h, Arrange(flags, []), v)
  {
    EachClearArranged(h, flags, [], v);
  }

  // ---------------------------------------------------------------- json_dump_callback

  /**
   `json_dump_callback` on a heap without marks: afterwards there is none, whatever happened.  When what
   is reachable can be written and the callback never fails, it succeeds exactly when no cycle is
   reachable, and the text is that of the tree which the graph unfolds to.
   */
  method DumpCallback(st: Store, r: Ref, flags: Flags, sink: Sink) returns (rc: int)
    requires Linked(st.cells) && Live(st.cells, r) && CStrings(st.cells)
    requires forall q: Ref :: q < |st.cells| ==> !st.cells[q].visited
    modifies st`cells, sink
    ensures st.cells == old(st.cells) && (rc == 0 || rc == -1)
    ensures old(!flags.encodeAny && !Container(st.cells[r].node)) ==> rc == -1 && sink.out == old(sink.out)
    ensures old(flags.encodeAny || Container(st.cells[r].node)) && sink.Reliable() && WritableFrom(old(st.cells), r) ==>
              && (rc == 0 <==> !CycleReachable(old(st.cells), r))
              && (rc == 0 ==>
                  Clear(old(st.cells), r, {}) && sink.out == old(sink.out) + GraphText(old(st.cells), r, flags))
  {
    hide Clear, Linked, Writable, WritableFrom, TextOf, GraphText, CycleReachable, Below, Marked, CStrings, Untouched;
    if !flags.encodeAny {
      if !Container(st.cells[r].node) {
        return -1;
      }
    }
    ghost var h := st.cells;
    ghost var part := Only(h, Below(h, r));
    ghost var w;
    PartIsUnmarked(h, r);
    rc, w := DoDump(st, r, flags, 0, sink, part, {});
    assert w == {};
    WholeAgain(h, st.cells, r);
    if WritableFrom(h, r) {
      OnlyText(h, r, flags);
    }
    ClearIffAcyclic(h, r);
  }

  /** What is below `r`, as a part of the heap that `do_dump` can look at. */
  lemma PartIsUnmarked(h: Heap, r: Ref)
    requires Linked(h) && Live(h, r) && CStrings(h) && forall q: Ref :: q < |h| ==> !h[q].visited
    ensures var part := Only(h, Below(h, r));
            Linked(part) && Live(part, r) && CStrings(part) && Marked(h, part, {}) && part[r] == h[r]
  {
    hide Linked, Below;
    RootIsBelow(h, r);
    BelowIsClosed(h, r);
    OnlyIsLinked(h, Below(h, r));
  }

  lemma WholeAgain(h: Heap, cells: Heap, r: Ref)
    requires forall q: Ref :: q < |h| ==> !h[q].visited
    requires Marked(cells, Only(h, Below(h, r)), {}) && Untouched(h, cells, Only(h, Below(h, r)))
    ensures cells == h
  {
    hide Below;
    forall q: Ref | q < |h| ensures cells[q] == h[q] {
      if Live(Only(h, Below(h, r)), q) {
      }
    }
  }
}
