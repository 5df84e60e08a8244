/** The byte stream of `load.c`: UTF-8 checking, one step of pushback, line and column counting. */
module Streams {
  import opened Bytes
  import opened Input
  import opened Tokens
  import Utf8

  const STREAM_STATE_OK := 0
  const STREAM_STATE_EOF := -1
  const STREAM_STATE_ERROR := -2

  /** What `stream_get` answers when nothing is left to deliver. */
  function Status(end: End): int {
    if end.AtEof? then STREAM_STATE_EOF else STREAM_STATE_ERROR
  }

  function Newlines(t: Text): nat {
    if t == [] then 0 else Newlines(t[..|t| - 1]) + (if t[|t| - 1] == '\n' as int then 1 else 0)
  }

  /** The number of code points that start on the last line. */
  function Column(t: Text): nat {
    if t == [] || t[|t| - 1] == '\n' as int then 0
    else Column(t[..|t| - 1]) + (if Utf8.CheckFirst(t[|t| - 1]) > 0 then 1 else 0)
  }

  lemma CountOneMore(t: Text, b: byte)
    ensures Newlines(t + [b]) == Newlines(t) + (if b == '\n' as int then 1 else 0)
    ensures Column(t + [b]) == if b == '\n' as int then 0 else Column(t) + (if Utf8.CheckFirst(b) > 0 then 1 else 0)
  {
    assert (t + [b])[..|t|] == t;
  }

  /** The line is counted by the newlines. */
  lemma {:induction false} NewlinesExactly(t: Text)
    ensures Newlines(t) == multiset(t)['\n' as int]
    decreases |t|
  {
    if t != [] {
      var front, last := t[..|t| - 1], t[|t| - 1];
      NewlinesExactly(front);
      assert t == front + [last];
    }
  }

  lemma ColumnOfOne(p: Text, cp: int)
    requires Utf8.Scalar(cp) && cp != '\n' as int
    ensures Column(p + Utf8.Encoded(cp)) == Column(p) + 1
  {
    hide Column;
    var e := Utf8.Encoded(cp);
    FirstOnly(cp);
    CountOneMore(p, e[0]);
    assert p + [e[0]] == p + e[..1];
    ColumnOfTail(p, e, 1);
    assert e[..|e|] == e;
  }

  lemma FirstOnly(cp: int)
    requires Utf8.Scalar(cp) && cp != '\n' as int
    ensures var e := Utf8.Encoded(cp);
            e[0] != '\n' as int && Utf8.CheckFirst(e[0]) > 0 &&
                forall i :: 0 < i < |e| ==> e[i] != '\n' as int && Utf8.CheckFirst(e[i]) == 0
  {
  }

  lemma {:induction false} ColumnOfTail(p: Text, e: Text, k: nat)
    requires 0 < k <= |e| && forall i :: 0 < i < |e| ==> e[i] != '\n' as int && Utf8.CheckFirst(e[i]) == 0
    ensures Column(p + e) == Column(p + e[..k])
    decreases |e| - k
  {
    hide Column, Utf8.CheckFirst;
    if k == |e| {
      assert e[..k] == e;
    } else {
      CountOneMore(p + e[..k], e[k]);
      assert p + e[..k] + [e[k]] == p + e[..k + 1];
      ColumnOfTail(p, e, k + 1);
    }
  }

  lemma {:induction false} ColumnOfMany(p: Text, cps: seq<int>)
    requires Utf8.AllScalar(cps) && '\n' as int !in cps
    ensures Column(p + Utf8.EncodeAll(cps)) == Column(p) + |cps|
    decreases |cps|
  {
    hide Column, Utf8.Encoded;
    if cps == [] {
      assert p + Utf8.EncodeAll(cps) == p;
    } else {
      ColumnOfOne(p, cps[0]);
      ColumnOfMany(p + Utf8.Encoded(cps[0]), cps[1..]);
      assert p + Utf8.EncodeAll(cps) == p + Utf8.Encoded(cps[0]) + Utf8.EncodeAll(cps[1..]);
    }
  }

  /** The column is the number of code points behind the last newline. */
  lemma ColumnExactly(lines: Text, line: Text)
    requires (lines == [] || lines[|lines| - 1] == '\n' as int) && Utf8.Valid(line) && '\n' as int !in Utf8.Decode(line)
    ensures Column(lines + line) == |Utf8.Decode(line)|
  {
    Utf8.EncodeDecode(line);
    ColumnOfMany(lines, Utf8.Decode(line));
  }

  /** Delivered bytes are neither NUL nor among those that a signed `char` would confuse with a status. */
  predicate Deliverables(t: Text) {
    forall i | 0 <= i < |t| :: 0 < t[i] < 0xF5
  }

  lemma {:induction false} EncodedBytes(cp: int)
    requires Utf8.Scalar(cp) && cp != 0
    ensures Deliverables(Utf8.Encoded(cp))
  {
  }

  lemma {:induction false} DeliveredBytes(s: Text)
    requires 0 !in s
    ensures Deliverables(Deliverable(s))
  {
    var n := Utf8.UnitLength(s);
    if n > 0 {
      Utf8.UnitIsEncoded(s);
      assert s[0] == Utf8.Encoded(Utf8.UnitValue(s))[0];
      EncodedBytes(Utf8.UnitValue(s));
      DeliveredBytes(s[n..]);
      assert Deliverables(s[..n]);
    }
  }

  /** What the buffer holds: behind the first byte of a code point there are only continuation bytes. */
  predicate OneUnit(b: Text) {
    forall i | 0 <= i < |b| :: b[i] != 0 && (i > 0 ==> Utf8.Continuation(b[i]))
  }

  lemma UnitIsOne(s: Text)
    requires Utf8.UnitLength(s) > 0 && s[0] != 0
    ensures OneUnit(s[..Utf8.UnitLength(s)])
  {
  }

  class Stream {
    const source: CString
    var pos: nat
    const buffer: array<byte>
    var bufferPos: nat
    var state: int
    var line: int
    var column: int
    var lastColumn: int
    var position: int
    /** How many bytes of `buffer` are in use, and what has been delivered so far. */
    ghost var filled: nat
    ghost var consumed: Text

    ghost predicate Shape()
      reads this, buffer
    {
      && buffer.Length == 5 && pos <= |source| <= INT_MAX && filled <= 4
      && (state == STREAM_STATE_OK || state == STREAM_STATE_EOF || state == STREAM_STATE_ERROR)
      && (state == STREAM_STATE_OK ==> bufferPos <= filled && buffer[filled] == 0 && OneUnit(buffer[..filled]))
    }

    /** The remaining input: cached bytes, then what the source still delivers. */
    ghost function Rest(): Text
      requires Shape()
      reads this, buffer
    {
      if state != STREAM_STATE_OK then [] else buffer[bufferPos..filled] + Deliverable(source[pos..])
    }

    ghost function Ending(): End
      requires Shape()
      reads this, buffer
    {
      if state == STREAM_STATE_EOF then AtEof
      else if state == STREAM_STATE_ERROR then AtError
      else EndOf(source[pos..])
    }

    ghost predicate Valid()
      reads this, buffer
    {
      && Shape()
      && consumed + Rest() == Deliverable(source) && Ending() == EndOf(source)
      && Counts(consumed)
    }

    /** The last byte delivered is still in the buffer, with what it takes to push it back. */
    ghost predicate JustRead()
      reads this, buffer
    {
      && Valid() && state == STREAM_STATE_OK && bufferPos > 0 && consumed != []
      && buffer[bufferPos - 1] == consumed[|consumed| - 1]
      && (consumed[|consumed| - 1] == '\n' as int ==> lastColumn == Column(consumed[..|consumed| - 1]))
    }

    constructor (text: CString)
      requires |text| <= INT_MAX
      ensures Valid() && fresh(buffer) && source == text && consumed == []
      ensures Rest() == Deliverable(text) && Ending() == EndOf(text)
    {
      source := text;
      pos := 0;
      buffer := new byte[5](_ => 0);
      bufferPos := 0;
      state := STREAM_STATE_OK;
      line, column, lastColumn, position := 1, 0, 0, 0;
      filled, consumed := 0, [];
      new;
      assert source[0..] == source;
    }

    /** `string_get`. */
    method Fetch() returns (c: int)
      requires pos <= |source|
      modifies this`pos
      ensures old(pos) == |source| ==> c == -1 && pos == old(pos)
      ensures old(pos) < |source| ==> c == source[old(pos)] && pos == old(pos) + 1
    {
      if pos == |source| {
        return -1;
      }
      c := source[pos];
      pos := pos + 1;
    }

    /** The bytes behind the first of a multi-byte sequence; a missing one is stored as 0xFF. */
    method FetchContinuation(count: nat)
      requires buffer.Length == 5 && 1 < count <= 4 && 0 < pos <= |source| && buffer[0] == source[pos - 1]
      modifies this`pos, buffer
      ensures pos <= |source|
      ensures buffer[0] == old(buffer[0])
      ensures var p := old(pos) - 1;
              if p + count <= |source| then pos == p + count && buffer[..count] == source[p..p + count]
              else exists i | 1 <= i < count :: buffer[i] == 0xFF
    {
      ghost var p := pos - 1;
      var i := 1;
      while i < count
        invariant 1 <= i <= count && p < pos <= |source| && buffer[0] == source[p]
        invariant if p + i <= |source| then pos == p + i && buffer[..i] == source[p..p + i]
                  else pos == |source| && exists j | 1 <= j < i :: buffer[j] == 0xFF
      {
        ghost var before := buffer[..i];
        var c := Fetch();
        buffer[i] := ToByte(c);
        assert buffer[..i] == before && buffer[..i + 1] == before + [buffer[i]];
        if p + i + 1 <= |source| {
          assert source[p..p + i + 1] == source[p..p + i] + [source[p + i]];
        } else if p + i > |source| {
          var j :| 1 <= j < i && before[j] == 0xFF;
          assert buffer[j] == 0xFF;
        }
        i := i + 1;
      }
    }

    /** The code point whose first byte `c` has just been fetched goes into the buffer. */
    method FetchUnit(c: byte) returns (ok: bool, ghost n: nat)
      requires buffer.Length == 5 && 0 < pos <= |source| && c == source[pos - 1]
      modifies this`pos, buffer
      ensures pos <= |source|
      ensures n == Utf8.UnitLength(source[old(pos) - 1..])
      ensures ok <==> n > 0
      ensures ok ==> pos == old(pos) - 1 + n && buffer[..n] == source[old(pos) - 1..pos] && buffer[n] == 0
    {
      hide Utf8.UnitLength, Utf8.FullValue;
      ghost var p := pos - 1;
      ghost var s := source[p..];
      n := Utf8.UnitLength(s);
      assert s[0] == c;
      buffer[0] := c;
      if 0x80 <= c {
        var count := Utf8.CheckFirst(c);
        if count == 0 {
          NoUnit(s);
          return false, n;
        }
        assert count >= 2;
        FetchContinuation(count);
        var full, _ := Utf8.CheckFull(buffer[..], 0, count);
        assert buffer[..][0..count] == buffer[..count];
        if p + count <= |source| {
          assert s[..count] == source[p..p + count];
        }
        if !full {
          UnitRefused(s, count, buffer[..count]);
          return false, n;
        }
        UnitAccepted(s, count, buffer[..count]);
        ghost var front := buffer[..count];
        buffer[count] := 0;
        assert buffer[..count] == front;
      } else {
        AsciiUnit(s);
        buffer[1] := 0;
      }
      return true, n;
    }

    lemma Refilled(p: nat, n: nat)
      requires buffer.Length == 5 && |source| <= INT_MAX && 0 < n <= 4 && p + n <= |source|
      requires state == STREAM_STATE_OK && bufferPos == 0 && filled == n && pos == p + n
      requires buffer[..n] == source[p..p + n] && buffer[n] == 0 && OneUnit(buffer[..n])
      ensures Shape() && Rest() == source[p..p + n] + Deliverable(source[p + n..]) && Ending() == EndOf(source[p + n..])
    {
      hide Deliverable, EndOf;
      assert buffer[0..n] == buffer[..n];
    }

    lemma CacheIsEmpty()
      requires Shape() && state == STREAM_STATE_OK && bufferPos == filled
      ensures Rest() == Deliverable(source[pos..]) && Ending() == EndOf(source[pos..])
    {
      assert buffer[bufferPos..filled] == [];
    }

    lemma Stopped()
      requires Shape() && state != STREAM_STATE_OK
      ensures Rest() == [] && state == Status(Ending())
    {
    }

    /** The refill at the start of `stream_get`: one more code point, or a status. */
    method Refill() returns (ok: bool)
      requires Valid() && state == STREAM_STATE_OK && bufferPos == filled
      modifies this`pos, this`bufferPos, this`state, this`filled, buffer
      ensures Valid() && Rest() == old(Rest()) && Ending() == old(Ending())
      ensures ok <==> Rest() != []
      ensures ok ==> state == STREAM_STATE_OK && bufferPos == 0 < filled
      ensures !ok ==> state == Status(Ending())
    {
      hide Deliverable, EndOf, Utf8.UnitLength, Newlines, Column, Rest, Ending;
      ghost var p := pos;
      CacheIsEmpty();
      UnfoldInput(source[p..]);
      var c := Fetch();
      if c == -1 {
        NoUnit(source[p..]);
        state := STREAM_STATE_EOF;
        Stopped();
        return false;
      }
      bufferPos := 0;
      ghost var n;
      ok, n := FetchUnit(c);
      if !ok {
        state := STREAM_STATE_ERROR;
        Stopped();
        return false;
      }
      filled := n;
      Slices(source, p, n);
      UnitIsOne(source[p..]);
      Refilled(p, n);
    }

    lemma Cached()
      requires Shape() && state == STREAM_STATE_OK
      ensures Rest() == buffer[bufferPos..filled] + Deliverable(source[pos..]) && Ending() == EndOf(source[pos..])
    {
    }

    lemma CacheEnd()
      requires Shape() && state == STREAM_STATE_OK
      ensures bufferPos <= filled && bufferPos < buffer.Length && (buffer[bufferPos] != 0 <==> bufferPos < filled)
    {
      assert bufferPos < filled ==> buffer[bufferPos] == buffer[..filled][bufferPos];
    }

    /** The byte at `bufferPos` is handed out: what is cached loses its first byte. */
    lemma CacheStarts()
      requires Valid() && state == STREAM_STATE_OK && bufferPos < filled
      ensures Rest() != [] && Rest()[0] == buffer[bufferPos]
      ensures Rest()[1..] == buffer[bufferPos + 1..filled] + Deliverable(source[pos..])
      ensures 0 < buffer[bufferPos] < 0xF5
    {
      hide Deliverable, EndOf, Newlines, Column, Utf8.CheckFirst, Utf8.UnitLength, Deliverables, Rest, Ending, OneUnit;
      Cached();
      CacheFront();
      DeliveredBytes(source);
      FirstDelivered(consumed, buffer[bufferPos], Rest(), Deliverable(source));
    }

    lemma CacheFront()
      requires bufferPos < filled <= buffer.Length
      ensures buffer[bufferPos..filled] == [buffer[bufferPos]] + buffer[bufferPos + 1..filled]
    {
    }

    /** `stream_get`. */
    method Get() returns (c: int)
      requires Valid()
      modifies this, buffer
      ensures Valid() && Ending() == old(Ending())
      ensures old(Rest()) == [] ==> c == Status(Ending()) && Rest() == [] && consumed == old(consumed)
      ensures old(Rest()) != [] ==>
                && JustRead() && c == SignedChar(old(Rest())[0]) && c != STREAM_STATE_EOF && c != STREAM_STATE_ERROR
                && Rest() == old(Rest())[1..] && consumed == old(consumed) + [old(Rest())[0]]
    {
      hide Deliverable, EndOf, Newlines, Column, Utf8.CheckFirst;
      if state != STREAM_STATE_OK {
        return state;
      }
      CacheEnd();
      if buffer[bufferPos] == 0 {
        var ok := Refill();
        if !ok {
          return state;
        }
      }
      CacheStarts();
      c := Take();
    }

    /** Position, line and column are those of `t`. */
    ghost predicate Counts(t: Text)
      reads this`position, this`line, this`column
    {
      position == |t| && line == 1 + Newlines(t) && column == Column(t)
    }

    /** The second half of `stream_get`. */
    method Take() returns (c: int)
      requires Valid() && state == STREAM_STATE_OK && bufferPos < filled
      modifies this`bufferPos, this`position, this`line, this`lastColumn, this`column, this`consumed
      ensures c == SignedChar(old(Rest())[0]) && c != STREAM_STATE_EOF && c != STREAM_STATE_ERROR
      ensures JustRead() && Ending() == old(Ending())
      ensures Rest() == old(Rest())[1..] && consumed == old(consumed) + [old(Rest())[0]]
    {
      hide Deliverable, EndOf, Newlines, Column, Utf8.CheckFirst, Rest, Ending, OneUnit, Counts, Status;
      ghost var b, whole := buffer[bufferPos], Rest();
      CacheStarts();
      Cached();
      assert whole == [b] + whole[1..];
      c := SignedChar(buffer[bufferPos]);
      bufferPos := bufferPos + 1;
      Count(c, b);
      ghost var before := consumed;
      consumed := consumed + [b];
      assert consumed[..|consumed| - 1] == before;
      Cached();
      assert Rest() == whole[1..];
      Moved(before, b, Rest());
    }

    /** The byte `b`, as the character `c`, is counted. */
    method Count(c: int, ghost b: byte)
      requires Counts(consumed) && c == SignedChar(b)
      modifies this`position, this`line, this`lastColumn, this`column
      ensures Counts(consumed + [b]) && (b == '\n' as int ==> lastColumn == Column(consumed))
    {
      hide Newlines, Column, Utf8.CheckFirst, ToByte;
      CharIsByte(b);
      CountOneMore(consumed, b);
      position := position + 1;
      if c == '\n' as int {
        line := line + 1;
        lastColumn := column;
        column := 0;
      } else if Utf8.CheckFirst(ToByte(c)) > 0 {
        column := column + 1;
      }
    }

    lemma CacheBack(b: byte)
      requires bufferPos < filled <= buffer.Length && buffer[bufferPos] == b
      ensures buffer[bufferPos..filled] == [b] + buffer[bufferPos + 1..filled]
    {
    }

    /** `stream_unget`: nothing for a status, else the byte that was just read goes back. */
    method Unget(c: int)
      requires if c == STREAM_STATE_EOF || c == STREAM_STATE_ERROR then Valid()
               else JustRead() && c == SignedChar(consumed[|consumed| - 1])
      modifies this`bufferPos, this`position, this`line, this`column, this`consumed
      ensures Valid() && Ending() == old(Ending())
      ensures c == STREAM_STATE_EOF || c == STREAM_STATE_ERROR ==> Rest() == old(Rest()) && consumed == old(consumed)
      ensures c != STREAM_STATE_EOF && c != STREAM_STATE_ERROR ==>
                Rest() == [old(consumed)[|old(consumed)| - 1]] + old(Rest()) &&
                    consumed == old(consumed)[..|old(consumed)| - 1]
    {
      hide Deliverable, EndOf, Newlines, Column, Utf8.CheckFirst, Rest, Ending, OneUnit;
      if c == STREAM_STATE_EOF || c == STREAM_STATE_ERROR {
        return;
      }
      Cached();
      ghost var front, b := consumed[..|consumed| - 1], consumed[|consumed| - 1];
      assert consumed == front + [b];
      Uncount(c, front, b);
      assert bufferPos > 0;
      bufferPos := bufferPos - 1;
      assert SignedChar(buffer[bufferPos]) == c;
      consumed := front;
      Cached();
      CacheBack(b);
      Moved2([b], buffer[bufferPos + 1..filled], Deliverable(source[pos..]));
      Moved(front, b, old(Rest()));
    }

    /** The byte `b`, as the character `c`, is counted back. */
    method Uncount(c: int, ghost front: Text, ghost b: byte)
      requires Counts(front + [b]) && c == SignedChar(b) && (b == '\n' as int ==> lastColumn == Column(front))
      modifies this`position, this`line, this`column
      ensures Counts(front)
    {
      hide Newlines, Column, Utf8.CheckFirst, ToByte;
      CharIsByte(b);
      CountOneMore(front, b);
      position := position - 1;
      if c == '\n' as int {
        line := line - 1;
        column := lastColumn;
      } else if Utf8.CheckFirst(ToByte(c)) > 0 {
        column := column - 1;
      }
    }

    /** One step of `lex_save_cached`: a cached byte of the current code point is skipped. */
    method SkipCached() returns (c: byte)
      requires Valid() && state == STREAM_STATE_OK && bufferPos < filled && bufferPos > 0
      modifies this`bufferPos, this`position, this`consumed
      ensures state == old(state) && bufferPos == old(bufferPos) + 1 && filled == old(filled)
      ensures Valid() && Ending() == old(Ending())
      ensures old(Rest()) == [c] + Rest() && consumed == old(consumed) + [c]
    {
      hide Deliverable, EndOf, Newlines, Column, Rest, Ending;
      c := buffer[bufferPos];
      assert c == buffer[..filled][bufferPos];
      CacheStarts();
      Cached();
      CountOneMore(consumed, c);
      ghost var before := consumed;
      bufferPos := bufferPos + 1;
      position := position + 1;
      consumed := consumed + [c];
      Cached();
      Moved(before, c, Rest());
    }
  }

  /** What is handed out first is a byte of the whole input. */
  lemma FirstDelivered(done: Text, b: byte, rest: Text, whole: Text)
    requires done + rest == whole && rest != [] && rest[0] == b && Deliverables(whole)
    ensures 0 < b < 0xF5
  {
    assert whole[|done|] == b;
  }

  lemma Moved2(a: Text, b: Text, c: Text)
    ensures a + b + c == a + (b + c)
  {
  }

  lemma Moved(a: Text, b: byte, c: Text)
    ensures a + ([b] + c) == a + [b] + c
  {
  }

  lemma Slices(t: Text, p: nat, n: nat)
    requires p + n <= |t|
    ensures t[p..][..n] == t[p..p + n] && t[p..][n..] == t[p + n..]
  {
  }

  lemma NoUnit(s: Text)
    requires s == [] || Utf8.CheckFirst(s[0]) == 0
    ensures Utf8.UnitLength(s) == 0
  {
  }

  lemma AsciiUnit(s: Text)
    requires s != [] && s[0] < 0x80
    ensures Utf8.UnitLength(s) == 1
  {
  }

  lemma UnfoldInput(s: Text)
    ensures var n := Utf8.UnitLength(s);
            if n > 0 then Deliverable(s) == s[..n] + Deliverable(s[n..]) && EndOf(s) == EndOf(s[n..])
            else Deliverable(s) == [] && EndOf(s) == if s == [] then AtEof else AtError
  {
  }

  lemma UnitRefused(s: Text, count: nat, b: Text)
    requires s != [] && 2 <= count == Utf8.CheckFirst(s[0]) && |b| == count
    requires Utf8.FullValue(b).None?
    requires count <= |s| ==> b == s[..count]
    ensures Utf8.UnitLength(s) == 0
  {
  }

  lemma UnitAccepted(s: Text, count: nat, b: Text)
    requires s != [] && 2 <= count == Utf8.CheckFirst(s[0]) && |b| == count
    requires Utf8.FullValue(b).Some?
    requires if count <= |s| then b == s[..count] else exists i | 1 <= i < count :: b[i] == 0xFF
    ensures Utf8.UnitLength(s) == count <= |s| && b == s[..count]
  {
  }
}
