/** The interpreter of `pack_unpack.c` over its scanner; `PackFormat` says what it computes. */
module Packing {
  import opened Bytes
  import opened Json
  import opened PackFormat
  import T = Tables
  import Utf8

  class Scanner {
    const start: CString
    /** The index of the next character; one past the terminator once that has been returned. */
    var fmt: nat
    var token: byte
    var line: nat
    var column: nat

    constructor (format: CString)
      ensures start == format && Behind(Chars(format))
    {
      start := format;
      fmt, token, line, column := 0, 0, 1, 0;
      new;
      assert start[0..] == start;
    }

    /** The terminator has not been returned yet, and `cs` is to come. */
    ghost predicate Behind(cs: Text)
      reads this`fmt
    {
      fmt <= |start| && Chars(start[fmt..]) == cs
    }

    /** The current character is the first of `cs`; behind the terminator nothing may be read. */
    ghost predicate On(cs: Text)
      reads this`fmt, this`token
    {
      if cs == [] then token == 0 && fmt == |start| + 1 else token == cs[0] && token != 0 && Behind(cs[1..])
    }

    /** The character at `t`: the terminator is the last that may be read. */
    function CharAt(t: nat): byte
      requires t <= |start|
    {
      if t == |start| then 0 else start[t]
    }

    /** `next_token`: spaces, tabs, newlines, commas and colons are stepped over, the next other character is taken. */
    method NextToken(ghost cs: Text)
      requires Behind(cs)
      modifies this
      ensures On(cs) && token == At(cs) && (cs != [] ==> Behind(cs[1..]))
      ensures old(fmt) < fmt <= |start| + 1 && token == (if fmt == |start| + 1 then 0 else start[fmt - 1])
      ensures token != 0x20 && token != 0x09 && token != 0x0A && token != 0x2C && token != 0x3A
      ensures forall i :: old(fmt) <= i < fmt - 1 ==>
                start[i] == 0x20 || start[i] == 0x09 || start[i] == 0x0A || start[i] == 0x2C || start[i] == 0x3A
    {
      var t := fmt;
      column := column + 1;
      while Ignored(CharAt(t))
        invariant old(fmt) <= t <= |start| && Chars(start[t..]) == cs
        invariant forall i :: old(fmt) <= i < t ==> Ignored(start[i])
        decreases |start| - t
      {
        assert start[t..][1..] == start[t + 1..];
        if CharAt(t) == '\n' as int {
          line := line + 1;
          column := 1;
        } else {
          column := column + 1;
        }
        t := t + 1;
      }
      token := CharAt(t);
      assert t < |start| ==> start[t..][1..] == start[t + 1..];
      t := t + 1;
      fmt := t;
    }
  }

  /** What packing must come to: nothing when it fails, else the value, and the input behind it. */
  ghost predicate PacksTo(s: Scanner, r: Option<Doc>, args: seq<Arg>, p: Packed)
    reads s`fmt
  {
    if p.PackFails? then r.None? else p.Packed? && r == Some(p.d) && args == p.args && s.Behind(p.cs)
  }

  /** `pack`; `rest` are the arguments that have not been fetched. */
  method DoPack(s: Scanner, args: seq<Arg>, ghost cs: Text) returns (r: Option<Doc>, rest: seq<Arg>)
    requires s.On(cs) && Pack(cs, args) != PackMisused
    modifies s
    ensures PacksTo(s, r, rest, Pack(cs, args))
    decreases |cs|, 1
  {
    hide Utf8.Valid, PackItems, PackMembers;
    rest := args;
    if s.token == '{' as int {
      r, rest := DoPackObject(s, args, cs);
    } else if s.token == '[' as int {
      r, rest := DoPackArray(s, args, cs);
    } else if s.token == 's' as int {
      var str := args[0].s;
      rest := args[1..];
      if str.None? {
        return None, rest;
      }
      var ok := Utf8.CheckString(str.value);
      if !ok {
        return None, rest;
      }
      r := Some(Doc.Str(str.value));
    } else if s.token == 'n' as int {
      r := Some(Null);
    } else if s.token == 'b' as int {
      r, rest := Some(if args[0].n != 0 then True else False), args[1..];
    } else if s.token == 'i' as int {
      r, rest := Some(Integer(args[0].n)), args[1..];
    } else if s.token == 'I' as int {
      r, rest := Some(Integer(args[0].m)), args[1..];
    } else if s.token == 'f' as int {
      r, rest := Some(Real(args[0].x)), args[1..];
    } else if s.token == 'O' as int || s.token == 'o' as int {
      r, rest := args[0].d, args[1..];
    } else {
      r := None;
    }
  }

  /** `pack_object`. */
  method DoPackObject(s: Scanner, args: seq<Arg>, ghost cs: Text) returns (r: Option<Doc>, rest: seq<Arg>)
    requires s.On(cs) && At(cs) == '{' as int && Pack(cs, args) != PackMisused
    modifies s
    ensures PacksTo(s, r, rest, Pack(cs, args))
    decreases |cs|, 0
  {
    hide Utf8.Valid, Chars;
    var obj := EMPTY_OBJECT;
    rest := args;
    ghost var now := cs[1..];
    s.NextToken(now);
    while s.token != '}' as int
      invariant s.On(now) && s.token == At(now) && (now != [] ==> s.Behind(now[1..])) && |now| < |cs| && obj.Object?
      invariant Pack(cs, args) == PackMembers(now, rest, obj)
      decreases |now|
    {
      if s.token == 0 {
        return None, rest;
      }
      if s.token != 's' as int {
        return None, rest;
      }
      var key := rest[0].s;
      ghost var given := rest;
      rest := rest[1..];
      if key.None? {
        return None, rest;
      }
      var ok := Utf8.CheckString(key.value);
      if !ok {
        return None, rest;
      }
      s.NextToken(now[1..]);
      ghost var p := Pack(now[1..], given[1..]);
      var value;
      value, rest := DoPack(s, rest, now[1..]);
      if value.None? {
        return None, rest;
      }
      obj := SetMember(obj, key.value, value.value);
      now := p.cs;
      s.NextToken(now);
    }
    return Some(obj), rest;
  }

  /** `pack_array`. */
  method DoPackArray(s: Scanner, args: seq<Arg>, ghost cs: Text) returns (r: Option<Doc>, rest: seq<Arg>)
    requires s.On(cs) && At(cs) == '[' as int && Pack(cs, args) != PackMisused
    modifies s
    ensures PacksTo(s, r, rest, Pack(cs, args))
    decreases |cs|, 0
  {
    hide Chars;
    var items: seq<Doc> := [];
    rest := args;
    ghost var now := cs[1..];
    s.NextToken(now);
    while s.token != ']' as int
      invariant s.On(now) && s.token == At(now) && (now != [] ==> s.Behind(now[1..])) && |now| < |cs|
      invariant Pack(cs, args) == PackItems(now, rest, items)
      decreases |now|
    {
      if s.token == 0 {
        return None, rest;
      }
      ghost var p := Pack(now, rest);
      var value;
      value, rest := DoPack(s, rest, now);
      if value.None? {
        return None, rest;
      }
      items := items + [value.value];
      now := p.cs;
      s.NextToken(now);
    }
    return Some(Array(items)), rest;
  }

  /** `json_vpack_ex`. */
  method VPackEx(format: Option<CString>, args: seq<Arg>) returns (r: Option<Doc>)
    requires format.Some? ==> VPack(format.value, args) != PackMisused
    ensures r == if format.None? || !VPack(format.value, args).Packed? then None else Some(VPack(format.value, args).d)
  {
    hide Pack, Chars;
    if format.None? || format.value == [] {
      return None;
    }
    var s := new Scanner(format.value);
    ghost var cs := Chars(format.value);
    s.NextToken(cs);
    var rest;
    r, rest := DoPack(s, args, cs);
    if r.None? {
      return None;
    }
    s.NextToken(Pack(cs, args).cs);
    if s.token != 0 {
      return None;
    }
  }

  // ---------------------------------------------------------------- unpack

  ghost predicate UnpacksTo(s: Scanner, rc: int, targets: seq<Target>, outs: seq<Out>, u: Unpacked)
    reads s`fmt
  {
    if u.UnpackFails? then rc == -1
    else u.Unpacked? && rc == 0 && targets == u.targets && outs == u.outs && s.Behind(u.cs)
  }

  /** One value is stored, unless the format is only validated. */
  method StoreOne(mode: Mode, targets: seq<Target>, out: Out, ghost cs: Text, nullFails: bool)
    returns (rc: int, rest: seq<Target>, outs: seq<Out>)
    requires cs != [] && Store(cs, targets, mode, out, nullFails) != UnpackMisused
    ensures var u := Store(cs, targets, mode, out, nullFails);
            if u.UnpackFails? then rc == -1
            else u.Unpacked? && rc == 0 && rest == u.targets && outs == u.outs && u.cs == cs[1..]
  {
    rest, outs := targets, [];
    if !mode.validateOnly {
      rest := targets[1..];
      if !targets[0].present {
        return -1, rest, outs;
      }
      outs := [out];
    }
    rc := 0;
  }

  /** `unpack`; what is stored is appended to the result. */
  method DoUnpack(s: Scanner, root: Doc, targets: seq<Target>, mode: Mode, ghost cs: Text)
    returns (rc: int, rest: seq<Target>, outs: seq<Out>)
    requires s.On(cs) && Unpack(cs, root, targets, mode) != UnpackMisused
    modifies s
    ensures (rc == 0 || rc == -1) && UnpacksTo(s, rc, rest, outs, Unpack(cs, root, targets, mode))
    decreases |cs|, 1
  {
    hide UnpackItems, UnpackMembers, Store, Chars;
    rest, outs := targets, [];
    if s.token == '{' as int {
      rc, rest, outs := DoUnpackObject(s, root, targets, mode, cs);
    } else if s.token == '[' as int {
      rc, rest, outs := DoUnpackArray(s, root, targets, mode, cs);
    } else if s.token == 's' as int {
      if !root.Str? {
        return -1, rest, outs;
      }
      rc, rest, outs := StoreOne(mode, targets, OutStr(root.s), cs, true);
    } else if s.token == 'i' as int {
      if !root.Integer? {
        return -1, rest, outs;
      }
      rc, rest, outs := StoreOne(mode, targets, OutInt(Truncated(root.n)), cs, false);
    } else if s.token == 'I' as int {
      if !root.Integer? {
        return -1, rest, outs;
      }
      rc, rest, outs := StoreOne(mode, targets, OutLong(Truncated64(root.n)), cs, false);
    } else if s.token == 'b' as int {
      if !root.True? && !root.False? {
        return -1, rest, outs;
      }
      rc, rest, outs := StoreOne(mode, targets, OutInt(if root.True? then 1 else 0), cs, false);
    } else if s.token == 'f' as int {
      if !root.Real? {
        return -1, rest, outs;
      }
      rc, rest, outs := StoreOne(mode, targets, OutDouble(root.lexeme), cs, false);
    } else if s.token == 'F' as int {
      if !root.Real? && !root.Integer? {
        return -1, rest, outs;
      }
      rc, rest, outs := StoreOne(mode, targets, if root.Real? then OutDouble(root.lexeme)
          else OutFromInteger(Truncated64(root.n)), cs, false);
    } else if s.token == 'O' as int || s.token == 'o' as int {
      rc, rest, outs := StoreOne(mode, targets, OutValue(root), cs, false);
    } else if s.token == 'n' as int {
      if !root.Null? {
        return -1, rest, outs;
      }
      rc := 0;
    } else {
      return -1, rest, outs;
    }
  }

  /** The set of keys, kept as the keys of a hash table. */
  ghost predicate Holds(keySet: T.Table<Text, bool>, named: set<Text>) {
    T.Valid(HashStr, keySet) && T.Keys(keySet.order) == named
  }

  lemma HoldsOneMore(keySet: T.Table<Text, bool>, named: set<Text>, key: Text)
    requires Holds(keySet, named)
    ensures Holds(T.Set(HashStr, keySet, key, 0, true), named + {key})
  {
    T.SetIsUpdate(HashStr, keySet, key, 0, true);
    var r := T.Set(HashStr, keySet, key, 0, true);
    assert T.MapOf(r.order).Keys == T.Keys(r.order) && T.MapOf(keySet.order).Keys == T.Keys(keySet.order);
  }

  lemma HoldsCount(keySet: T.Table<Text, bool>, named: set<Text>)
    requires Holds(keySet, named)
    ensures |keySet.order| == |named|
  {
    T.KeyCount(keySet.order);
  }

  lemma HoldsNone()
    ensures Holds(T.Table(0, []), {})
  {
    var t: T.Table<Text, bool> := T.Table(0, []);
    assert T.Buckets(HashStr, T.Size(0), t.order) == [];
  }

  lemma BeforeNothing(outs: seq<Out>, r: Unpacked, more: seq<Out>)
    ensures PackFormat.Before([], r) == r
    ensures PackFormat.Before(outs, PackFormat.Before(more, r)) == PackFormat.Before(outs + more, r)
  {
    if r.Unpacked? {
      assert [] + r.outs == r.outs;
      assert outs + (more + r.outs) == outs + more + r.outs;
    }
  }

  /** `unpack_object`. */
  method DoUnpackObject(s: Scanner, root: Doc, targets: seq<Target>, mode: Mode, ghost cs: Text)
    returns (rc: int, rest: seq<Target>, outs: seq<Out>)
    requires s.On(cs) && At(cs) == '{' as int && Unpack(cs, root, targets, mode) != UnpackMisused
    modifies s
    ensures (rc == 0 || rc == -1) && UnpacksTo(s, rc, rest, outs, Unpack(cs, root, targets, mode))
    decreases |cs|, 0
  {
    hide Chars, T.Get, T.Set, Holds;
    rest, outs := targets, [];
    var strict := 0;
    var keySet: T.Table<Text, bool> := T.Table(0, []);
    if !root.Object? {
      return -1, rest, outs;
    }
    ghost var now, named := cs[1..], {};
    HoldsNone();
    s.NextToken(now);
    BeforeNothing([], Unpack(cs, root, targets, mode), []);
    while s.token != '}' as int
      invariant s.On(now) && s.token == At(now) && (now != [] ==> s.Behind(now[1..])) && |now| < |cs| &&
                Holds(keySet, named)
      invariant Unpack(cs, root, targets, mode) ==
                PackFormat.Before(outs, UnpackMembers(now, root.members, rest, mode, strict, named))
      decreases |now|
    {
      if strict != 0 {
        return -1, rest, outs;
      }
      if s.token == 0 {
        return -1, rest, outs;
      }
      if s.token == '!' as int || s.token == '*' as int {
        strict := if s.token == '!' as int then 1 else -1;
        now := now[1..];
        s.NextToken(now);
        continue;
      }
      if s.token != 's' as int {
        return -1, rest, outs;
      }
      var key := rest[0].k;
      ghost var given := rest;
      rest := rest[1..];
      if key.None? {
        return -1, rest, outs;
      }
      s.NextToken(now[1..]);
      var value := T.Get(root.members, key.value);
      if value.None? {
        return -1, rest, outs;
      }
      ghost var u := Unpack(now[1..], value.value, given[1..], mode);
      var result, more;
      result, rest, more := DoUnpack(s, value.value, rest, mode, now[1..]);
      if result != 0 {
        return -1, rest, outs;
      }
      BeforeNothing(outs, UnpackMembers(u.cs, root.members, u.targets, mode, strict, named + {key.value}), more);
      outs := outs + more;
      HoldsOneMore(keySet, named, key.value);
      keySet := T.Set(HashStr, keySet, key.value, 0, true);
      named := named + {key.value};
      now := u.cs;
      s.NextToken(now);
    }
    if strict == 0 && mode.strict {
      strict := 1;
    }
    HoldsCount(keySet, named);
    assert outs + [] == outs;
    if strict == 1 && |keySet.order| != |root.members.order| {
      return -1, rest, outs;
    }
    rc := 0;
  }

  /** `unpack_array`. */
  method DoUnpackArray(s: Scanner, root: Doc, targets: seq<Target>, mode: Mode, ghost cs: Text)
    returns (rc: int, rest: seq<Target>, outs: seq<Out>)
    requires s.On(cs) && At(cs) == '[' as int && Unpack(cs, root, targets, mode) != UnpackMisused
    modifies s
    ensures (rc == 0 || rc == -1) && UnpacksTo(s, rc, rest, outs, Unpack(cs, root, targets, mode))
    decreases |cs|, 0
  {
    hide Chars;
    rest, outs := targets, [];
    var i, strict := 0, 0;
    if !root.Array? {
      return -1, rest, outs;
    }
    ghost var now := cs[1..];
    s.NextToken(now);
    BeforeNothing([], Unpack(cs, root, targets, mode), []);
    while s.token != ']' as int
      invariant s.On(now) && s.token == At(now) && (now != [] ==> s.Behind(now[1..])) && |now| < |cs| && 0 <= i
      invariant Unpack(cs, root, targets, mode) ==
                PackFormat.Before(outs, UnpackItems(now, root.items, i, rest, mode, strict))
      decreases |now|
    {
      if strict != 0 {
        return -1, rest, outs;
      }
      if s.token == 0 {
        return -1, rest, outs;
      }
      if s.token == '!' as int || s.token == '*' as int {
        strict := if s.token == '!' as int then 1 else -1;
        now := now[1..];
        s.NextToken(now);
        continue;
      }
      if !Starter(s.token) {
        return -1, rest, outs;
      }
      if i >= |root.items| {
        return -1, rest, outs;
      }
      ghost var u := Unpack(now, root.items[i], rest, mode);
      var result, more;
      result, rest, more := DoUnpack(s, root.items[i], rest, mode, now);
      if result != 0 {
        return -1, rest, outs;
      }
      BeforeNothing(outs, UnpackItems(u.cs, root.items, i + 1, u.targets, mode, strict), more);
      outs := outs + more;
      now := u.cs;
      s.NextToken(now);
      i := i + 1;
    }
    if strict == 0 && mode.strict {
      strict := 1;
    }
    assert outs + [] == outs;
    if strict == 1 && i != |root.items| {
      return -1, rest, outs;
    }
    rc := 0;
  }

  /** `json_vunpack_ex`. */
  method VUnpackEx(root: Option<Doc>, format: Option<CString>, targets: seq<Target>, mode: Mode)
    returns (rc: int, outs: seq<Out>)
    requires root.Some? && format.Some? && format.value != [] ==>
              Unpack(Chars(format.value), root.value, targets, mode) != UnpackMisused
    ensures rc == 0 || rc == -1
    ensures rc == 0 <==> root.Some? && format.Some? && VUnpack(root.value, format.value, targets, mode).Unpacked?
    ensures rc == 0 ==> outs == VUnpack(root.value, format.value, targets, mode).outs
  {
    hide Unpack, Chars;
    outs := [];
    if root.None? {
      return -1, outs;
    }
    if format.None? || format.value == [] {
      return -1, outs;
    }
    var s := new Scanner(format.value);
    ghost var cs := Chars(format.value);
    s.NextToken(cs);
    var rest;
    rc, rest, outs := DoUnpack(s, root.value, targets, mode, cs);
    if rc != 0 {
      return -1, outs;
    }
    s.NextToken(Unpack(cs, root.value, targets, mode).cs);
    if s.token != 0 {
      return -1, outs;
    }
  }
}
