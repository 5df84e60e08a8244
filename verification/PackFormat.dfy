/**
 The format language of `pack_unpack.c` as functions of the significant format characters and the
 variable arguments, and the proof that packing and unpacking undo each other.
 */
module PackFormat {
  import opened Bytes
  import opened Json
  import T = Tables
  import Utf8

  type Int32 = n: int | -0x8000_0000 <= n <= 0x7FFF_FFFF
  type Int64 = n: int | -0x8000_0000_0000_0000 <= n <= 0x7FFF_FFFF_FFFF_FFFF

  /** An argument of `json_pack`; a `double` is represented by a text. */
  datatype Arg = Str(s: Option<Text>) | Int(n: Int32) | Long(m: Int64) | Double(x: Text) | Value(d: Option<Doc>)

  /** An argument of `json_unpack`: a key, or a pointer to store through. */
  datatype Target = Key(k: Option<Text>) | Pointer(present: bool)

  /** What is stored through a pointer. */
  datatype Out =
    | OutStr(s: Text)
    | OutInt(n: Int32)
    | OutLong(m: Int64)
    | OutDouble(x: Text)
    | OutFromInteger(m: Int64)
    | OutValue(d: Doc)

  /** `Misused` is a missing argument, or one of another type than the format asks for. */
  datatype Packed = Packed(d: Doc, cs: Text, args: seq<Arg>) | PackFails | PackMisused

  datatype Unpacked = Unpacked(cs: Text, targets: seq<Target>, outs: seq<Out>) | UnpackFails | UnpackMisused

  /** The characters `next_token` skips. */
  predicate Ignored(c: int) {
    c == ' ' as int || c == '\t' as int || c == '\n' as int || c == ',' as int || c == ':' as int
  }

  /** The characters of a format that `next_token` delivers. */
  function Chars(fmt: Text): (cs: Text)
    ensures |cs| <= |fmt|
    ensures 0 !in fmt ==> 0 !in cs
  {
    if fmt == [] then [] else (if Ignored(fmt[0]) then [] else [fmt[0]]) + Chars(fmt[1..])
  }

  /** The current format character, NUL at the end. */
  function At(cs: Text): byte {
    if cs == [] then 0 else cs[0]
  }

  /** An `int` read from a `long long`. */
  function Truncated(n: int): Int32 {
    var low := n % 0x1_0000_0000;
    if low < 0x8000_0000 then low else low - 0x1_0000_0000
  }

  function Truncated64(n: int): Int64 {
    var low := n % 0x1_0000_0000_0000_0000;
    if low < 0x8000_0000_0000_0000 then low else low - 0x1_0000_0000_0000_0000
  }

  // ---------------------------------------------------------------- pack

  /** `pack`, with the current character at the front of `cs`. */
  function Pack(cs: Text, args: seq<Arg>): (r: Packed)
    ensures r.Packed? ==> |r.cs| < |cs|
    decreases |cs|, 0
  {
    if At(cs) == '{' as int then PackMembers(cs[1..], args, EMPTY_OBJECT)
    else if At(cs) == '[' as int then PackItems(cs[1..], args, [])
    else if At(cs) == 's' as int then
      if args == [] || !args[0].Str? then PackMisused
      else if args[0].s.None? || !Utf8.Valid(args[0].s.value) then PackFails
      else Packed(Doc.Str(args[0].s.value), cs[1..], args[1..])
    else if At(cs) == 'n' as int then Packed(Null, cs[1..], args)
    else if At(cs) == 'b' as int then
      if args == [] || !args[0].Int? then PackMisused
      else Packed(if args[0].n != 0 then True else False, cs[1..], args[1..])
    else if At(cs) == 'i' as int then
      if args == [] || !args[0].Int? then PackMisused else Packed(Integer(args[0].n), cs[1..], args[1..])
    else if At(cs) == 'I' as int then
      if args == [] || !args[0].Long? then PackMisused else Packed(Integer(args[0].m), cs[1..], args[1..])
    else if At(cs) == 'f' as int then
      if args == [] || !args[0].Double? then PackMisused else Packed(Real(args[0].x), cs[1..], args[1..])
    else if At(cs) == 'O' as int || At(cs) == 'o' as int then
      if args == [] || !args[0].Value? then PackMisused
      else if args[0].d.None? then PackFails
      else Packed(args[0].d.value, cs[1..], args[1..])
    else PackFails
  }

  /** The loop of `pack_object`. */
  function PackMembers(cs: Text, args: seq<Arg>, obj: Doc): (r: Packed)
    requires obj.Object?
    ensures r.Packed? ==> |r.cs| < |cs|
    decreases |cs|, 1
  {
    if At(cs) == '}' as int then Packed(obj, cs[1..], args)
    else if At(cs) != 's' as int then PackFails
    else if args == [] || !args[0].Str? then PackMisused
    else if args[0].s.None? || !Utf8.Valid(args[0].s.value) then PackFails
    else
      var v := Pack(cs[1..], args[1..]);
      if !v.Packed? then v else PackMembers(v.cs, v.args, SetMember(obj, args[0].s.value, v.d))
  }

  /** The loop of `pack_array`. */
  function PackItems(cs: Text, args: seq<Arg>, items: seq<Doc>): (r: Packed)
    ensures r.Packed? ==> |r.cs| < |cs|
    decreases |cs|, 1
  {
    if At(cs) == ']' as int then Packed(Array(items), cs[1..], args)
    else if At(cs) == 0 then PackFails
    else
      var v := Pack(cs, args);
      if !v.Packed? then v else PackItems(v.cs, v.args, items + [v.d])
  }

  /** `json_vpack_ex` on a format that is not null. */
  function VPack(fmt: Text, args: seq<Arg>): Packed {
    if fmt == [] then PackFails
    else
      var r := Pack(Chars(fmt), args);
      if r.Packed? && r.cs != [] then PackFails else r
  }

  // ---------------------------------------------------------------- unpack

  datatype Mode = Mode(strict: bool, validateOnly: bool)

  /** One value that is stored, unless the format is only validated. */
  function Store(cs: Text, targets: seq<Target>, mode: Mode, out: Out, nullFails: bool): Unpacked
    requires cs != []
  {
    if mode.validateOnly then Unpacked(cs[1..], targets, [])
    else if targets == [] || !targets[0].Pointer? then UnpackMisused
    else if !targets[0].present then (if nullFails then UnpackFails else UnpackMisused)
    else Unpacked(cs[1..], targets[1..], [out])
  }

  /** `unpack`, with the current character at the front of `cs`. */
  function Unpack(cs: Text, root: Doc, targets: seq<Target>, mode: Mode): (r: Unpacked)
    ensures r.Unpacked? ==> |r.cs| < |cs|
    decreases |cs|, 0
  {
    if At(cs) == '{' as int then
      if !root.Object? then UnpackFails else UnpackMembers(cs[1..], root.members, targets, mode, 0, {})
    else if At(cs) == '[' as int then
      if !root.Array? then UnpackFails else UnpackItems(cs[1..], root.items, 0, targets, mode, 0)
    else if At(cs) == 's' as int then
      if !root.Str? then UnpackFails else Store(cs, targets, mode, OutStr(root.s), true)
    else if At(cs) == 'i' as int then
      if !root.Integer? then UnpackFails else Store(cs, targets, mode, OutInt(Truncated(root.n)), false)
    else if At(cs) == 'I' as int then
      if !root.Integer? then UnpackFails else Store(cs, targets, mode, OutLong(Truncated64(root.n)), false)
    else if At(cs) == 'b' as int then
      if !root.True? && !root.False? then UnpackFails
      else Store(cs, targets, mode, OutInt(if root.True? then 1 else 0), false)
    else if At(cs) == 'f' as int then
      if !root.Real? then UnpackFails else Store(cs, targets, mode, OutDouble(root.lexeme), false)
    else if At(cs) == 'F' as int then
      if root.Real? then Store(cs, targets, mode, OutDouble(root.lexeme), false)
      else if root.Integer? then Store(cs, targets, mode, OutFromInteger(Truncated64(root.n)), false)
      else UnpackFails
    else if At(cs) == 'O' as int || At(cs) == 'o' as int then Store(cs, targets, mode, OutValue(root), false)
    else if At(cs) == 'n' as int then
      if !root.Null? then UnpackFails else Unpacked(cs[1..], targets, [])
    else UnpackFails
  }

  function Before(outs: seq<Out>, r: Unpacked): Unpacked {
    if r.Unpacked? then r.(outs := outs + r.outs) else r
  }

  /** The test at the end of a container: strict unless the format says otherwise. */
  predicate LeftOver(strict: int, mode: Mode, used: nat, size: nat) {
    (strict == 1 || (strict == 0 && mode.strict)) && used != size
  }

  /** The loop of `unpack_object`; `named` are the keys that have been unpacked. */
  function UnpackMembers(cs: Text, members: Members, targets: seq<Target>, mode: Mode, strict: int,
          named: set<Text>): (r: Unpacked)
    ensures r.Unpacked? ==> |r.cs| < |cs|
    decreases |cs|, 1
  {
    if At(cs) == '}' as int then
      if LeftOver(strict, mode, |named|, |members.order|) then UnpackFails else Unpacked(cs[1..], targets, [])
    else if strict != 0 then UnpackFails
    else if At(cs) == '!' as int then UnpackMembers(cs[1..], members, targets, mode, 1, named)
    else if At(cs) == '*' as int then UnpackMembers(cs[1..], members, targets, mode, -1, named)
    else if At(cs) != 's' as int then UnpackFails
    else if targets == [] || !targets[0].Key? then UnpackMisused
    else if targets[0].k.None? then UnpackFails
    else
      var key := targets[0].k.value;
      var value := T.Get(members, key);
      if value.None? then UnpackFails
      else
        var r := Unpack(cs[1..], value.value, targets[1..], mode);
        if !r.Unpacked? then r
        else Before(r.outs, UnpackMembers(r.cs, members, r.targets, mode, strict, named + {key}))
  }

  predicate Starter(c: int) {
    c == '{' as int || c == '[' as int || c == 's' as int || c == 'i' as int || c == 'I' as int || c == 'b' as int ||
    c == 'f' as int || c == 'F' as int || c == 'O' as int || c == 'o' as int || c == 'n' as int
  }

  /** The loop of `unpack_array`. */
  function UnpackItems(cs: Text, items: seq<Doc>, i: nat, targets: seq<Target>, mode: Mode, strict: int): (r: Unpacked)
    ensures r.Unpacked? ==> |r.cs| < |cs|
    decreases |cs|, 1
  {
    if At(cs) == ']' as int then
      if LeftOver(strict, mode, i, |items|) then UnpackFails else Unpacked(cs[1..], targets, [])
    else if strict != 0 then UnpackFails
    else if At(cs) == '!' as int then UnpackItems(cs[1..], items, i, targets, mode, 1)
    else if At(cs) == '*' as int then UnpackItems(cs[1..], items, i, targets, mode, -1)
    else if !Starter(At(cs)) || i >= |items| then UnpackFails
    else
      var r := Unpack(cs, items[i], targets, mode);
      if !r.Unpacked? then r
      else Before(r.outs, UnpackItems(r.cs, items, i + 1, r.targets, mode, strict))
  }

  /** `json_vunpack_ex` on a root and a format that are not null. */
  function VUnpack(root: Doc, fmt: Text, targets: seq<Target>, mode: Mode): Unpacked {
    if fmt == [] then UnpackFails
    else
      var r := Unpack(Chars(fmt), root, targets, mode);
      if r.Unpacked? && r.cs != [] then UnpackFails else r
  }

  // ---------------------------------------------------------------- formats that both accept

  /** A format with the arguments for it. */
  datatype Template =
    | TStr(s: Text)
    | TNull
    | TBool(n: Int32)
    | TInt(n: Int32)
    | TLong(m: Int64)
    | TReal(x: Text)
    | TValue(d: Doc, increments: bool)
    | TArr(items: seq<Template>)
    | TObj(fields: seq<Entry>)

  datatype Entry = Entry(key: Text, value: Template)

  predicate Fits(t: Template)
    decreases t, 1
  {
    match t
    case TStr(s) => Utf8.Valid(s)
    case TArr(items) => AllFit(items)
    case TObj(fields) => FieldsFit(fields)
    case _ => true
  }

  predicate AllFit(items: seq<Template>)
    decreases items, 0
  {
    items == [] || (Fits(items[0]) && AllFit(items[1..]))
  }

  predicate FieldsFit(fields: seq<Entry>)
    decreases fields, 0
  {
    fields == [] ||
    (assert fields[0].value < fields[0]; Utf8.Valid(fields[0].key) && Fits(fields[0].value) && FieldsFit(fields[1..]))
  }

  /** No object names a key twice. */
  predicate DistinctKeys(t: Template)
    decreases t, 1
  {
    match t
    case TArr(items) => AllDistinct(items)
    case TObj(fields) => (forall i, j :: 0 <= i < j < |fields| ==> fields[i].key != fields[j].key) &&
        FieldsDistinct(fields)
    case _ => true
  }

  predicate AllDistinct(items: seq<Template>)
    decreases items, 0
  {
    items == [] || (DistinctKeys(items[0]) && AllDistinct(items[1..]))
  }

  predicate FieldsDistinct(fields: seq<Entry>)
    decreases fields, 0
  {
    fields == [] || (assert fields[0].value < fields[0]; DistinctKeys(fields[0].value) && FieldsDistinct(fields[1..]))
  }

  function Format(t: Template): (cs: Text)
    ensures |cs| > 0
    decreases t, 1
  {
    match t
    case TStr(_) => ['s' as int]
    case TNull => ['n' as int]
    case TBool(_) => ['b' as int]
    case TInt(_) => ['i' as int]
    case TLong(_) => ['I' as int]
    case TReal(_) => ['f' as int]
    case TValue(_, increments) => [if increments then 'O' as int else 'o' as int]
    case TArr(items) => ['[' as int] + FormatItems(items) + [']' as int]
    case TObj(fields) => ['{' as int] + FormatFields(fields) + ['}' as int]
  }

  function FormatItems(items: seq<Template>): Text
    decreases items, 0
  {
    if items == [] then [] else Format(items[0]) + FormatItems(items[1..])
  }

  function FormatFields(fields: seq<Entry>): Text
    decreases fields, 0
  {
    if fields == [] then []
    else (assert fields[0].value < fields[0]; ['s' as int] + Format(fields[0].value) + FormatFields(fields[1..]))
  }

  function Args(t: Template): seq<Arg>
    decreases t, 1
  {
    match t
    case TStr(s) => [Arg.Str(Some(s))]
    case TNull => []
    case TBool(n) => [Int(n)]
    case TInt(n) => [Int(n)]
    case TLong(m) => [Long(m)]
    case TReal(x) => [Double(x)]
    case TValue(d, _) => [Arg.Value(Some(d))]
    case TArr(items) => ArgsOfItems(items)
    case TObj(fields) => ArgsOfFields(fields)
  }

  function ArgsOfItems(items: seq<Template>): seq<Arg>
    decreases items, 0
  {
    if items == [] then [] else Args(items[0]) + ArgsOfItems(items[1..])
  }

  function ArgsOfFields(fields: seq<Entry>): seq<Arg>
    decreases fields, 0
  {
    if fields == [] then []
    else (assert fields[0].value < fields[0]; [Arg.Str(Some(fields[0].key))] + Args(fields[0].value) +
        ArgsOfFields(fields[1..]))
  }

  /** The value that a template packs. */
  function DocOf(t: Template): Doc
    decreases t, 1
  {
    match t
    case TStr(s) => Doc.Str(s)
    case TNull => Null
    case TBool(n) => if n != 0 then True else False
    case TInt(n) => Integer(n)
    case TLong(m) => Integer(m)
    case TReal(x) => Real(x)
    case TValue(d, _) => d
    case TArr(items) => Array(DocsOf(items))
    case TObj(fields) => FieldsInto(fields, EMPTY_OBJECT)
  }

  function DocsOf(items: seq<Template>): (ds: seq<Doc>)
    ensures |ds| == |items|
    decreases items, 0
  {
    if items == [] then [] else [DocOf(items[0])] + DocsOf(items[1..])
  }

  function FieldsInto(fields: seq<Entry>, obj: Doc): (d: Doc)
    requires obj.Object?
    ensures d.Object?
    decreases fields, 0
  {
    if fields == [] then obj
    else (assert fields[0].value < fields[0]; FieldsInto(fields[1..],
        SetMember(obj, fields[0].key, DocOf(fields[0].value))))
  }

  /** The keys and pointers for unpacking with the same format. */
  function Targets(t: Template, mode: Mode): seq<Target>
    decreases t, 1
  {
    match t
    case TNull => []
    case TArr(items) => TargetsOfItems(items, mode)
    case TObj(fields) => TargetsOfFields(fields, mode)
    case _ => if mode.validateOnly then [] else [Pointer(true)]
  }

  function TargetsOfItems(items: seq<Template>, mode: Mode): seq<Target>
    decreases items, 0
  {
    if items == [] then [] else Targets(items[0], mode) + TargetsOfItems(items[1..], mode)
  }

  function TargetsOfFields(fields: seq<Entry>, mode: Mode): seq<Target>
    decreases fields, 0
  {
    if fields == [] then []
    else (assert fields[0].value < fields[0]; [Key(Some(fields[0].key))] + Targets(fields[0].value, mode) +
        TargetsOfFields(fields[1..], mode))
  }

  /** The arguments as they come back: a boolean as 0 or 1. */
  function Outs(t: Template, mode: Mode): seq<Out>
    decreases t, 1
  {
    match t
    case TNull => []
    case TArr(items) => OutsOfItems(items, mode)
    case TObj(fields) => OutsOfFields(fields, mode)
    case TStr(s) => if mode.validateOnly then [] else [OutStr(s)]
    case TBool(n) => if mode.validateOnly then [] else [OutInt(if n != 0 then 1 else 0)]
    case TInt(n) => if mode.validateOnly then [] else [OutInt(n)]
    case TLong(m) => if mode.validateOnly then [] else [OutLong(m)]
    case TReal(x) => if mode.validateOnly then [] else [OutDouble(x)]
    case TValue(d, _) => if mode.validateOnly then [] else [OutValue(d)]
  }

  function OutsOfItems(items: seq<Template>, mode: Mode): seq<Out>
    decreases items, 0
  {
    if items == [] then [] else Outs(items[0], mode) + OutsOfItems(items[1..], mode)
  }

  function OutsOfFields(fields: seq<Entry>, mode: Mode): seq<Out>
    decreases fields, 0
  {
    if fields == [] then []
        else (assert fields[0].value < fields[0]; Outs(fields[0].value, mode) + OutsOfFields(fields[1..], mode))
  }

  // ---------------------------------------------------------------- packing is reading a template

  /** Packing with the format and arguments of a template gives its value, and takes exactly those. */
  lemma {:induction false} PackComplete(t: Template, cs: Text, args: seq<Arg>)
    requires Fits(t)
    ensures Pack(Format(t) + cs, Args(t) + args) == Packed(DocOf(t), cs, args)
    decreases t, 1
  {
    match t
    case TArr(items) =>
      assert (Format(t) + cs)[1..] == FormatItems(items) + ([']' as int] + cs);
      ItemsComplete(items, cs, args, []);
      assert [] + DocsOf(items) == DocsOf(items);
    case TObj(fields) =>
      assert (Format(t) + cs)[1..] == FormatFields(fields) + (['}' as int] + cs);
      FieldsComplete(fields, cs, args, EMPTY_OBJECT);
    case _ => ScalarPacked(t, cs, args);
  }

  lemma ScalarPacked(t: Template, cs: Text, args: seq<Arg>)
    requires Fits(t) && !t.TArr? && !t.TObj?
    ensures Pack(Format(t) + cs, Args(t) + args) == Packed(DocOf(t), cs, args)
  {
    assert (Format(t) + cs)[1..] == cs;
    assert Args(t) == [] ==> Args(t) + args == args;
    assert Args(t) != [] ==> (Args(t) + args)[1..] == args;
  }

  lemma {:induction false} FormatStarts(t: Template, cs: Text)
    ensures Starter(At(Format(t) + cs))
  {
  }

  lemma ItemsUnfold(items: seq<Template>, cs: Text, args: seq<Arg>, done: seq<Doc>)
    requires items != []
    ensures FormatItems(items) + cs == Format(items[0]) + (FormatItems(items[1..]) + cs)
    ensures ArgsOfItems(items) + args == Args(items[0]) + (ArgsOfItems(items[1..]) + args)
    ensures done + DocsOf(items) == done + [DocOf(items[0])] + DocsOf(items[1..])
  {
    hide Format, Args, DocOf;
    Assoc(Format(items[0]), FormatItems(items[1..]), cs);
    Assoc(Args(items[0]), ArgsOfItems(items[1..]), args);
    Assoc(done, [DocOf(items[0])], DocsOf(items[1..]));
  }

  lemma Assoc<X>(a: seq<X>, b: seq<X>, c: seq<X>)
    ensures a + b + c == a + (b + c)
  {
  }

  lemma {:induction false} ItemsComplete(items: seq<Template>, cs: Text, args: seq<Arg>, done: seq<Doc>)
    requires AllFit(items)
    ensures PackItems(FormatItems(items) + ([']' as int] + cs), ArgsOfItems(items) + args, done) ==
              Packed(Array(done + DocsOf(items)), cs, args)
    decreases items, 0, 1
  {
    hide Format, Args, DocOf, Fits, Pack;
    if items == [] {
      assert FormatItems(items) + ([']' as int] + cs) == [']' as int] + cs && ArgsOfItems(items) + args == args;
      assert ([']' as int] + cs)[1..] == cs && done + [] == done;
    } else {
      ItemsNext(items, cs, args, done);
      ItemsComplete(items[1..], cs, args, done + [DocOf(items[0])]);
      ItemsUnfold(items, cs, args, done);
    }
  }

  lemma {:induction false} ItemsNext(items: seq<Template>, cs: Text, args: seq<Arg>, done: seq<Doc>)
    requires items != [] && AllFit(items)
    ensures PackItems(FormatItems(items) + ([']' as int] + cs), ArgsOfItems(items) + args, done)
            == PackItems(FormatItems(items[1..]) + ([']' as int] + cs), ArgsOfItems(items[1..]) + args,
                done + [DocOf(items[0])])
    decreases items, 0, 0
  {
    hide Format, Args, DocOf, Fits, Pack, FormatItems, ArgsOfItems;
    var rest, more := FormatItems(items[1..]) + ([']' as int] + cs), ArgsOfItems(items[1..]) + args;
    ItemsUnfold(items, [']' as int] + cs, args, done);
    FormatStarts(items[0], rest);
    PackComplete(items[0], rest, more);
  }

  lemma {:induction false} FieldsComplete(fields: seq<Entry>, cs: Text, args: seq<Arg>, obj: Doc)
    requires FieldsFit(fields) && obj.Object?
    ensures PackMembers(FormatFields(fields) + (['}' as int] + cs), ArgsOfFields(fields) + args, obj) ==
              Packed(FieldsInto(fields, obj), cs, args)
    decreases fields, 0
  {
    hide Format, Args, DocOf, Fits, SetMember, Pack;
    var all, given := FormatFields(fields) + (['}' as int] + cs), ArgsOfFields(fields) + args;
    if fields == [] {
      assert all == ['}' as int] + cs && given == args;
      assert (['}' as int] + cs)[1..] == cs;
    } else {
      assert fields[0].value < fields[0];
      var rest, more := FormatFields(fields[1..]) + (['}' as int] + cs), ArgsOfFields(fields[1..]) + args;
      assert all[1..] == Format(fields[0].value) + rest;
      assert given[1..] == Args(fields[0].value) + more;
      PackComplete(fields[0].value, rest, more);
      FieldsComplete(fields[1..], cs, args, SetMember(obj, fields[0].key, DocOf(fields[0].value)));
    }
  }

  /** Whatever packing accepts is a template. */
  lemma {:induction false} PackSound(cs: Text, args: seq<Arg>) returns (t: Template)
    requires Pack(cs, args).Packed?
    ensures var r := Pack(cs, args); Fits(t) && cs == Format(t) + r.cs && args == Args(t) + r.args && r.d == DocOf(t)
    decreases |cs|, 0
  {
    hide FormatItems, FormatFields, ArgsOfItems, ArgsOfFields, DocsOf, FieldsInto, AllFit, FieldsFit, PackItems,
        PackMembers;
    if At(cs) == '{' as int {
      var fields := FieldsSound(cs[1..], args, EMPTY_OBJECT);
      t := TObj(fields);
      assert cs == ['{' as int] + cs[1..];
      Assoc(['{' as int], FormatFields(fields), ['}' as int]);
      Assoc(['{' as int], FormatFields(fields) + ['}' as int], Pack(cs, args).cs);
    } else if At(cs) == '[' as int {
      var items := ItemsSound(cs[1..], args, []);
      t := TArr(items);
      assert [] + DocsOf(items) == DocsOf(items);
      assert cs == ['[' as int] + cs[1..];
      Assoc(['[' as int], FormatItems(items), [']' as int]);
      Assoc(['[' as int], FormatItems(items) + [']' as int], Pack(cs, args).cs);
    } else {
      t := ScalarSound(cs, args);
    }
  }

  lemma ScalarSound(cs: Text, args: seq<Arg>) returns (t: Template)
    requires Pack(cs, args).Packed? && At(cs) != '{' as int && At(cs) != '[' as int
    ensures var r := Pack(cs, args); Fits(t) && cs == Format(t) + r.cs && args == Args(t) + r.args && r.d == DocOf(t)
  {
    var c := At(cs);
    if c == 's' as int {
      t := TStr(args[0].s.value);
    } else if c == 'n' as int {
      t := TNull;
    } else if c == 'b' as int {
      t := TBool(args[0].n);
    } else if c == 'i' as int {
      t := TInt(args[0].n);
    } else if c == 'I' as int {
      t := TLong(args[0].m);
    } else if c == 'f' as int {
      t := TReal(args[0].x);
    } else {
      t := TValue(args[0].d.value, c == 'O' as int);
    }
  }

  lemma {:induction false} ItemsSound(cs: Text, args: seq<Arg>, done: seq<Doc>) returns (items: seq<Template>)
    requires PackItems(cs, args, done).Packed?
    ensures var r := PackItems(cs, args, done);
            && AllFit(items) && cs == FormatItems(items) + [']' as int] + r.cs && args == ArgsOfItems(items) + r.args
            && r.d == Array(done + DocsOf(items))
    decreases |cs|, 1
  {
    hide Format, Args, DocOf, Fits, Pack;
    if At(cs) == ']' as int {
      items := [];
      assert done + [] == done;
    } else {
      var v := Pack(cs, args);
      var t := PackSound(cs, args);
      var rest := ItemsSound(v.cs, v.args, done + [v.d]);
      items := [t] + rest;
      assert items[1..] == rest;
      var r := PackItems(cs, args, done);
      assert Format(t) + (FormatItems(rest) + [']' as int] + r.cs) ==
          Format(t) + FormatItems(rest) + [']' as int] + r.cs;
      assert Args(t) + (ArgsOfItems(rest) + r.args) == Args(t) + ArgsOfItems(rest) + r.args;
      assert done + [v.d] + DocsOf(rest) == done + ([v.d] + DocsOf(rest));
    }
  }

  lemma {:induction false} FieldsSound(cs: Text, args: seq<Arg>, obj: Doc) returns (fields: seq<Entry>)
    requires obj.Object? && PackMembers(cs, args, obj).Packed?
    ensures var r := PackMembers(cs, args, obj);
            && FieldsFit(fields) && cs == FormatFields(fields) + ['}' as int] + r.cs &&
                args == ArgsOfFields(fields) + r.args
            && r.d == FieldsInto(fields, obj)
    decreases |cs|, 1
  {
    hide Format, Args, DocOf, Fits, SetMember, Pack;
    if At(cs) == '}' as int {
      fields := [];
    } else {
      var v := Pack(cs[1..], args[1..]);
      var t := PackSound(cs[1..], args[1..]);
      var key := args[0].s.value;
      var rest := FieldsSound(v.cs, v.args, SetMember(obj, key, v.d));
      fields := [Entry(key, t)] + rest;
      assert fields[1..] == rest;
      var r := PackMembers(cs, args, obj);
      assert ['s' as int] + (Format(t) + (FormatFields(rest) + ['}' as int] + r.cs)) ==
          ['s' as int] + Format(t) + FormatFields(rest) + ['}' as int] + r.cs;
      assert [Arg.Str(Some(key))] + (Args(t) + (ArgsOfFields(rest) + r.args)) ==
          [Arg.Str(Some(key))] + Args(t) + ArgsOfFields(rest) + r.args;
    }
  }

  // ---------------------------------------------------------------- unpacking undoes packing

  lemma {:induction false} FieldsIntoValid(fields: seq<Entry>, obj: Doc)
    requires obj.Object? && T.Valid(HashStr, obj.members)
    ensures T.Valid(HashStr, FieldsInto(fields, obj).members)
    ensures forall k: Text :: (forall i :: 0 <= i < |fields| ==> fields[i].key != k) ==>
              T.Get(FieldsInto(fields, obj).members, k) == T.Get(obj.members, k)
    decreases |fields|
  {
    hide SetMember, DocOf, T.Valid, T.Get;
    if fields != [] {
      var key, d := fields[0].key, DocOf(fields[0].value);
      SetMemberGet(obj, key, d);
      FieldsIntoValid(fields[1..], SetMember(obj, key, d));
      forall k: Text | forall i :: 0 <= i < |fields| ==> fields[i].key != k
        ensures T.Get(FieldsInto(fields, obj).members, k) == T.Get(obj.members, k)
      {
        assert fields[0].key != k;
        assert forall i :: 0 <= i < |fields[1..]| ==> fields[1..][i] == fields[i + 1];
      }
    }
  }

  lemma SetMemberGet(obj: Doc, key: Text, d: Doc)
    requires obj.Object? && T.Valid(HashStr, obj.members)
    ensures T.Valid(HashStr, SetMember(obj, key, d).members)
    ensures forall k: Text :: T.Get(SetMember(obj, key, d).members, k) == if k == key then Some(d)
              else T.Get(obj.members, k)
    ensures T.MapOf(SetMember(obj, key, d).members.order) == T.MapOf(obj.members.order)[key := d]
  {
    T.SetIsUpdate(HashStr, obj.members, key, obj.serial, d);
    forall k: Text ensures T.Get(SetMember(obj, key, d).members, k) == if k == key then Some(d)
        else T.Get(obj.members, k) {
      T.GetIsLookup(obj.members, k);
      T.GetIsLookup(SetMember(obj, key, d).members, k);
    }
  }

  predicate KeysDiffer(fields: seq<Entry>) {
    forall i, j :: 0 <= i < j < |fields| ==> fields[i].key != fields[j].key
  }

  function KeysOf(fields: seq<Entry>): set<Text> {
    set i | 0 <= i < |fields| :: fields[i].key
  }

  /** With distinct keys every field is found again, and they are all there is. */
  lemma {:induction false} FieldsFound(fields: seq<Entry>, obj: Doc)
    requires obj.Object? && T.Valid(HashStr, obj.members) && KeysDiffer(fields)
    ensures forall i :: 0 <= i < |fields| ==>
              T.Get(FieldsInto(fields, obj).members, fields[i].key) == Some(DocOf(fields[i].value))
    ensures T.MapOf(FieldsInto(fields, obj).members.order).Keys == T.MapOf(obj.members.order).Keys + KeysOf(fields)
    decreases |fields|
  {
    hide SetMember, DocOf, T.Valid, T.Get, T.MapOf;
    if fields != [] {
      var key, d := fields[0].key, DocOf(fields[0].value);
      SetMemberGet(obj, key, d);
      assert forall i :: 0 <= i < |fields[1..]| ==> fields[1..][i] == fields[i + 1];
      FieldsIntoValid(fields[1..], SetMember(obj, key, d));
      FieldsFound(fields[1..], SetMember(obj, key, d));
      KeysCons(fields);
      forall i | 0 <= i < |fields| ensures T.Get(FieldsInto(fields, obj).members, fields[i].key) ==
          Some(DocOf(fields[i].value)) {
        if i > 0 {
          assert fields[i] == fields[1..][i - 1];
        }
      }
    }
  }

  lemma KeysCons(fields: seq<Entry>)
    requires fields != []
    ensures KeysOf(fields) == {fields[0].key} + KeysOf(fields[1..])
  {
    forall k | k in KeysOf(fields) ensures k == fields[0].key || k in KeysOf(fields[1..]) {
      var i :| 0 <= i < |fields| && fields[i].key == k;
      assert i > 0 ==> fields[1..][i - 1].key == k;
    }
    forall k | k in KeysOf(fields[1..]) ensures k in KeysOf(fields) {
      var i :| 0 <= i < |fields[1..]| && fields[1..][i].key == k;
      assert fields[i + 1].key == k;
    }
  }

  lemma {:induction false} KeysCount(fields: seq<Entry>)
    requires KeysDiffer(fields)
    ensures |KeysOf(fields)| == |fields|
  {
    if fields != [] {
      KeysCons(fields);
      assert forall i :: 0 <= i < |fields[1..]| ==> fields[1..][i] == fields[i + 1];
      KeysCount(fields[1..]);
      assert fields[0].key !in KeysOf(fields[1..]);
    }
  }

  /** The packed object holds exactly the named keys, so also a strict format has nothing left over. */
  lemma ObjectIsFull(fields: seq<Entry>)
    requires KeysDiffer(fields)
    ensures var members := DocOf(TObj(fields)).members;
            && |members.order| == |fields|
            && forall i :: 0 <= i < |fields| ==> T.Get(members, fields[i].key) == Some(DocOf(fields[i].value))
  {
    hide T.Get, T.MapOf;
    assert T.Buckets(HashStr, T.Size(0), EMPTY_OBJECT.members.order) == [];
    FieldsIntoValid(fields, EMPTY_OBJECT);
    FieldsFound(fields, EMPTY_OBJECT);
    KeysCount(fields);
    EmptyKeys();
    T.MapSize(DocOf(TObj(fields)).members.order);
  }

  lemma EmptyKeys()
    ensures T.MapOf(EMPTY_OBJECT.members.order).Keys == {}
  {
  }

  /** Unpacking what a template packs, with the same format, gives its arguments back: in every mode. */
  lemma {:induction false} UnpackUndoesPack(t: Template, cs: Text, targets: seq<Target>, mode: Mode)
    requires Fits(t) && DistinctKeys(t)
    ensures Unpack(Format(t) + cs, DocOf(t), Targets(t, mode) + targets, mode) == Unpacked(cs, targets, Outs(t, mode))
    decreases t, 1
  {
    match t
    case TArr(items) =>
      assert (Format(t) + cs)[1..] == FormatItems(items) + ([']' as int] + cs);
      UnpackItemsBack(items, DocsOf(items), 0, cs, targets, mode);
      assert items[0..] == items;
    case TObj(fields) =>
      assert (Format(t) + cs)[1..] == FormatFields(fields) + (['}' as int] + cs);
      ObjectIsFull(fields);
      UnpackFieldsBack(fields, DocOf(t).members, 0, cs, targets, mode);
      assert fields[0..] == fields && fields[..0] == [];
      assert KeysOf(fields[..0]) == {};
    case _ =>
      ScalarBack(t, cs, targets, mode);
  }

  lemma ScalarBack(t: Template, cs: Text, targets: seq<Target>, mode: Mode)
    requires !t.TArr? && !t.TObj?
    ensures Unpack(Format(t) + cs, DocOf(t), Targets(t, mode) + targets, mode) == Unpacked(cs, targets, Outs(t, mode))
  {
    assert (Format(t) + cs)[1..] == cs;
    assert Targets(t, mode) == [] ==> Targets(t, mode) + targets == targets;
    assert Targets(t, mode) != [] ==> (Targets(t, mode) + targets)[1..] == targets;
  }

  lemma {:induction false} DocsOfAt(items: seq<Template>, i: nat)
    requires i < |items|
    ensures DocsOf(items)[i] == DocOf(items[i])
  {
    if i > 0 {
      DocsOfAt(items[1..], i - 1);
    }
  }

  lemma {:induction false} FitsAt(items: seq<Template>, i: nat)
    requires i < |items| && AllFit(items) && AllDistinct(items)
    ensures Fits(items[i]) && DistinctKeys(items[i])
  {
    if i > 0 {
      FitsAt(items[1..], i - 1);
    }
  }

  lemma {:induction false} FieldFitsAt(fields: seq<Entry>, i: nat)
    requires i < |fields| && FieldsFit(fields) && FieldsDistinct(fields)
    ensures Fits(fields[i].value) && DistinctKeys(fields[i].value)
  {
    if i > 0 {
      FieldFitsAt(fields[1..], i - 1);
    }
  }

  lemma {:induction false} UnpackItemsBack(items: seq<Template>, docs: seq<Doc>, i: nat, cs: Text,
          targets: seq<Target>, mode: Mode)
    requires AllFit(items) && AllDistinct(items) && i <= |items| && docs == DocsOf(items)
    ensures UnpackItems(FormatItems(items[i..]) + ([']' as int] + cs), docs, i,
              TargetsOfItems(items[i..], mode) + targets, mode, 0)
            == Unpacked(cs, targets, OutsOfItems(items[i..], mode))
    decreases items, 0, |items| - i
  {
    hide Format, Fits, DistinctKeys, DocOf, Targets, Outs, Unpack;
    var all, given := FormatItems(items[i..]) + ([']' as int] + cs), TargetsOfItems(items[i..], mode) + targets;
    if i == |items| {
      assert items[i..] == [];
      assert all == [']' as int] + cs && given == targets;
      assert ([']' as int] + cs)[1..] == cs;
    } else {
      assert items[i..][1..] == items[i + 1..];
      var rest, more := FormatItems(items[i + 1..]) + ([']' as int] + cs),
          TargetsOfItems(items[i + 1..], mode) + targets;
      assert all == Format(items[i]) + rest;
      assert given == Targets(items[i], mode) + more;
      FormatStarts(items[i], rest);
      FitsAt(items, i);
      DocsOfAt(items, i);
      UnpackUndoesPack(items[i], rest, more, mode);
      UnpackItemsBack(items, docs, i + 1, cs, targets, mode);
    }
  }

  lemma {:induction false} UnpackFieldsBack(fields: seq<Entry>, members: Members, i: nat, cs: Text,
          targets: seq<Target>, mode: Mode)
    requires FieldsFit(fields) && FieldsDistinct(fields) && KeysDiffer(fields) && i <= |fields| &&
              |members.order| == |fields|
    requires forall j :: 0 <= j < |fields| ==> T.Get(members, fields[j].key) == Some(DocOf(fields[j].value))
    ensures UnpackMembers(FormatFields(fields[i..]) + (['}' as int] + cs), members,
              TargetsOfFields(fields[i..], mode) + targets, mode, 0, KeysOf(fields[..i]))
            == Unpacked(cs, targets, OutsOfFields(fields[i..], mode))
    decreases fields, 0, |fields| - i
  {
    hide Format, Fits, DistinctKeys, DocOf, Targets, Outs, Unpack, T.Get, KeysOf, FormatFields, TargetsOfFields,
        OutsOfFields;
    if i == |fields| {
      assert fields[..i] == fields;
      NoFieldLeft(fields[i..], cs, targets, mode);
      KeysCount(fields);
    } else {
      var value := fields[i].value;
      assert fields[i].value < fields[i];
      var rest, more := FormatFields(fields[i + 1..]) + (['}' as int] + cs),
          TargetsOfFields(fields[i + 1..], mode) + targets;
      NextField(fields, i, ['}' as int] + cs, targets, mode);
      FieldFitsAt(fields, i);
      UnpackUndoesPack(value, rest, more, mode);
      KeysSnoc(fields, i);
      UnpackFieldsBack(fields, members, i + 1, cs, targets, mode);
    }
  }

  lemma NoFieldLeft(fields: seq<Entry>, cs: Text, targets: seq<Target>, mode: Mode)
    requires fields == []
    ensures FormatFields(fields) + (['}' as int] + cs) == ['}' as int] + cs && (['}' as int] + cs)[1..] == cs
    ensures TargetsOfFields(fields, mode) + targets == targets && OutsOfFields(fields, mode) == []
  {
  }

  lemma NextField(fields: seq<Entry>, i: nat, cs: Text, targets: seq<Target>, mode: Mode)
    requires i < |fields|
    ensures var all, value := FormatFields(fields[i..]) + cs, fields[i].value;
            all != [] && all[0] == 's' as int && all[1..] == Format(value) + (FormatFields(fields[i + 1..]) + cs)
    ensures var given, value := TargetsOfFields(fields[i..], mode) + targets, fields[i].value;
            && given != [] && given[0] == Key(Some(fields[i].key))
            && given[1..] == Targets(value, mode) + (TargetsOfFields(fields[i + 1..], mode) + targets)
    ensures OutsOfFields(fields[i..], mode) == Outs(fields[i].value, mode) + OutsOfFields(fields[i + 1..], mode)
  {
    hide Format, Targets, Outs;
    assert fields[i..][1..] == fields[i + 1..];
  }

  lemma KeysSnoc(fields: seq<Entry>, i: nat)
    requires i < |fields|
    ensures KeysOf(fields[..i + 1]) == KeysOf(fields[..i]) + {fields[i].key}
  {
    assert forall j :: 0 <= j < i ==> fields[..i + 1][j] == fields[..i][j];
    assert fields[..i + 1][i] == fields[i];
    forall k | k in KeysOf(fields[..i + 1]) ensures k in KeysOf(fields[..i]) || k == fields[i].key {
      var j :| 0 <= j < i + 1 && fields[..i + 1][j].key == k;
      assert j < i ==> fields[..i][j].key == k;
    }
    forall k | k in KeysOf(fields[..i]) ensures k in KeysOf(fields[..i + 1]) {
      var j :| 0 <= j < i && fields[..i][j].key == k;
      assert fields[..i + 1][j].key == k;
    }
  }

  /**
   The whole of it: every format and argument list that packs, packs a template; and when that has no
   repeated key, unpacking with the same format returns the arguments, in every mode.
   */
  lemma PackThenUnpack(fmt: Text, args: seq<Arg>, mode: Mode)
    requires VPack(fmt, args).Packed?
    ensures exists t: Template :: Packs(t, fmt, args)
    ensures forall t: Template :: Packs(t, fmt, args) && DistinctKeys(t) ==>
              VUnpack(VPack(fmt, args).d, fmt, Targets(t, mode), mode) == Unpacked([], [], Outs(t, mode))
  {
    hide Pack, Unpack, Format, Args, Outs, Targets, Fits, DistinctKeys, Chars;
    var r := Pack(Chars(fmt), args);
    var t := PackSound(Chars(fmt), args);
    assert Format(t) + [] == Format(t);
    assert Packs(t, fmt, args);
    forall t: Template | Packs(t, fmt, args) && DistinctKeys(t)
      ensures VUnpack(VPack(fmt, args).d, fmt, Targets(t, mode), mode) == Unpacked([], [], Outs(t, mode))
    {
      TemplateBack(t, fmt, args, mode);
    }
  }

  lemma TemplateBack(t: Template, fmt: Text, args: seq<Arg>, mode: Mode)
    requires fmt != [] && Packs(t, fmt, args) && DistinctKeys(t)
    ensures VPack(fmt, args).Packed?
    ensures VUnpack(VPack(fmt, args).d, fmt, Targets(t, mode), mode) == Unpacked([], [], Outs(t, mode))
  {
    hide Pack, Unpack, Format, Args, Outs, Targets, Fits, DistinctKeys, Chars;
    var more := args[|Args(t)|..];
    assert args == Args(t) + more;
    assert Format(t) + [] == Format(t) && Targets(t, mode) + [] == Targets(t, mode);
    PackComplete(t, [], more);
    UnpackUndoesPack(t, [], [], mode);
  }

  /** The format is that of `t`, and the arguments start with those of `t`. */
  ghost predicate Packs(t: Template, fmt: Text, args: seq<Arg>) {
    Fits(t) && Chars(fmt) == Format(t) && Args(t) <= args
  }
}
