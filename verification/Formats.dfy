/** What the characters of a format mean, one by one, and that nothing but what they take is looked at. */
module Formats {
  import opened Bytes
  import opened Json
  import opened PackFormat
  import T = Tables
  import Utf8

  // ---------------------------------------------------------------- the characters that count

  lemma {:induction false} CharsJoin(a: Text, b: Text)
    ensures Chars(a + b) == Chars(a) + Chars(b)
    decreases |a|
  {
    if a == [] {
      assert a + b == b;
    } else {
      assert (a + b)[1..] == a[1..] + b;
      CharsJoin(a[1..], b);
    }
  }

  /** Space, tab, newline, comma and colon are skipped wherever they stand, every other character is delivered. */
  lemma CharsExactly(a: Text, c: byte, b: Text)
    ensures Chars(a + [c] + b) ==
              if c == 0x20 || c == 0x09 || c == 0x0A || c == 0x2C || c == 0x3A then Chars(a) + Chars(b)
              else Chars(a) + [c] + Chars(b)
  {
    CharsJoin(a + [c], b);
    CharsJoin(a, [c]);
    OneChar(c);
  }

  lemma OneChar(c: byte)
    ensures Chars([c]) == if c == 0x20 || c == 0x09 || c == 0x0A || c == 0x2C || c == 0x3A then [] else [c]
  {
    var one: Text := [c];
    assert one[1..] == [];
  }

  /** So such a character, put in anywhere, changes nothing that packing or unpacking does. */
  lemma BlanksChangeNothing(a: Text, c: byte, b: Text, args: seq<Arg>, root: Doc, targets: seq<Target>, mode: Mode)
    requires c == 0x20 || c == 0x09 || c == 0x0A || c == 0x2C || c == 0x3A
    ensures VPack(a + [c] + b, args) == VPack(a + b, args)
    ensures VUnpack(root, a + [c] + b, targets, mode) == VUnpack(root, a + b, targets, mode)
  {
    hide Chars, Pack, Unpack;
    CharsExactly(a, c, b);
    CharsJoin(a, b);
    NothingAsked(args, root, targets, mode);
  }

  lemma NothingAsked(args: seq<Arg>, root: Doc, targets: seq<Target>, mode: Mode)
    ensures Chars([]) == [] && Pack([], args) == PackFails && Unpack([], root, targets, mode) == UnpackFails
  {
  }

  // ---------------------------------------------------------------- what is behind a value

  lemma Behind<X>(a: seq<X>, k: nat, b: seq<X>)
    requires k <= |a|
    ensures (a + b)[k..] == a[k..] + b && (k < |a| ==> (a + b)[k] == a[k])
  {
  }

  /** Unpacking takes what it needs of the format and of the targets, whatever follows. */
  lemma {:induction false} UnpackFrame(cs: Text, root: Doc, targets: seq<Target>, mode: Mode, tail: Text,
          more: seq<Target>)
    requires Unpack(cs, root, targets, mode).Unpacked?
    ensures var r := Unpack(cs, root, targets, mode);
            Unpack(cs + tail, root, targets + more, mode) == Unpacked(r.cs + tail, r.targets + more, r.outs)
    decreases |cs|, 0
  {
    hide UnpackMembers, UnpackItems;
    Behind(cs, 1, tail);
    Behind(cs, 0, tail);
    if cs[0] == '{' as int {
      MembersFrame(cs[1..], root.members, targets, mode, 0, {}, tail, more);
    } else if cs[0] == '[' as int {
      ItemsFrame(cs[1..], root.items, 0, targets, mode, 0, tail, more);
    } else {
      hide Store;
      ScalarFrame(cs, targets, mode, tail, more);
    }
  }

  lemma ScalarFrame(cs: Text, targets: seq<Target>, mode: Mode, tail: Text, more: seq<Target>)
    requires cs != []
    ensures forall out: Out, fails: bool :: Store(cs, targets, mode, out, fails).Unpacked? ==>
              var r := Store(cs, targets, mode, out, fails);
              Store(cs + tail, targets + more, mode, out, fails) == Unpacked(r.cs + tail, r.targets + more, r.outs)
    ensures Unpacked(cs[1..], targets, []).cs + tail == (cs + tail)[1..]
  {
    Behind(cs, 1, tail);
    if targets != [] {
      Behind(targets, 1, more);
    }
  }

  lemma {:induction false} MembersFrame(cs: Text, members: Members, targets: seq<Target>, mode: Mode, strict: int,
          named: set<Text>, tail: Text, more: seq<Target>)
    requires UnpackMembers(cs, members, targets, mode, strict, named).Unpacked?
    ensures var r := UnpackMembers(cs, members, targets, mode, strict, named);
            UnpackMembers(cs + tail, members, targets + more, mode, strict, named)
            == Unpacked(r.cs + tail, r.targets + more, r.outs)
    decreases |cs|, 1
  {
    hide Unpack, T.Get, LeftOver;
    Behind(cs, 1, tail);
    Behind(cs, 0, tail);
    if cs[0] == '}' as int {
    } else if cs[0] == '!' as int {
      MembersFrame(cs[1..], members, targets, mode, 1, named, tail, more);
    } else if cs[0] == '*' as int {
      MembersFrame(cs[1..], members, targets, mode, -1, named, tail, more);
    } else {
      Behind(targets, 1, more);
      var key := targets[0].k.value;
      var value := T.Get(members, key).value;
      var r := Unpack(cs[1..], value, targets[1..], mode);
      UnpackFrame(cs[1..], value, targets[1..], mode, tail, more);
      MembersFrame(r.cs, members, r.targets, mode, strict, named + {key}, tail, more);
    }
  }

  lemma {:induction false} ItemsFrame(cs: Text, items: seq<Doc>, i: nat, targets: seq<Target>, mode: Mode, strict: int,
          tail: Text, more: seq<Target>)
    requires UnpackItems(cs, items, i, targets, mode, strict).Unpacked?
    ensures var r := UnpackItems(cs, items, i, targets, mode, strict);
            UnpackItems(cs + tail, items, i, targets + more, mode, strict)
            == Unpacked(r.cs + tail, r.targets + more, r.outs)
    decreases |cs|, 1
  {
    hide Unpack, Starter, LeftOver;
    Behind(cs, 1, tail);
    Behind(cs, 0, tail);
    if cs[0] == ']' as int {
    } else if cs[0] == '!' as int {
      ItemsFrame(cs[1..], items, i, targets, mode, 1, tail, more);
    } else if cs[0] == '*' as int {
      ItemsFrame(cs[1..], items, i, targets, mode, -1, tail, more);
    } else {
      var r := Unpack(cs, items[i], targets, mode);
      UnpackFrame(cs, items[i], targets, mode, tail, more);
      ItemsFrame(r.cs, items, i + 1, r.targets, mode, strict, tail, more);
    }
  }

  /** A format that packs or unpacks a value fails when a character that counts is put behind it. */
  lemma NothingBehind(fmt: Text, extra: Text, args: seq<Arg>, root: Doc, targets: seq<Target>, mode: Mode)
    requires Chars(extra) != []
    ensures VPack(fmt, args).Packed? ==> VPack(fmt + extra, args) == PackFails
    ensures VUnpack(root, fmt, targets, mode).Unpacked? ==> VUnpack(root, fmt + extra, targets, mode) == UnpackFails
  {
    hide Chars, Pack, Unpack;
    CharsJoin(fmt, extra);
    if VPack(fmt, args).Packed? {
      var t := PackSound(Chars(fmt), args);
      var r := Pack(Chars(fmt), args);
      assert Chars(fmt) == Format(t);
      PackComplete(t, Chars(extra), r.args);
    }
    if VUnpack(root, fmt, targets, mode).Unpacked? {
      UnpackFrame(Chars(fmt), root, targets, mode, Chars(extra), []);
      assert targets + [] == targets;
    }
  }

  // ---------------------------------------------------------------- types

  /** The format letters that unpack a value, other than the brackets, by its type. */
  function Letters(root: Doc): set<int> {
    match root
    case Null => {'n' as int, 'o' as int, 'O' as int}
    case True => {'b' as int, 'o' as int, 'O' as int}
    case False => {'b' as int, 'o' as int, 'O' as int}
    case Integer(_) => {'i' as int, 'I' as int, 'F' as int, 'o' as int, 'O' as int}
    case Real(_) => {'f' as int, 'F' as int, 'o' as int, 'O' as int}
    case Str(_) => {'s' as int, 'o' as int, 'O' as int}
    case Array(_) => {'o' as int, 'O' as int}
    case Object(_, _) => {'o' as int, 'O' as int}
  }

  /**
   What is stored for the value is the value: an integer is cut to the width of its target, a boolean is 0 or 1,
   and `F` takes integers and reals.
   */
  ghost predicate Stores(c: byte, root: Doc, out: Out) {
    match out
    case OutStr(s) => c == 's' as int && root == Doc.Str(s)
    case OutInt(n) =>
      || (c == 'i' as int && root.Integer? && (root.n - n) % 0x1_0000_0000 == 0)
      || (c == 'b' as int && root == if n == 0 then False else True)
    case OutLong(m) => c == 'I' as int && root.Integer? && (root.n - m) % 0x1_0000_0000_0000_0000 == 0
    case OutDouble(x) => (c == 'f' as int || c == 'F' as int) && root == Real(x)
    case OutFromInteger(m) => c == 'F' as int && root.Integer? && (root.n - m) % 0x1_0000_0000_0000_0000 == 0
    case OutValue(d) => (c == 'o' as int || c == 'O' as int) && root == d
  }

  lemma Whole32(n: int, low: int)
    requires low == n % 0x1_0000_0000
    ensures (n - low) % 0x1_0000_0000 == 0 && (n - (low - 0x1_0000_0000)) % 0x1_0000_0000 == 0
  {
  }

  lemma Whole64(n: int, low: int)
    requires low == n % 0x1_0000_0000_0000_0000
    ensures (n - low) % 0x1_0000_0000_0000_0000 == 0
    ensures (n - (low - 0x1_0000_0000_0000_0000)) % 0x1_0000_0000_0000_0000 == 0
  {
  }

  lemma TruncatedIs(n: int)
    ensures (n - Truncated(n)) % 0x1_0000_0000 == 0 && (n - Truncated64(n)) % 0x1_0000_0000_0000_0000 == 0
  {
    Whole32(n, n % 0x1_0000_0000);
    Whole64(n, n % 0x1_0000_0000_0000_0000);
  }

  /**
   A letter unpacks exactly the values of its type, and stores the value; `n` stores nothing, and neither does any
   letter when the format is only validated.
   */
  lemma TypesExactly(c: byte, root: Doc, strict: bool)
    requires c != '{' as int && c != '[' as int
    ensures var r := Unpack([c], root, [Pointer(true)], Mode(strict, false));
            && (r.Unpacked? <==> c in Letters(root))
            && (r.Unpacked? && c != 'n' as int ==>
                  r.cs == [] && r.targets == [] && |r.outs| == 1 && Stores(c, root, r.outs[0]))
            && (r.Unpacked? && c == 'n' as int ==> r == Unpacked([], [Pointer(true)], []))
            && (!r.Unpacked? ==> r.UnpackFails?)
    ensures var r := Unpack([c], root, [], Mode(strict, true));
            if c in Letters(root) then r == Unpacked([], [], []) else r.UnpackFails?
  {
    hide Truncated, Truncated64;
    var one: Text := [c];
    assert one[1..] == [];
    if root.Integer? {
      TruncatedIs(root.n);
    }
  }

  /** A null pointer for a string is refused. */
  lemma NullStringFails(s: Text, cs: Text, targets: seq<Target>, strict: bool)
    ensures Unpack(['s' as int] + cs, Doc.Str(s), [Pointer(false)] + targets, Mode(strict, false)) == UnpackFails
  {
  }
}
