/** When unpacking a container strictly succeeds: a counting argument; and where a format is refused. */
module Strict {
  import opened Bytes
  import opened Json
  import opened PackFormat
  import T = Tables

  /** A key in an object format, the format of its value, and what unpacking that takes and stores. */
  datatype Given = Given(key: Text, fmt: Text, targets: seq<Target>, outs: seq<Out>)

  /** The key is in the object, and its value unpacks, whatever follows. */
  ghost predicate Unpacks(e: Given, members: Members, mode: Mode) {
    && T.Get(members, e.key).Some?
    && forall cs: Text, more: seq<Target> ::
         Unpack(e.fmt + cs, T.Get(members, e.key).value, e.targets + more, mode) == Unpacked(cs, more, e.outs)
  }

  function FormatOf(es: seq<Given>): Text {
    if es == [] then [] else ['s' as int] + (es[0].fmt + FormatOf(es[1..]))
  }

  function TargetsOf(es: seq<Given>): seq<Target> {
    if es == [] then [] else [Key(Some(es[0].key))] + (es[0].targets + TargetsOf(es[1..]))
  }

  function OutsOf(es: seq<Given>): seq<Out> {
    if es == [] then [] else es[0].outs + OutsOf(es[1..])
  }

  function Named(es: seq<Given>): set<Text> {
    if es == [] then {} else {es[0].key} + Named(es[1..])
  }

  /** What stands in front of the closing brace or bracket. */
  datatype Ending = Plain | Bang | Star

  function EndingText(e: Ending, close: byte): Text {
    match e
    case Plain => [close]
    case Bang => ['!' as int, close]
    case Star => ['*' as int, close]
  }

  predicate Demands(e: Ending, mode: Mode) {
    e.Bang? || (e.Plain? && mode.strict)
  }

  lemma SameCount(named: set<Text>, members: Members)
    requires T.Distinct(members.order) && forall k :: k in named ==> T.Get(members, k).Some?
    ensures |named| == |members.order| <==> named == T.MapOf(members.order).Keys
  {
    T.MapSize(members.order);
    var keys := T.MapOf(members.order).Keys;
    forall k | k in named ensures k in keys {
      T.GetIsLookup(members, k);
    }
    if |named| == |keys| {
      SameSizeKeys(named, keys);
    }
  }

  lemma AtTheEnd(members: Members, cs: Text, targets: seq<Target>, mode: Mode, named: set<Text>, ending: Ending)
    requires T.Distinct(members.order) && forall k :: k in named ==> T.Get(members, k).Some?
    ensures UnpackMembers(EndingText(ending, '}' as int) + cs, members, targets, mode, 0, named)
            == if Demands(ending, mode) && named != T.MapOf(members.order).Keys then UnpackFails
               else Unpacked(cs, targets, [])
  {
    hide T.MapOf, T.Get, T.Distinct;
    SameCount(named, members);
    var text := EndingText(ending, '}' as int) + cs;
    match ending
    case Plain => assert text[1..] == cs;
    case Bang => assert text[1..] == ['}' as int] + cs && text[1..][1..] == cs;
    case Star => assert text[1..] == ['}' as int] + cs && text[1..][1..] == cs;
  }

  lemma GivenUnfold(es: seq<Given>, tail: Text, targets: seq<Target>)
    requires es != []
    ensures FormatOf(es) + tail == ['s' as int] + (es[0].fmt + (FormatOf(es[1..]) + tail))
    ensures TargetsOf(es) + targets == [Key(Some(es[0].key))] + (es[0].targets + (TargetsOf(es[1..]) + targets))
  {
    Assoc(es[0].fmt, FormatOf(es[1..]), tail);
    Assoc(['s' as int], es[0].fmt + FormatOf(es[1..]), tail);
    Assoc(es[0].targets, TargetsOf(es[1..]), targets);
    Assoc([Key(Some(es[0].key))], es[0].targets + TargetsOf(es[1..]), targets);
  }

  lemma UnpackOne(e: Given, cs: Text, targets: seq<Target>, members: Members, mode: Mode, named: set<Text>)
    requires Unpacks(e, members, mode)
    ensures UnpackMembers(['s' as int] + (e.fmt + cs), members, [Key(Some(e.key))] + (e.targets + targets), mode, 0,
              named)
            == PackFormat.Before(e.outs, UnpackMembers(cs, members, targets, mode, 0, named + {e.key}))
  {
    hide Unpack, T.Get;
    var text, given := ['s' as int] + (e.fmt + cs), [Key(Some(e.key))] + (e.targets + targets);
    assert text[1..] == e.fmt + cs && given[1..] == e.targets + targets;
  }

  /** Entries that unpack are taken one after the other, whatever follows them. */
  lemma {:induction false} UnpackGiven(es: seq<Given>, members: Members, tail: Text, targets: seq<Target>, mode: Mode,
          named: set<Text>)
    requires forall i :: 0 <= i < |es| ==> Unpacks(es[i], members, mode)
    ensures UnpackMembers(FormatOf(es) + tail, members, TargetsOf(es) + targets, mode, 0, named)
            == PackFormat.Before(OutsOf(es), UnpackMembers(tail, members, targets, mode, 0, named + Named(es)))
    decreases |es|
  {
    hide T.Get, Unpack, UnpackMembers;
    if es == [] {
      assert FormatOf(es) + tail == tail && TargetsOf(es) + targets == targets && named + Named(es) == named;
      BeforeNone(UnpackMembers(tail, members, targets, mode, 0, named));
    } else {
      var e, rest := es[0], es[1..];
      assert Unpacks(es[0], members, mode);
      GivenUnfold(es, tail, targets);
      UnpackOne(e, FormatOf(rest) + tail, TargetsOf(rest) + targets, members, mode, named);
      assert forall i :: 0 <= i < |rest| ==> rest[i] == es[i + 1];
      UnpackGiven(rest, members, tail, targets, mode, named + {e.key});
      assert named + {e.key} + Named(rest) == named + Named(es);
      BeforeTwice(e.outs, OutsOf(rest), UnpackMembers(tail, members, targets, mode, 0, named + Named(es)));
    }
  }

  lemma BeforeNone(r: Unpacked)
    ensures PackFormat.Before([], r) == r
  {
    assert r.Unpacked? ==> [] + r.outs == r.outs;
  }

  lemma BeforeTwice(a: seq<Out>, b: seq<Out>, r: Unpacked)
    ensures PackFormat.Before(a, PackFormat.Before(b, r)) == PackFormat.Before(a + b, r)
  {
    assert r.Unpacked? ==> a + (b + r.outs) == a + b + r.outs;
  }

  lemma {:induction false} NamedAreFound(es: seq<Given>, members: Members, mode: Mode)
    requires forall i :: 0 <= i < |es| ==> Unpacks(es[i], members, mode)
    ensures forall k :: k in Named(es) ==> T.Get(members, k).Some?
    decreases |es|
  {
    hide T.Get;
    if es != [] {
      assert Unpacks(es[0], members, mode);
      var rest := es[1..];
      assert forall i :: 0 <= i < |rest| ==> rest[i] == es[i + 1];
      NamedAreFound(rest, members, mode);
    }
  }

  /** The object format of some entries, and what follows them. */
  function ObjectFormat(es: seq<Given>, tail: Text): Text {
    ['{' as int] + (FormatOf(es) + tail)
  }

  lemma ObjectUnpacks(es: seq<Given>, root: Doc, tail: Text, targets: seq<Target>, mode: Mode)
    requires root.Object? && forall i :: 0 <= i < |es| ==> Unpacks(es[i], root.members, mode)
    ensures Unpack(ObjectFormat(es, tail), root, TargetsOf(es) + targets, mode)
            == PackFormat.Before(OutsOf(es), UnpackMembers(tail, root.members, targets, mode, 0, Named(es)))
  {
    hide T.Get, UnpackMembers, FormatOf;
    assert ObjectFormat(es, tail)[1..] == FormatOf(es) + tail;
    assert {} + Named(es) == Named(es);
    UnpackGiven(es, root.members, tail, targets, mode, {});
  }

  /**
   When every entry of an object format is found and unpacks, unpacking the object succeeds exactly
   when it is not strict or every key of the object has been named at least once; a key may be named
   more than once.
   */
  lemma StrictExactly(es: seq<Given>, root: Doc, mode: Mode, ending: Ending)
    requires root.Object? && T.Distinct(root.members.order)
    requires forall i :: 0 <= i < |es| ==> Unpacks(es[i], root.members, mode)
    ensures var r := Unpack(ObjectFormat(es, EndingText(ending, '}' as int)), root, TargetsOf(es), mode);
            && (r.Unpacked? <==> (Demands(ending, mode) ==> Named(es) == T.MapOf(root.members.order).Keys))
            && (r.Unpacked? ==> r == Unpacked([], [], OutsOf(es)))
  {
    hide T.MapOf, T.Get, T.Distinct, UnpackMembers, EndingText, FormatOf, ObjectFormat;
    var tail := EndingText(ending, '}' as int);
    assert TargetsOf(es) + [] == TargetsOf(es) && tail + [] == tail && OutsOf(es) + [] == OutsOf(es);
    ObjectUnpacks(es, root, tail, [], mode);
    NamedAreFound(es, root.members, mode);
    AtTheEnd(root.members, [], [], mode, Named(es), ending);
  }

  /**
   Where an object format is refused, behind entries that unpack: at a key that is null or that the object does not
   have, at anything but the brace behind `!` or `*`, and at any character that starts no entry and ends nothing.
   */
  lemma ObjectRefuses(es: seq<Given>, root: Doc, key: Option<Text>, c: byte, mark: byte, rest: Text,
          targets: seq<Target>, mode: Mode)
    requires root.Object? && forall i :: 0 <= i < |es| ==> Unpacks(es[i], root.members, mode)
    ensures key.None? || T.Get(root.members, key.value).None? ==>
              Unpack(ObjectFormat(es, ['s' as int] + rest), root, TargetsOf(es) + ([Key(key)] + targets), mode)
              == UnpackFails
    ensures (mark == '!' as int || mark == '*' as int) && c != '}' as int ==>
              Unpack(ObjectFormat(es, [mark, c] + rest), root, TargetsOf(es) + targets, mode) == UnpackFails
    ensures mark == '!' as int || mark == '*' as int ==>
              Unpack(ObjectFormat(es, [mark]), root, TargetsOf(es) + targets, mode) == UnpackFails
    ensures c != '}' as int && c != '!' as int && c != '*' as int && c != 's' as int ==>
              Unpack(ObjectFormat(es, [c] + rest), root, TargetsOf(es) + targets, mode) == UnpackFails
    ensures Unpack(ObjectFormat(es, []), root, TargetsOf(es) + targets, mode) == UnpackFails
    ensures !root.Array? && Unpack(['[' as int] + rest, root, targets, mode) == UnpackFails
  {
    hide T.Get, FormatOf, ObjectFormat, Unpack;
    ObjectUnpacks(es, root, ['s' as int] + rest, [Key(key)] + targets, mode);
    if key.None? || T.Get(root.members, key.value).None? {
      KeyRefused(key, root.members, rest, targets, mode, Named(es));
    }
    ObjectUnpacks(es, root, [mark, c] + rest, targets, mode);
    ObjectUnpacks(es, root, [mark], targets, mode);
    ObjectUnpacks(es, root, [c] + rest, targets, mode);
    ObjectUnpacks(es, root, [], targets, mode);
    EndRefused(root.members, c, mark, rest, targets, mode, Named(es));
    WrongContainer(root, rest, targets, mode);
  }

  lemma KeyRefused(key: Option<Text>, members: Members, rest: Text, targets: seq<Target>, mode: Mode,
          named: set<Text>)
    requires key.None? || T.Get(members, key.value).None?
    ensures UnpackMembers(['s' as int] + rest, members, [Key(key)] + targets, mode, 0, named) == UnpackFails
  {
    hide T.Get;
  }

  lemma EndRefused(members: Members, c: byte, mark: byte, rest: Text, targets: seq<Target>, mode: Mode,
          named: set<Text>)
    ensures (mark == '!' as int || mark == '*' as int) && c != '}' as int ==>
              UnpackMembers([mark, c] + rest, members, targets, mode, 0, named) == UnpackFails
    ensures mark == '!' as int || mark == '*' as int ==>
              UnpackMembers([mark], members, targets, mode, 0, named) == UnpackFails
    ensures c != '}' as int && c != '!' as int && c != '*' as int && c != 's' as int ==>
              UnpackMembers([c] + rest, members, targets, mode, 0, named) == UnpackFails
    ensures UnpackMembers([], members, targets, mode, 0, named) == UnpackFails
  {
    hide T.Get, Unpack;
    var one: Text := [mark];
    assert ([mark, c] + rest)[1..] == [c] + rest && one[1..] == [];
  }

  lemma WrongContainer(root: Doc, rest: Text, targets: seq<Target>, mode: Mode)
    ensures !root.Array? ==> Unpack(['[' as int] + rest, root, targets, mode) == UnpackFails
    ensures !root.Object? ==> Unpack(['{' as int] + rest, root, targets, mode) == UnpackFails
  {
  }

  // ---------------------------------------------------------------- arrays

  /** The format of one item of an array, and what unpacking it takes and stores. */
  datatype Part = Part(fmt: Text, targets: seq<Target>, outs: seq<Out>)

  /** The item unpacks, whatever follows. */
  ghost predicate UnpacksItem(e: Part, d: Doc, mode: Mode) {
    forall cs: Text, more: seq<Target> ::
      Unpack(e.fmt + cs, d, e.targets + more, mode) == Unpacked(cs, more, e.outs)
  }

  /** It neither ends the array nor says whether unpacking is strict. */
  predicate Starts(e: Part) {
    e.fmt != [] && e.fmt[0] != ']' as int && e.fmt[0] != '!' as int && e.fmt[0] != '*' as int
  }

  function ItemsFormat(es: seq<Part>): Text {
    if es == [] then [] else es[0].fmt + ItemsFormat(es[1..])
  }

  function ItemsTargets(es: seq<Part>): seq<Target> {
    if es == [] then [] else es[0].targets + ItemsTargets(es[1..])
  }

  function ItemsOuts(es: seq<Part>): seq<Out> {
    if es == [] then [] else es[0].outs + ItemsOuts(es[1..])
  }

  lemma StarterOf(fmt: Text, d: Doc, targets: seq<Target>, mode: Mode)
    requires fmt != [] && Unpack(fmt, d, targets, mode).Unpacked?
    ensures Starter(fmt[0])
  {
    hide UnpackMembers, UnpackItems, Store;
  }

  lemma ItemUnpacks(e: Part, items: seq<Doc>, i: nat, tail: Text, targets: seq<Target>, mode: Mode)
    requires i < |items| && Starts(e) && UnpacksItem(e, items[i], mode)
    ensures UnpackItems(e.fmt + tail, items, i, e.targets + targets, mode, 0)
            == PackFormat.Before(e.outs, UnpackItems(tail, items, i + 1, targets, mode, 0))
  {
    hide Unpack;
    var text, given := e.fmt + tail, e.targets + targets;
    assert Unpack(text, items[i], given, mode) == Unpacked(tail, targets, e.outs);
    StarterOf(text, items[i], given, mode);
  }

  lemma {:induction false} ItemsUnpack(es: seq<Part>, items: seq<Doc>, i: nat, tail: Text, targets: seq<Target>,
          mode: Mode)
    requires i + |es| <= |items|
    requires forall j :: 0 <= j < |es| ==> Starts(es[j]) && UnpacksItem(es[j], items[i + j], mode)
    ensures UnpackItems(ItemsFormat(es) + tail, items, i, ItemsTargets(es) + targets, mode, 0)
            == PackFormat.Before(ItemsOuts(es), UnpackItems(tail, items, i + |es|, targets, mode, 0))
    decreases |es|
  {
    hide Unpack, UnpackItems, UnpacksItem, Starts;
    if es == [] {
      assert ItemsFormat(es) + tail == tail && ItemsTargets(es) + targets == targets;
      BeforeNone(UnpackItems(tail, items, i, targets, mode, 0));
    } else {
      var e, rest := es[0], es[1..];
      assert Starts(es[0]) && UnpacksItem(es[0], items[i + 0], mode);
      forall j | 0 <= j < |rest| ensures Starts(rest[j]) && UnpacksItem(rest[j], items[i + 1 + j], mode) {
        assert rest[j] == es[j + 1] && UnpacksItem(es[j + 1], items[i + (j + 1)], mode);
      }
      Assoc(e.fmt, ItemsFormat(rest), tail);
      Assoc(e.targets, ItemsTargets(rest), targets);
      ItemUnpacks(e, items, i, ItemsFormat(rest) + tail, ItemsTargets(rest) + targets, mode);
      ItemsUnpack(rest, items, i + 1, tail, targets, mode);
      BeforeTwice(e.outs, ItemsOuts(rest), UnpackItems(tail, items, i + |es|, targets, mode, 0));
    }
  }

  function ArrayFormat(es: seq<Part>, tail: Text): Text {
    ['[' as int] + (ItemsFormat(es) + tail)
  }

  lemma ArrayUnpacks(es: seq<Part>, root: Doc, tail: Text, targets: seq<Target>, mode: Mode)
    requires root.Array? && |es| <= |root.items|
    requires forall j :: 0 <= j < |es| ==> Starts(es[j]) && UnpacksItem(es[j], root.items[j], mode)
    ensures Unpack(ArrayFormat(es, tail), root, ItemsTargets(es) + targets, mode)
            == PackFormat.Before(ItemsOuts(es), UnpackItems(tail, root.items, |es|, targets, mode, 0))
  {
    hide UnpackItems, ItemsFormat, UnpacksItem, Starts;
    assert ArrayFormat(es, tail)[1..] == ItemsFormat(es) + tail;
    ItemsUnpack(es, root.items, 0, tail, targets, mode);
  }

  lemma ArrayEnds(items: seq<Doc>, i: nat, mode: Mode, ending: Ending)
    ensures UnpackItems(EndingText(ending, ']' as int), items, i, [], mode, 0)
            == if Demands(ending, mode) && i != |items| then UnpackFails else Unpacked([], [], [])
  {
    var text := EndingText(ending, ']' as int);
    match ending
    case Plain => assert text[1..] == [];
    case Bang => assert text[1..] == [']' as int] && text[1..][1..] == [];
    case Star => assert text[1..] == [']' as int] && text[1..][1..] == [];
  }

  lemma OneTooMany(e: Part, items: seq<Doc>, tail: Text, targets: seq<Target>, mode: Mode)
    requires Starts(e)
    ensures UnpackItems(e.fmt + tail, items, |items|, targets, mode, 0) == UnpackFails
  {
    hide Unpack;
  }

  lemma {:induction false} SplitParts(es: seq<Part>, k: nat)
    requires k <= |es|
    ensures ItemsFormat(es) == ItemsFormat(es[..k]) + ItemsFormat(es[k..])
    ensures ItemsTargets(es) == ItemsTargets(es[..k]) + ItemsTargets(es[k..])
    decreases k
  {
    hide ItemsFormat, ItemsTargets;
    if k == 0 {
      assert es[0..] == es;
      NoParts(es[..0]);
    } else {
      var rest := es[1..];
      SplitParts(rest, k - 1);
      PartsCons(es);
      PartsCons(es[..k]);
      assert es[..k][1..] == rest[..k - 1] && rest[k - 1..] == es[k..];
      Assoc(es[0].fmt, ItemsFormat(rest[..k - 1]), ItemsFormat(es[k..]));
      Assoc(es[0].targets, ItemsTargets(rest[..k - 1]), ItemsTargets(es[k..]));
    }
  }

  lemma NoParts(es: seq<Part>)
    requires es == []
    ensures forall t: Text :: ItemsFormat(es) + t == t
    ensures forall t: seq<Target> :: ItemsTargets(es) + t == t
  {
  }

  lemma PartsCons(es: seq<Part>)
    requires es != []
    ensures ItemsFormat(es) == es[0].fmt + ItemsFormat(es[1..])
    ensures ItemsTargets(es) == es[0].targets + ItemsTargets(es[1..])
  {
  }

  /**
   When every entry of an array format unpacks its item, unpacking the array succeeds exactly when there is an
   item for each entry and it is not strict or there is an entry for each item.
   */
  lemma ArrayExactly(es: seq<Part>, root: Doc, mode: Mode, ending: Ending)
    requires root.Array? && forall j :: 0 <= j < |es| ==> Starts(es[j])
    requires forall j :: 0 <= j < |es| && j < |root.items| ==> UnpacksItem(es[j], root.items[j], mode)
    ensures var r := Unpack(ArrayFormat(es, EndingText(ending, ']' as int)), root, ItemsTargets(es), mode);
            && (r.Unpacked? <==> |es| <= |root.items| && (Demands(ending, mode) ==> |es| == |root.items|))
            && (r.Unpacked? ==> r == Unpacked([], [], ItemsOuts(es)))
  {
    hide Unpack, UnpackItems, UnpacksItem, Starts, EndingText;
    var tail := EndingText(ending, ']' as int);
    if |es| <= |root.items| {
      assert ItemsTargets(es) + [] == ItemsTargets(es) && ItemsOuts(es) + [] == ItemsOuts(es);
      ArrayUnpacks(es, root, tail, [], mode);
      ArrayEnds(root.items, |es|, mode, ending);
    } else {
      TooManyFail(es, root, mode, tail);
    }
  }

  lemma TooManyFail(es: seq<Part>, root: Doc, mode: Mode, tail: Text)
    requires root.Array? && |es| > |root.items| && forall j :: 0 <= j < |es| ==> Starts(es[j])
    requires forall j :: 0 <= j < |root.items| ==> UnpacksItem(es[j], root.items[j], mode)
    ensures Unpack(ArrayFormat(es, tail), root, ItemsTargets(es), mode) == UnpackFails
  {
    hide Unpack, UnpackItems, UnpacksItem, Starts;
    var n := |root.items|;
    var front, more := es[..n], es[n..];
    SplitParts(es, n);
    Assoc(ItemsFormat(front), ItemsFormat(more), tail);
    ArrayUnpacks(front, root, ItemsFormat(more) + tail, ItemsTargets(more), mode);
    Assoc(more[0].fmt, ItemsFormat(more[1..]), tail);
    assert more[0] == es[n];
    OneTooMany(more[0], root.items, ItemsFormat(more[1..]) + tail, ItemsTargets(more), mode);
  }

  /** Where an array format is refused, behind entries that unpack. */
  lemma ArrayRefuses(es: seq<Part>, root: Doc, c: byte, mark: byte, rest: Text, targets: seq<Target>, mode: Mode)
    requires root.Array? && |es| <= |root.items|
    requires forall j :: 0 <= j < |es| ==> Starts(es[j]) && UnpacksItem(es[j], root.items[j], mode)
    ensures (mark == '!' as int || mark == '*' as int) && c != ']' as int ==>
              Unpack(ArrayFormat(es, [mark, c] + rest), root, ItemsTargets(es) + targets, mode) == UnpackFails
    ensures mark == '!' as int || mark == '*' as int ==>
              Unpack(ArrayFormat(es, [mark]), root, ItemsTargets(es) + targets, mode) == UnpackFails
    ensures Unpack(ArrayFormat(es, []), root, ItemsTargets(es) + targets, mode) == UnpackFails
    ensures !root.Object? && Unpack(['{' as int] + rest, root, targets, mode) == UnpackFails
  {
    hide Unpack, UnpacksItem, Starts, ItemsFormat, ArrayFormat;
    ArrayUnpacks(es, root, [mark, c] + rest, targets, mode);
    ArrayUnpacks(es, root, [mark], targets, mode);
    ArrayUnpacks(es, root, [], targets, mode);
    var one: Text := [mark];
    assert ([mark, c] + rest)[1..] == [c] + rest && one[1..] == [];
    WrongContainer(root, rest, targets, mode);
  }
}
