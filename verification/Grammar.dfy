/**
 The recursive-descent parser of `load.c` over token sequences, and the grammar of sections 2.1 to
 2.3 of RFC 4627 that it decides.
 */
module Grammar {
  import opened Bytes
  import opened Json
  import T = Tables

  /** `Aborted` stands for a failed assertion inside the lexer, which ends the process. */
  datatype Token =
    | LBrace | RBrace | LBracket | RBracket | Colon | Comma
    | String(s: Text)
    | Integer(n: int)
    | Real(lexeme: Text)
    | True | False | Null
    | Invalid
    | Aborted
    | Eof

  predicate IsScalar(t: Token) {
    t.String? || t.Integer? || t.Real? || t.True? || t.False? || t.Null?
  }

  /** The current token; past the end the lexer keeps answering with end-of-file. */
  function At(toks: seq<Token>): Token {
    if toks == [] then Eof else toks[0]
  }

  // ---------------------------------------------------------------- the parser

  datatype Parsed<+R> = Fail | Done(result: R, rest: seq<Token>)

  function ScalarDoc(t: Token): Doc
    requires IsScalar(t)
  {
    match t
    case String(s) => Doc.Str(s)
    case Integer(n) => Doc.Integer(n)
    case Real(x) => Doc.Real(x)
    case True => Doc.True
    case False => Doc.False
    case Null => Doc.Null
  }

  /** `parse_value`, with the current token at the front of `toks`. */
  function ParseValue(toks: seq<Token>, reject: bool): (r: Parsed<Doc>)
    ensures r.Done? ==> |r.rest| < |toks|
    decreases |toks|, 0
  {
    if IsScalar(At(toks)) then Done(ScalarDoc(toks[0]), toks[1..])
    else if At(toks).LBrace? then
      if At(toks[1..]).RBrace? then Done(EMPTY_OBJECT, toks[2..])
      else ParseMembers(toks[1..], EMPTY_OBJECT, reject)
    else if At(toks).LBracket? then
      if At(toks[1..]).RBracket? then Done(Array([]), toks[2..])
      else
        var r := ParseItems(toks[1..], reject);
        if r.Fail? then Fail else Done(Array(r.result), r.rest)
    else Fail
  }

  /** The loop of `parse_array`. */
  function ParseItems(toks: seq<Token>, reject: bool): (r: Parsed<seq<Doc>>)
    ensures r.Done? ==> |r.rest| < |toks|
    decreases |toks|, 1
  {
    if At(toks).Eof? then Fail
    else
      var v := ParseValue(toks, reject);
      if v.Fail? then Fail
      else if At(v.rest).Comma? then
        var r := ParseItems(v.rest[1..], reject);
        if r.Fail? then Fail else Done([v.result] + r.result, r.rest)
      else if At(v.rest).RBracket? then Done([v.result], v.rest[1..])
      else Fail
  }

  /** The loop of `parse_object`, with the object filled so far. */
  function ParseMembers(toks: seq<Token>, obj: Doc, reject: bool): (r: Parsed<Doc>)
    requires obj.Object?
    ensures r.Done? ==> |r.rest| < |toks|
    decreases |toks|, 1
  {
    if !At(toks).String? then Fail
    else if reject && T.Get(obj.members, toks[0].s).Some? then Fail
    else if !At(toks[1..]).Colon? then Fail
    else
      var v := ParseValue(toks[2..], reject);
      if v.Fail? then Fail
      else
        var filled := SetMember(obj, toks[0].s, v.result);
        if At(v.rest).Comma? then ParseMembers(v.rest[1..], filled, reject)
        else if At(v.rest).RBrace? then Done(filled, v.rest[1..])
        else Fail
  }

  /** `parse_json`. */
  function ParseJson(toks: seq<Token>, reject: bool, disableEofCheck: bool): Option<Doc> {
    if !At(toks).LBracket? && !At(toks).LBrace? then None
    else
      var r := ParseValue(toks, reject);
      if r.Done? && (disableEofCheck || At(r.rest).Eof?) then Some(r.result) else None
  }

  // ---------------------------------------------------------------- the grammar

  /** A concrete syntax tree: fields keep their order and their repetitions. */
  datatype Tree = Leaf(token: Token) | Arr(items: seq<Tree>) | Obj(fields: seq<Field>)

  datatype Field = Field(key: Text, value: Tree)

  predicate Proper(t: Tree)
    decreases t, 1
  {
    match t
    case Leaf(token) => IsScalar(token)
    case Arr(items) => AllProper(items)
    case Obj(fields) => FieldsProper(fields)
  }

  predicate AllProper(items: seq<Tree>)
    decreases items, 0
  {
    items == [] || (Proper(items[0]) && AllProper(items[1..]))
  }

  predicate FieldsProper(fields: seq<Field>)
    decreases fields, 0
  {
    fields == [] || (Proper(fields[0].value) && FieldsProper(fields[1..]))
  }

  /** The tokens of a tree: items separated, never followed, by commas. */
  function Yield(t: Tree): (toks: seq<Token>)
    ensures |toks| > 0
    decreases t, 1
  {
    match t
    case Leaf(token) => [token]
    case Arr(items) => [LBracket] + YieldItems(items) + [RBracket]
    case Obj(fields) => [LBrace] + YieldFields(fields) + [RBrace]
  }

  function YieldItems(items: seq<Tree>): seq<Token>
    decreases items, 0
  {
    if items == [] then []
    else if |items| == 1 then Yield(items[0])
    else Yield(items[0]) + [Comma] + YieldItems(items[1..])
  }

  function YieldFields(fields: seq<Field>): seq<Token>
    decreases fields, 0
  {
    if fields == [] then []
    else
      assert fields[0].value < fields[0];
      var first := YieldField(fields[0]);
      if |fields| == 1 then first else first + [Comma] + YieldFields(fields[1..])
  }

  function YieldField(f: Field): (toks: seq<Token>)
    ensures |toks| > 2
    decreases f, 0
  {
    [String(f.key), Colon] + Yield(f.value)
  }

  /** The value a tree denotes: fields are set in turn, so a later field overrides an earlier one. */
  function Build(t: Tree): Doc
    requires Proper(t)
    decreases t, 1
  {
    match t
    case Leaf(token) => ScalarDoc(token)
    case Arr(items) => Array(BuildItems(items))
    case Obj(fields) => BuildFields(fields, EMPTY_OBJECT)
  }

  function BuildItems(items: seq<Tree>): (ds: seq<Doc>)
    requires AllProper(items)
    ensures |ds| == |items|
    decreases items, 0
  {
    if items == [] then [] else [Build(items[0])] + BuildItems(items[1..])
  }

  function BuildFields(fields: seq<Field>, obj: Doc): (d: Doc)
    requires FieldsProper(fields) && obj.Object?
    ensures d.Object?
    decreases fields, 0
  {
    if fields == [] then obj
    else BuildFields(fields[1..], SetMember(obj, fields[0].key, Build(fields[0].value)))
  }

  /** Some object of the tree repeats a key. */
  predicate Repeats(t: Tree)
    decreases t
  {
    match t
    case Leaf(_) => false
    case Arr(items) => exists i | 0 <= i < |items| :: Repeats(items[i])
    case Obj(fields) =>
      (exists i, j :: 0 <= i < j < |fields| && fields[i].key == fields[j].key) ||
      (exists i | 0 <= i < |fields| :: assert fields[i].value < fields[i]; Repeats(fields[i].value))
  }

  // ---------------------------------------------------------------- the syntax alone

  /** The tree of the longest value at the front of `toks`, and what follows it. */
  function ParseTree(toks: seq<Token>): (r: Parsed<Tree>)
    ensures r.Done? ==> |r.rest| < |toks|
    decreases |toks|, 0
  {
    if IsScalar(At(toks)) then Done(Leaf(toks[0]), toks[1..])
    else if At(toks).LBrace? then
      if At(toks[1..]).RBrace? then Done(Obj([]), toks[2..])
      else
        var r := TreeFields(toks[1..]);
        if r.Fail? then Fail else Done(Obj(r.result), r.rest)
    else if At(toks).LBracket? then
      if At(toks[1..]).RBracket? then Done(Arr([]), toks[2..])
      else
        var r := TreeItems(toks[1..]);
        if r.Fail? then Fail else Done(Arr(r.result), r.rest)
    else Fail
  }

  function TreeItems(toks: seq<Token>): (r: Parsed<seq<Tree>>)
    ensures r.Done? ==> |r.rest| < |toks| && r.result != []
    decreases |toks|, 1
  {
    var v := ParseTree(toks);
    if v.Fail? then Fail
    else if At(v.rest).Comma? then
      var r := TreeItems(v.rest[1..]);
      if r.Fail? then Fail else Done([v.result] + r.result, r.rest)
    else if At(v.rest).RBracket? then Done([v.result], v.rest[1..])
    else Fail
  }

  function TreeFields(toks: seq<Token>): (r: Parsed<seq<Field>>)
    ensures r.Done? ==> |r.rest| < |toks| && r.result != []
    decreases |toks|, 1
  {
    if !At(toks).String? || !At(toks[1..]).Colon? then Fail
    else
      var v := ParseTree(toks[2..]);
      if v.Fail? then Fail
      else
        var f := Field(toks[0].s, v.result);
        if At(v.rest).Comma? then
          var r := TreeFields(v.rest[1..]);
          if r.Fail? then Fail else Done([f] + r.result, r.rest)
        else if At(v.rest).RBrace? then Done([f], v.rest[1..])
        else Fail
  }

  /** Whatever is recognised is the yield of a proper tree. */
  lemma {:induction false} TreeSound(toks: seq<Token>)
    requires ParseTree(toks).Done?
    ensures var p := ParseTree(toks); Proper(p.result) && toks == Yield(p.result) + p.rest
    decreases |toks|, 0
  {
    hide TreeFields, TreeItems;
    if At(toks).LBrace? && !At(toks[1..]).RBrace? {
      FieldsSound(toks[1..]);
    } else if At(toks).LBracket? && !At(toks[1..]).RBracket? {
      ItemsSound(toks[1..]);
    }
  }

  lemma {:induction false} ItemsSound(toks: seq<Token>)
    requires TreeItems(toks).Done?
    ensures var p := TreeItems(toks); AllProper(p.result) && toks == YieldItems(p.result) + [RBracket] + p.rest
    decreases |toks|, 1
  {
    var v := ParseTree(toks);
    TreeSound(toks);
    if At(v.rest).Comma? {
      ItemsSound(v.rest[1..]);
      var r := TreeItems(v.rest[1..]);
      ItemsJoined(toks, v.result, v.rest, r.result, r.rest);
    } else {
      assert v.rest == [RBracket] + v.rest[1..];
    }
  }

  lemma {:induction false} ItemsJoined(toks: seq<Token>, t: Tree, after: seq<Token>, items: seq<Tree>, rest: seq<Token>)
    requires toks == Yield(t) + after && At(after).Comma? && Proper(t) && AllProper(items) && items != []
    requires after[1..] == YieldItems(items) + [RBracket] + rest
    ensures AllProper([t] + items) && toks == YieldItems([t] + items) + [RBracket] + rest
  {
    hide Yield, YieldItems;
    ItemsCons(t, items);
    assert ([t] + items)[1..] == items;
    var a, b, c := Yield(t), YieldItems(items), [RBracket] + rest;
    assert after == [Comma] + (b + c);
    assert a + ([Comma] + (b + c)) == a + [Comma] + b + c;
  }

  lemma {:induction false} ItemsCons(t: Tree, items: seq<Tree>)
    requires items != []
    ensures YieldItems([t] + items) == Yield(t) + [Comma] + YieldItems(items)
  {
    assert ([t] + items)[1..] == items;
  }

  lemma {:induction false} FieldsSound(toks: seq<Token>)
    requires TreeFields(toks).Done?
    ensures var p := TreeFields(toks); FieldsProper(p.result) && toks == YieldFields(p.result) + [RBrace] + p.rest
    decreases |toks|, 1
  {
    var v := ParseTree(toks[2..]);
    var f := Field(toks[0].s, v.result);
    TreeSound(toks[2..]);
    FieldJoined(toks, f, v.rest);
    if At(v.rest).Comma? {
      FieldsSound(v.rest[1..]);
      var r := TreeFields(v.rest[1..]);
      FieldsJoined(toks, f, v.rest, r.result, r.rest);
    } else {
      FieldsClosed(toks, f, v.rest);
    }
  }

  lemma {:induction false} FieldsClosed(toks: seq<Token>, f: Field, rest: seq<Token>)
    requires toks == YieldField(f) + rest && At(rest).RBrace? && Proper(f.value)
    ensures FieldsProper([f]) && toks == YieldFields([f]) + [RBrace] + rest[1..]
  {
    hide Yield, YieldField;
    assert rest == [RBrace] + rest[1..];
  }

  lemma {:induction false} FieldsJoined(toks: seq<Token>, f: Field, after: seq<Token>, fields: seq<Field>,
          rest: seq<Token>)
    requires toks == YieldField(f) + after && At(after).Comma? && Proper(f.value) && FieldsProper(fields) &&
              fields != []
    requires after[1..] == YieldFields(fields) + [RBrace] + rest
    ensures FieldsProper([f] + fields) && toks == YieldFields([f] + fields) + [RBrace] + rest
  {
    hide Yield, YieldField, YieldFields;
    FieldsCons(f, fields);
    assert ([f] + fields)[1..] == fields;
    var a, b, c := YieldField(f), YieldFields(fields), [RBrace] + rest;
    assert after == [Comma] + (b + c);
    assert a + ([Comma] + (b + c)) == a + [Comma] + b + c;
  }

  lemma {:induction false} FieldJoined(toks: seq<Token>, f: Field, rest: seq<Token>)
    requires |toks| >= 2 && toks[0] == String(f.key) && toks[1] == Colon && toks[2..] == Yield(f.value) + rest
    ensures toks == YieldField(f) + rest
  {
    assert toks == [toks[0], toks[1]] + toks[2..];
  }

  lemma {:induction false} FieldsCons(f: Field, fields: seq<Field>)
    requires fields != []
    ensures YieldFields([f] + fields) == YieldField(f) + [Comma] + YieldFields(fields)
  {
    assert ([f] + fields)[1..] == fields;
  }

  /** Every yield of a proper tree is recognised, whatever follows: trees are unambiguous. */
  lemma {:induction false} TreeComplete(t: Tree, rest: seq<Token>)
    requires Proper(t)
    ensures ParseTree(Yield(t) + rest) == Done(t, rest)
    decreases t, 1
  {
    var toks := Yield(t) + rest;
    match t
    case Leaf(_) =>
      assert toks[1..] == rest;
    case Arr(items) =>
      if items == [] {
        assert YieldItems(items) == [];
        assert toks == [LBracket] + ([RBracket] + rest);
        assert toks[2..] == rest;
      } else {
        assert toks[1..] == YieldItems(items) + ([RBracket] + rest);
        YieldItemsStarts(items, [RBracket] + rest);
        ItemsComplete(items, rest);
      }
    case Obj(fields) =>
      if fields == [] {
        assert YieldFields(fields) == [];
        assert toks == [LBrace] + ([RBrace] + rest);
        assert toks[2..] == rest;
      } else {
        assert toks[1..] == YieldFields(fields) + ([RBrace] + rest);
        FieldsComplete(fields, rest);
      }
  }

  /** No proper tree starts with a closing bracket. */
  lemma {:induction false} YieldItemsStarts(items: seq<Tree>, rest: seq<Token>)
    requires items != [] && Proper(items[0])
    ensures !At(YieldItems(items) + rest).RBracket?
  {
    assert At(YieldItems(items) + rest) == Yield(items[0])[0];
  }

  lemma {:induction false} ItemsComplete(items: seq<Tree>, rest: seq<Token>)
    requires items != [] && AllProper(items)
    ensures TreeItems(YieldItems(items) + ([RBracket] + rest)) == Done(items, rest)
    decreases items, 0
  {
    hide Yield;
    var toks := YieldItems(items) + ([RBracket] + rest);
    if |items| == 1 {
      TreeComplete(items[0], [RBracket] + rest);
      assert ([RBracket] + rest)[1..] == rest;
      assert items == [items[0]];
    } else {
      var more := YieldItems(items[1..]) + ([RBracket] + rest);
      assert toks == Yield(items[0]) + ([Comma] + more);
      TreeComplete(items[0], [Comma] + more);
      assert ([Comma] + more)[1..] == more;
      ItemsComplete(items[1..], rest);
      assert items == [items[0]] + items[1..];
    }
  }

  lemma {:induction false} FieldsComplete(fields: seq<Field>, rest: seq<Token>)
    requires fields != [] && FieldsProper(fields)
    ensures TreeFields(YieldFields(fields) + ([RBrace] + rest)) == Done(fields, rest)
    decreases fields, 0
  {
    hide Yield, YieldField;
    var toks := YieldFields(fields) + ([RBrace] + rest);
    assert fields[0].value < fields[0];
    if |fields| == 1 {
      FieldStart(fields[0], [RBrace] + rest);
      TreeComplete(fields[0].value, [RBrace] + rest);
      assert ([RBrace] + rest)[1..] == rest;
      assert fields == [fields[0]];
    } else {
      var more := YieldFields(fields[1..]) + ([RBrace] + rest);
      assert toks == YieldField(fields[0]) + ([Comma] + more);
      FieldStart(fields[0], [Comma] + more);
      TreeComplete(fields[0].value, [Comma] + more);
      assert ([Comma] + more)[1..] == more;
      FieldsComplete(fields[1..], rest);
      assert fields == [fields[0]] + fields[1..];
    }
  }

  lemma {:induction false} FieldStart(f: Field, rest: seq<Token>)
    ensures var toks := YieldField(f) + rest;
            At(toks) == String(f.key) && At(toks[1..]).Colon? && toks[2..] == Yield(f.value) + rest
  {
  }

  // ---------------------------------------------------------------- parsing is recognising, then building

  /** Setting the fields in turn meets a key that is already present, or some field repeats a key itself. */
  predicate Clashes(fields: seq<Field>, obj: Doc)
    requires FieldsProper(fields) && obj.Object?
    decreases fields
  {
    fields != [] &&
    (T.Get(obj.members, fields[0].key).Some? || Repeats(fields[0].value) ||
     Clashes(fields[1..], SetMember(obj, fields[0].key, Build(fields[0].value))))
  }

  predicate AnyRepeats(items: seq<Tree>)
  {
    exists i | 0 <= i < |items| :: Repeats(items[i])
  }

  lemma {:induction false} AnyRepeatsCons(t: Tree, items: seq<Tree>)
    ensures AnyRepeats([t] + items) <==> Repeats(t) || AnyRepeats(items)
  {
    var all := [t] + items;
    if Repeats(t) {
      assert Repeats(all[0]);
    }
    if AnyRepeats(items) {
      var i :| 0 <= i < |items| && Repeats(items[i]);
      assert Repeats(all[i + 1]);
    }
    if AnyRepeats(all) {
      var i :| 0 <= i < |all| && Repeats(all[i]);
      assert i > 0 ==> all[i] == items[i - 1];
    }
  }

  ghost predicate ValidObject(d: Doc) {
    d.Object? && T.Valid(HashStr, d.members)
  }

  /**
   The parser accepts a value exactly when its syntax is recognised and no rejected key repeats, and builds
   its tree's value.
   */
  lemma {:induction false} ParseValueIsBuild(toks: seq<Token>, reject: bool)
    ensures var p := ParseTree(toks);
            if p.Done? && !(reject && Repeats(p.result))
            then Proper(p.result) && ParseValue(toks, reject) == Done(Build(p.result), p.rest)
            else ParseValue(toks, reject) == Fail
    decreases |toks|, 0
  {
    var p := ParseTree(toks);
    if p.Done? {
      TreeSound(toks);
    }
    if At(toks).LBrace? {
      if At(toks[1..]).RBrace? {
        assert !Repeats(Obj([]));
      } else {
        EmptyIsValid();
        ParseMembersIsBuild(toks[1..], EMPTY_OBJECT, reject);
        var r := TreeFields(toks[1..]);
        if r.Done? {
          FieldsSound(toks[1..]);
          ClashesIsRepeats(r.result);
        }
      }
    } else if At(toks).LBracket? {
      if At(toks[1..]).RBracket? {
        assert !Repeats(Arr([]));
      } else {
        ParseItemsIsBuild(toks[1..], reject);
        var r := TreeItems(toks[1..]);
        assert r.Done? ==> (Repeats(Arr(r.result)) <==> AnyRepeats(r.result));
      }
    }
  }

  lemma {:induction false} BuildOne(t: Tree)
    requires Proper(t)
    ensures AllProper([t]) && BuildItems([t]) == [Build(t)]
  {
    assert [t][1..] == [];
    assert BuildItems([t][1..]) == [];
  }

  lemma {:induction false} ParseItemsIsBuild(toks: seq<Token>, reject: bool)
    ensures var p := TreeItems(toks);
            if p.Done? && !(reject && AnyRepeats(p.result))
            then AllProper(p.result) && ParseItems(toks, reject) == Done(BuildItems(p.result), p.rest)
            else ParseItems(toks, reject) == Fail
    decreases |toks|, 1
  {
    hide Yield, Repeats;
    ParseValueIsBuild(toks, reject);
    var v := ParseTree(toks);
    if v.Done? {
      TreeSound(toks);
    }
    if v.Done? && At(v.rest).Comma? {
      ParseItemsIsBuild(v.rest[1..], reject);
      var r := TreeItems(v.rest[1..]);
      if r.Done? {
        AnyRepeatsCons(v.result, r.result);
        assert ([v.result] + r.result)[1..] == r.result;
      }
    } else if v.Done? {
      AnyRepeatsCons(v.result, []);
      assert [v.result] + [] == [v.result];
      BuildOne(v.result);
    }
  }

  lemma {:induction false} ParseMembersIsBuild(toks: seq<Token>, obj: Doc, reject: bool)
    requires ValidObject(obj)
    ensures TreeFields(toks).Done? ==> FieldsProper(TreeFields(toks).result)
    ensures var p := TreeFields(toks);
            if p.Done? && !(reject && Clashes(p.result, obj))
            then ParseMembers(toks, obj, reject) == Done(BuildFields(p.result, obj), p.rest)
            else ParseMembers(toks, obj, reject) == Fail
    decreases |toks|, 1
  {
    hide T.Get, T.Set, SetMember, Yield, YieldFields, Repeats;
    if TreeFields(toks).Done? {
      FieldsSound(toks);
    }
    if At(toks).String? && At(toks[1..]).Colon? {
      ParseValueIsBuild(toks[2..], reject);
      var v := ParseTree(toks[2..]);
      if v.Done? {
        TreeSound(toks[2..]);
        var f := Field(toks[0].s, v.result);
        var filled := SetMember(obj, f.key, Build(f.value));
        SetMemberValid(obj, f.key, Build(f.value));
        if At(v.rest).Comma? {
          ParseMembersIsBuild(v.rest[1..], filled, reject);
          var r := TreeFields(v.rest[1..]);
          if r.Done? {
            assert ([f] + r.result)[1..] == r.result;
          }
        } else {
          assert [f][1..] == [];
          assert !Clashes([f][1..], filled) && BuildFields([f][1..], filled) == filled;
        }
      }
    }
  }

  lemma {:induction false} EmptyIsValid()
    ensures ValidObject(EMPTY_OBJECT)
  {
  }

  lemma {:induction false} SetMemberValid(obj: Doc, key: Text, value: Doc)
    requires ValidObject(obj)
    ensures ValidObject(SetMember(obj, key, value))
    ensures forall k :: T.Get(SetMember(obj, key, value).members, k).Some? <==> k == key || T.Get(obj.members, k).Some?
  {
    T.SetIsUpdate(HashStr, obj.members, key, obj.serial, value);
    var r := SetMember(obj, key, value);
    forall k ensures T.Get(r.members, k).Some? <==> k == key || T.Get(obj.members, k).Some? {
      T.GetIsLookup(obj.members, k);
      T.GetIsLookup(r.members, k);
    }
  }

  /** Two of the fields share a key, or one has a key in `obj`, or one repeats a key inside. */
  ghost predicate Meets(fields: seq<Field>, obj: Doc)
    requires obj.Object?
  {
    || (exists i, j :: 0 <= i < j < |fields| && fields[i].key == fields[j].key)
    || (exists i :: 0 <= i < |fields| && (T.Get(obj.members, fields[i].key).Some? || Repeats(fields[i].value)))
  }

  lemma {:induction false} ClashesIsMeets(fields: seq<Field>, obj: Doc)
    requires FieldsProper(fields) && ValidObject(obj)
    ensures Clashes(fields, obj) <==> Meets(fields, obj)
    decreases |fields|
  {
    if fields != [] {
      var f, rest := fields[0], fields[1..];
      var filled := SetMember(obj, f.key, Build(f.value));
      SetMemberValid(obj, f.key, Build(f.value));
      ClashesIsMeets(rest, filled);
      MeetsCons(fields, obj, filled);
    }
  }

  lemma {:induction false} MeetsCons(fields: seq<Field>, obj: Doc, filled: Doc)
    requires fields != [] && obj.Object? && filled.Object?
    requires forall k :: T.Get(filled.members, k).Some? <==> k == fields[0].key || T.Get(obj.members, k).Some?
    ensures Meets(fields, obj) <==>
            T.Get(obj.members, fields[0].key).Some? || Repeats(fields[0].value) || Meets(fields[1..], filled)
  {
    var rest := fields[1..];
    if Meets(fields, obj) && !(T.Get(obj.members, fields[0].key).Some? || Repeats(fields[0].value)) {
      if i, j :| 0 <= i < j < |fields| && fields[i].key == fields[j].key {
        assert rest[j - 1] == fields[j];
        assert i > 0 ==> rest[i - 1] == fields[i];
      } else {
        var i :| 0 <= i < |fields| && (T.Get(obj.members, fields[i].key).Some? || Repeats(fields[i].value));
        assert rest[i - 1] == fields[i];
      }
    }
    if Meets(rest, filled) {
      if i, j :| 0 <= i < j < |rest| && rest[i].key == rest[j].key {
        assert fields[i + 1] == rest[i] && fields[j + 1] == rest[j];
      } else {
        var i :| 0 <= i < |rest| && (T.Get(filled.members, rest[i].key).Some? || Repeats(rest[i].value));
        assert fields[i + 1] == rest[i];
        assert rest[i].key == fields[0].key ==> fields[0].key == fields[i + 1].key;
      }
    }
  }

  lemma {:induction false} ClashesIsRepeats(fields: seq<Field>)
    requires FieldsProper(fields)
    ensures Clashes(fields, EMPTY_OBJECT) <==> Repeats(Obj(fields))
  {
    EmptyIsValid();
    ClashesIsMeets(fields, EMPTY_OBJECT);
    assert forall k: Text :: T.Get(EMPTY_OBJECT.members, k).None?;
  }

  // ---------------------------------------------------------------- the parser decides the grammar

  /** `toks` starts with the tokens of `t`, and continues with `rest`. */
  ghost predicate Reads(toks: seq<Token>, t: Tree, rest: seq<Token>) {
    Proper(t) && toks == Yield(t) + rest
  }

  ghost predicate Container(t: Tree) { !t.Leaf? }

  /**
   `parse_json` accepts exactly the arrays and objects of the grammar, followed by the end of the input
   unless that check is disabled; with duplicates rejected, exactly those without a repeated key.  The
   result is what the one possible tree denotes.
   */
  lemma {:induction false} ParserDecidesGrammar(toks: seq<Token>, reject: bool, disableEofCheck: bool)
    ensures ParseJson(toks, reject, disableEofCheck).Some? <==>
            exists t: Tree, rest: seq<Token> ::
              Reads(toks, t, rest) && Container(t) && (disableEofCheck || At(rest).Eof?) && !(reject && Repeats(t))
    ensures forall t: Tree, rest: seq<Token> {:trigger Reads(toks, t, rest)} ::
              Reads(toks, t, rest) && ParseJson(toks, reject, disableEofCheck).Some? ==>
              ParseJson(toks, reject, disableEofCheck) == Some(Build(t))
    ensures forall t: Tree, u: Tree, r: seq<Token>, s: seq<Token> ::
              Reads(toks, t, r) && Reads(toks, u, s) ==> t == u && r == s
  {
    ParseValueIsBuild(toks, reject);
    forall t: Tree, rest: seq<Token> | Reads(toks, t, rest) ensures ParseTree(toks) == Done(t, rest) {
      TreeComplete(t, rest);
    }
    var p := ParseTree(toks);
    if p.Done? {
      TreeSound(toks);
      assert Reads(toks, p.result, p.rest);
      RootKind(toks, p.result, p.rest);
    }
  }

  /** The first token tells a container from a scalar. */
  lemma {:induction false} RootKind(toks: seq<Token>, t: Tree, rest: seq<Token>)
    requires Reads(toks, t, rest)
    ensures Container(t) <==> At(toks).LBracket? || At(toks).LBrace?
  {
    assert toks[0] == Yield(t)[0];
  }
}
