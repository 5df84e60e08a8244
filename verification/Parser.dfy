/** The recursive-descent parser of `load.c` on its lexer; `Grammar.ParseJson` is what it computes. */
module Parser {
  import opened Bytes
  import opened Json
  import G = Grammar
  import I = Input
  import K = Tokens
  import L = Lexer
  import Loading
  import S = Streams
  import T = Tables

  /** The tokens from the current one on. */
  ghost function Pending(lex: L.Lex): seq<G.Token>
    requires lex.Valid()
    reads lex, lex.stream, lex.stream.buffer, lex.saved, lex.saved.value
  {
    if lex.token.Eof? then []
    else if lex.token.Invalid? || lex.token.Aborted? then [lex.token]
    else [lex.token] + Upcoming(lex)
  }

  /** The tokens behind the current one. */
  ghost function Upcoming(lex: L.Lex): seq<G.Token>
    requires lex.Valid()
    reads lex.stream, lex.stream.buffer, lex.saved, lex.saved.value
  {
    K.Tokenize(lex.stream.Rest(), lex.stream.Ending())
  }

  /** The current token is the first of `toks`. */
  ghost predicate On(lex: L.Lex, toks: seq<G.Token>)
    reads lex, lex.stream, lex.stream.buffer, lex.saved, lex.saved.value
  {
    && lex.Valid() && Pending(lex) == toks && lex.token == G.At(toks)
    && (Fine(lex.token) ==> Upcoming(lex) == toks[1..])
  }

  /** The current token has been taken, and `toks` are to come. */
  ghost predicate Behind(lex: L.Lex, toks: seq<G.Token>)
    reads lex.stream, lex.stream.buffer, lex.saved, lex.saved.value
  {
    lex.Valid() && Upcoming(lex) == toks
  }

  predicate Fine(t: G.Token) {
    !t.Eof? && !t.Invalid? && !t.Aborted?
  }

  lemma OnIs(lex: L.Lex, toks: seq<G.Token>)
    requires On(lex, toks)
    ensures lex.token == G.At(toks)
    ensures Fine(lex.token) ==> toks != [] && Behind(lex, toks[1..])
  {
  }

  /** `lex_scan`: the next token becomes the current one. */
  method Advance(lex: L.Lex, ghost toks: seq<G.Token>)
    requires Behind(lex, toks)
    modifies lex, lex.stream, lex.stream.buffer, lex.saved, lex.saved.value
    ensures (lex.saved.value == old(lex.saved.value) || fresh(lex.saved.value))
    ensures On(lex, toks) && lex.token == G.At(toks) && (Fine(lex.token) ==> toks != [] && Behind(lex, toks[1..]))
  {
    hide K.Scan, I.Deliverable, I.EndOf, S.Newlines, S.Column;
    lex.Scan();
  }

  /** What a parse of `toks` must come to: nothing when it fails, else its value and the tokens behind it. */
  ghost predicate Agrees<R>(lex: L.Lex, r: Option<R>, p: G.Parsed<R>)
    reads lex.stream, lex.stream.buffer, lex.saved, lex.saved.value
  {
    if p.Fail? then r.None? else r == Some(p.result) && Behind(lex, p.rest)
  }

  /** `parse_value` at the current token. */
  method ParseValue(lex: L.Lex, reject: bool, ghost toks: seq<G.Token>) returns (r: Option<Doc>)
    requires On(lex, toks)
    modifies lex, lex.stream, lex.stream.buffer, lex.saved, lex.saved.value
    ensures (lex.saved.value == old(lex.saved.value) || fresh(lex.saved.value)) &&
              Agrees(lex, r, G.ParseValue(toks, reject))
    decreases |toks|, 1
  {
    hide On, Behind, G.ParseMembers, G.ParseItems;
    OnIs(lex, toks);
    match lex.token
    case String(s) => r := Some(Doc.Str(s));
    case Integer(n) => r := Some(Doc.Integer(n));
    case Real(x) => r := Some(Doc.Real(x));
    case True => r := Some(Doc.True);
    case False => r := Some(Doc.False);
    case Null => r := Some(Doc.Null);
    case LBrace => r := ParseObject(lex, reject, toks);
    case LBracket => r := ParseArray(lex, reject, toks);
    case _ => r := None;
  }

  /** `parse_array`, with the opening bracket as the current token. */
  method ParseArray(lex: L.Lex, reject: bool, ghost toks: seq<G.Token>) returns (r: Option<Doc>)
    requires On(lex, toks) && lex.token.LBracket?
    modifies lex, lex.stream, lex.stream.buffer, lex.saved, lex.saved.value
    ensures (lex.saved.value == old(lex.saved.value) || fresh(lex.saved.value)) &&
              Agrees(lex, r, G.ParseValue(toks, reject))
    decreases |toks|, 0
  {
    hide On, Behind, G.ParseValue, G.ParseItems;
    OnIs(lex, toks);
    ArrayParsed(toks, reject);
    var items: seq<Doc> := [];
    ghost var rest := toks[1..];
    Advance(lex, rest);
    if lex.token.RBracket? {
      return Some(Array(items));
    }
    ItemsSoFar0(G.ParseItems(rest, reject));
    while !lex.token.Eof?
      invariant On(lex, rest) && |rest| < |toks| && lex.token == G.At(rest)
      invariant lex.saved.value == old(lex.saved.value) || fresh(lex.saved.value)
      invariant G.ParseItems(toks[1..], reject) == ItemsSoFar(items, G.ParseItems(rest, reject))
      decreases |rest|
    {
      ItemsStep(items, rest, reject);
      ghost var p := G.ParseValue(rest, reject);
      var elem := ParseValue(lex, reject, rest);
      if elem.None? {
        return None;
      }
      items := items + [elem.value];
      rest := p.rest;
      Advance(lex, rest);
      if !lex.token.Comma? {
        if !lex.token.RBracket? {
          return None;
        }
        return Some(Array(items));
      }
      rest := rest[1..];
      Advance(lex, rest);
    }
    ItemsStep(items, rest, reject);
    return None;
  }

  /** The items collected so far go in front. */
  ghost function ItemsSoFar(items: seq<Doc>, p: G.Parsed<seq<Doc>>): G.Parsed<seq<Doc>> {
    if p.Fail? then p else G.Done(items + p.result, p.rest)
  }

  lemma ItemsSoFar0(p: G.Parsed<seq<Doc>>)
    ensures ItemsSoFar([], p) == p
  {
    assert p.Done? ==> [] + p.result == p.result;
  }

  /** One round of the loop of `parse_array`. */
  lemma ItemsStep(items: seq<Doc>, toks: seq<G.Token>, reject: bool)
    ensures var p := G.ParseValue(toks, reject);
            var q := ItemsSoFar(items, G.ParseItems(toks, reject));
            if G.At(toks).Eof? || p.Fail? then q.Fail?
            else if G.At(p.rest).Comma? then
              p.rest != [] && q == ItemsSoFar(items + [p.result], G.ParseItems(p.rest[1..], reject))
            else if G.At(p.rest).RBracket? then q == G.Done(items + [p.result], p.rest[1..])
            else q.Fail?
  {
    hide G.ParseValue;
    var p := G.ParseValue(toks, reject);
    if p.Done? && G.At(p.rest).Comma? {
      var r := G.ParseItems(p.rest[1..], reject);
      if r.Done? {
        assert items + ([p.result] + r.result) == items + [p.result] + r.result;
      }
    }
  }

  /** One member: what the loop of `parse_object` comes to up to the comma or the closing brace. */
  ghost function Member(toks: seq<G.Token>, obj: Doc, reject: bool): (r: G.Parsed<Doc>)
    requires obj.Object?
    ensures r.Done? ==> |r.rest| < |toks| && r.result.Object?
  {
    if !G.At(toks).String? then G.Fail
    else if reject && T.Get(obj.members, toks[0].s).Some? then G.Fail
    else if !G.At(toks[1..]).Colon? then G.Fail
    else
      var p := G.ParseValue(toks[2..], reject);
      if p.Fail? then G.Fail else G.Done(SetMember(obj, toks[0].s, p.result), p.rest)
  }

  /** The first half of a round in the loop of `parse_object`. */
  method ParseMember(lex: L.Lex, reject: bool, obj: Doc, ghost toks: seq<G.Token>) returns (r: Option<Doc>)
    requires On(lex, toks) && obj.Object?
    modifies lex, lex.stream, lex.stream.buffer, lex.saved, lex.saved.value
    ensures (lex.saved.value == old(lex.saved.value) || fresh(lex.saved.value)) &&
              Agrees(lex, r, Member(toks, obj, reject))
    decreases |toks|, 0
  {
    hide On, Behind, G.ParseValue, SetMember, T.Get, T.Set;
    OnIs(lex, toks);
    if !lex.token.String? {
      return None;
    }
    var key := lex.token.s;
    if reject && T.Get(obj.members, key).Some? {
      return None;
    }
    Advance(lex, toks[1..]);
    if !lex.token.Colon? {
      return None;
    }
    assert toks[1..][1..] == toks[2..];
    Advance(lex, toks[2..]);
    var value := ParseValue(lex, reject, toks[2..]);
    if value.None? {
      return None;
    }
    return Some(SetMember(obj, key, value.value));
  }

  /** `parse_object`, with the opening brace as the current token. */
  method ParseObject(lex: L.Lex, reject: bool, ghost toks: seq<G.Token>) returns (r: Option<Doc>)
    requires On(lex, toks) && lex.token.LBrace?
    modifies lex, lex.stream, lex.stream.buffer, lex.saved, lex.saved.value
    ensures (lex.saved.value == old(lex.saved.value) || fresh(lex.saved.value)) &&
              Agrees(lex, r, G.ParseValue(toks, reject))
    decreases |toks|, 0
  {
    hide On, Behind, G.ParseValue, G.ParseMembers, Member;
    OnIs(lex, toks);
    ObjectParsed(toks, reject);
    var obj := EMPTY_OBJECT;
    ghost var rest := toks[1..];
    Advance(lex, rest);
    if lex.token.RBrace? {
      return Some(obj);
    }
    while true
      invariant On(lex, rest) && |rest| < |toks| && obj.Object?
      invariant lex.saved.value == old(lex.saved.value) || fresh(lex.saved.value)
      invariant G.ParseMembers(toks[1..], EMPTY_OBJECT, reject) == G.ParseMembers(rest, obj, reject)
      decreases |rest|
    {
      MembersStep(obj, rest, reject);
      ghost var p := Member(rest, obj, reject);
      var filled := ParseMember(lex, reject, obj, rest);
      if filled.None? {
        return None;
      }
      obj, rest := filled.value, p.rest;
      Advance(lex, rest);
      if !lex.token.Comma? {
        break;
      }
      rest := rest[1..];
      Advance(lex, rest);
    }
    if !lex.token.RBrace? {
      return None;
    }
    return Some(obj);
  }

  lemma ObjectParsed(toks: seq<G.Token>, reject: bool)
    requires G.At(toks).LBrace?
    ensures toks != []
    ensures G.ParseValue(toks, reject) ==
              if G.At(toks[1..]).RBrace? then G.Done(EMPTY_OBJECT, toks[1..][1..])
              else G.ParseMembers(toks[1..], EMPTY_OBJECT, reject)
  {
    hide G.ParseMembers;
    if G.At(toks[1..]).RBrace? {
      assert toks[1..][1..] == toks[2..];
    }
  }

  lemma ArrayParsed(toks: seq<G.Token>, reject: bool)
    requires G.At(toks).LBracket?
    ensures toks != []
    ensures G.ParseValue(toks, reject) ==
              if G.At(toks[1..]).RBracket? then G.Done(Array([]), toks[1..][1..])
              else
                var r := G.ParseItems(toks[1..], reject);
                if r.Fail? then G.Fail else G.Done(Array(r.result), r.rest)
  {
    hide G.ParseItems;
    if G.At(toks[1..]).RBracket? {
      assert toks[1..][1..] == toks[2..];
    }
  }

  /** One round of the loop of `parse_object`. */
  lemma MembersStep(obj: Doc, toks: seq<G.Token>, reject: bool)
    requires obj.Object?
    ensures var p, q := Member(toks, obj, reject), G.ParseMembers(toks, obj, reject);
            if p.Fail? then q.Fail?
            else if G.At(p.rest).Comma? then q == G.ParseMembers(p.rest[1..], p.result, reject)
            else if G.At(p.rest).RBrace? then q == G.Done(p.result, p.rest[1..])
            else q.Fail?
  {
    hide G.ParseValue, T.Get, SetMember;
  }

  /** `parse_json`. */
  method ParseJson(lex: L.Lex, reject: bool, disableEofCheck: bool, ghost toks: seq<G.Token>) returns (r: Option<Doc>)
    requires Behind(lex, toks)
    modifies lex, lex.stream, lex.stream.buffer, lex.saved, lex.saved.value
    ensures r == G.ParseJson(toks, reject, disableEofCheck)
  {
    hide On, Behind, G.ParseValue;
    Advance(lex, toks);
    if !lex.token.LBracket? && !lex.token.LBrace? {
      return None;
    }
    r := ParseValue(lex, reject, toks);
    if r.None? {
      return None;
    }
    if !disableEofCheck {
      Advance(lex, G.ParseValue(toks, reject).rest);
      if !lex.token.Eof? {
        return None;
      }
    }
  }

  /**
   `json_loads`: the result is a function of the bytes alone, and by `Loading.DocumentRoundTrip` it
   undoes `json_dumps`.
   */
  method JsonLoads(text: CString, reject: bool, disableEofCheck: bool) returns (r: Option<Doc>)
    requires |text| <= INT_MAX
    ensures r == Loading.Loads(text, reject, disableEofCheck)
  {
    hide G.ParseJson, I.Deliverable, I.EndOf, S.Newlines, S.Column, K.Tokenize;
    var lex := new L.Lex(text);
    r := ParseJson(lex, reject, disableEofCheck, K.Tokenize(I.Deliverable(text), I.EndOf(text)));
  }
}
