/** What the stream of `load.c` delivers of its input, and what it reports behind it. */
module Input {
  import opened Bytes
  import opened Tokens
  import Utf8

  function Deliverable(s: Text): (p: Text)
    ensures p <= s
  {
    var n := Utf8.UnitLength(s);
    if n == 0 then []
    else
      assert s == s[..n] + s[n..];
      s[..n] + Deliverable(s[n..])
  }

  /** The end of the input, or a byte sequence that encodes no code point. */
  function EndOf(s: Text): End {
    var n := Utf8.UnitLength(s);
    if n > 0 then EndOf(s[n..]) else if s == [] then AtEof else AtError
  }

  lemma {:induction false} DeliverableStep(s: Text)
    requires Utf8.UnitLength(s) > 0
    ensures var n := Utf8.UnitLength(s);
            n <= |Deliverable(s)| && Deliverable(s)[..n] == s[..n] && Deliverable(s)[n..] == Deliverable(s[n..])
  {
    hide Utf8.UnitLength;
  }

  /** What is delivered starts with the first code point of the input. */
  lemma UnitDelivered(s: Text)
    requires Utf8.UnitLength(s) > 0
    ensures Utf8.UnitLength(Deliverable(s)) == Utf8.UnitLength(s)
    ensures Utf8.Valid(Deliverable(s)) <==> Utf8.Valid(Deliverable(s[Utf8.UnitLength(s)..]))
  {
    hide Utf8.UnitLength, Utf8.UnitValue, Utf8.Encoded, Deliverable;
    DeliverableStep(s);
    Utf8.UnitIsEncoded(s);
    Utf8.UnitOfEncoded(Utf8.UnitValue(s), Deliverable(s));
  }

  /** All of a text of valid UTF-8 is delivered, and of any other text the longest valid prefix. */
  lemma {:induction false} LongestValidPrefix(s: Text, p: Text)
    requires p <= s && Utf8.Valid(p)
    ensures p <= Deliverable(s) && Utf8.Valid(Deliverable(s))
    decreases |s|
  {
    hide Utf8.UnitLength;
    var n := Utf8.UnitLength(s);
    if n > 0 {
      UnitDelivered(s);
      DeliverableStep(s);
      if p != [] {
        PrefixUnit(s, p);
        assert p[n..] <= s[n..];
        LongestValidPrefix(s[n..], p[n..]);
        PrefixJoins(p, Deliverable(s), n);
      } else {
        LongestValidPrefix(s[n..], []);
      }
    } else if p != [] {
      PrefixUnit(s, p);
    }
  }

  lemma PrefixJoins(p: Text, t: Text, n: nat)
    requires n <= |p| && n <= |t| && p[..n] == t[..n] && p[n..] <= t[n..]
    ensures p <= t
  {
    assert p == p[..n] + p[n..] && t == t[..n] + t[n..];
  }

  /** A non-empty valid prefix starts with the same code point. */
  lemma PrefixUnit(s: Text, p: Text)
    requires p <= s && p != [] && Utf8.Valid(p)
    ensures Utf8.UnitLength(s) == Utf8.UnitLength(p) > 0
  {
    hide Utf8.UnitLength, Utf8.UnitValue, Utf8.Encoded;
    Utf8.UnitIsEncoded(p);
    Utf8.UnitOfEncoded(Utf8.UnitValue(p), s);
  }

  lemma {:induction false} EndIsEofExactly(s: Text)
    ensures EndOf(s) == AtEof <==> Utf8.Valid(s)
    ensures Utf8.Valid(s) ==> Deliverable(s) == s
  {
    hide Utf8.UnitLength;
    var n := Utf8.UnitLength(s);
    if n > 0 {
      EndIsEofExactly(s[n..]);
      assert s == s[..n] + s[n..];
    }
  }
}
