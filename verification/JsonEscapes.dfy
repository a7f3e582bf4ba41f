// What the canonical printer escapes in strings and keys, and how: one unit at a time, and
// pieces of a string independently unless the cut parts a surrogate pair.

module JsonEscapes {
  import opened Text
  import opened CanonicalJson
  import opened JsonParser
  import opened JsonIdentity

  const SHORT_ESCAPES: map<Unit, Unit> :=
    map[0x08 := 0x62, 0x09 := 0x74, 0x0A := 0x6E, 0x0C := 0x66, 0x0D := 0x72, 0x22 := 0x22, 0x5C := 0x5C]

  /**
   * Quotes, backslashes and five controls become a backslash and a letter, the other
   * controls and lone surrogates a backslash, u and four lower-case hexadecimal digits.
   */
  lemma EscapeOfUnit(u: Unit)
    ensures u in SHORT_ESCAPES ==> Escape([u]) == [0x5C, SHORT_ESCAPES[u]]
    ensures u !in SHORT_ESCAPES && (u < 0x20 || 0xD800 <= u < 0xE000) ==>
              && |Escape([u])| == 6 && Escape([u])[..2] == [0x5C, 0x75] && ReadHex4(Escape([u])[2..]) == Some(u)
              && forall i :: 2 <= i < 6 ==> 0x30 <= Escape([u])[i] <= 0x39 || 0x61 <= Escape([u])[i] <= 0x66
    ensures u !in SHORT_ESCAPES && 0x20 <= u && !(0xD800 <= u < 0xE000) ==> Escape([u]) == [u]
  {
    assert [u][1..] == [] && Escape([]) == [];
    assert Escape([u]) == EscapeUnit(u);
    if u !in SHORT_ESCAPES && (u < 0x20 || High(u) || Low(u)) {
      Hex4Reads(u);
      assert EscapeUnit(u)[2..] == Hex4(u);
    }
  }

  predicate PairAhead(s: JsString) {
    |s| > 1 && High(s[0]) && Low(s[1])
  }

  lemma ConcatPair(s: JsString, t: JsString)
    requires PairAhead(s) && Escape(s[2..] + t) == Escape(s[2..]) + Escape(t)
    ensures Escape(s + t) == Escape(s) + Escape(t)
  {
    assert (s + t)[..2] == s[..2] && (s + t)[2..] == s[2..] + t;
    Assoc(s[..2], Escape(s[2..]), Escape(t));
  }

  lemma ConcatUnit(s: JsString, t: JsString, unit: JsString)
    requires s != [] && !PairAhead(s) && !PairAhead(s + t) && unit == EscapeUnit(s[0])
    requires Escape(s[1..] + t) == Escape(s[1..]) + Escape(t)
    ensures Escape(s + t) == Escape(s) + Escape(t)
  {
    assert (s + t)[1..] == s[1..] + t && (s + t)[0] == s[0];
    Assoc(unit, Escape(s[1..]), Escape(t));
  }

  /** Strings are escaped piece by piece, unless the cut parts a surrogate pair. */
  lemma {:induction false} EscapeConcat(s: JsString, t: JsString)
    requires s != [] && t != [] ==> !(0xD800 <= s[|s| - 1] < 0xDC00 && 0xDC00 <= t[0] < 0xE000)
    ensures Escape(s + t) == Escape(s) + Escape(t)
    decreases |s|
  {
    if s == [] {
      assert s + t == t;
    } else if PairAhead(s) {
      EscapeConcat(s[2..], t);
      ConcatPair(s, t);
    } else {
      EscapeConcat(s[1..], t);
      ConcatUnit(s, t, EscapeUnit(s[0]));
    }
  }

  lemma UnitGrows(u: Unit)
    ensures |EscapeUnit(u)| >= 1
    ensures |EscapeUnit(u)| == 1 <==> PlainUnit(u) && !High(u) && !Low(u)
    ensures |EscapeUnit(u)| == 1 ==> EscapeUnit(u) == [u]
  {}

  predicate PlainUnit(u: Unit) {
    u >= 0x20 && u != 0x22 && u != 0x5C
  }

  ghost predicate Plain(s: JsString) {
    forall u :: u in s ==> PlainUnit(u)
  }

  lemma PlainHead(s: JsString)
    requires s != []
    ensures Plain(s) <==> PlainUnit(s[0]) && Plain(s[1..])
  {
    assert s == [s[0]] + s[1..];
    assert forall u :: u in s <==> u == s[0] || u in s[1..];
  }

  lemma {:induction false} EscapeGrows(s: JsString)
    ensures |Escape(s)| >= |s|
    ensures |Escape(s)| == |s| <==> ValidUtf16(s) && Plain(s)
    ensures |Escape(s)| == |s| ==> Escape(s) == s
    decreases |s|
  {
    if s == [] {
    } else if PairAhead(s) {
      EscapeGrows(s[2..]);
      PlainHead(s);
      PlainHead(s[1..]);
      assert s == [s[0], s[1]] + s[2..] && s[..2] == [s[0], s[1]];
      assert s[1..][1..] == s[2..];
    } else {
      EscapeGrows(s[1..]);
      UnitGrows(s[0]);
      PlainHead(s);
      assert s == [s[0]] + s[1..];
    }
  }

  /** A string is printed as it stands exactly if it is well-formed and has nothing to escape. */
  lemma EscapesNothingIff(s: JsString)
    ensures Escape(s) == s <==> ValidUtf16(s) && forall u :: u in s ==> u >= 0x20 && u != 0x22 && u != 0x5C
  {
    EscapeGrows(s);
  }
}
