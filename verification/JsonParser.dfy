// A parser for JSON texts without white space, following sections 3 to 7 of RFC 8259,
// and the proof that it undoes the canonical printer at every nesting depth. The parser
// names no constant of the printer: its units are those of the standard's grammar.

module JsonParser {
  import opened Text
  import opened CanonicalJson

  /** What a text denotes; numbers are kept as their token, objects in textual order. */
  datatype Tree =
    | TNull
    | TBool(b: bool)
    | TNumber(token: JsString)
    | TString(s: JsString)
    | TArray(items: seq<Tree>)
    | TObject(entries: seq<(JsString, Tree)>)

  // ---- Number tokens (section 6) -----------------------------------------------------

  predicate DigitUnit(u: Unit) {
    0x30 <= u <= 0x39
  }

  predicate NumberUnit(u: Unit) {
    DigitUnit(u) || u in {0x2B, 0x2D, 0x2E, 0x45, 0x65}
  }

  function DigitRun(s: JsString): (n: nat)
    ensures n <= |s| && forall i :: 0 <= i < n ==> DigitUnit(s[i])
  {
    if s != [] && DigitUnit(s[0]) then 1 + DigitRun(s[1..]) else 0
  }

  function AfterMinus(s: JsString): JsString {
    if s != [] && s[0] == 0x2D then s[1..] else s
  }

  function AfterFraction(s: JsString): JsString {
    if s != [] && s[0] == 0x2E && DigitRun(s[1..]) > 0 then s[1 + DigitRun(s[1..])..] else s
  }

  function AfterSign(s: JsString): JsString {
    if s != [] && s[0] in {0x2B, 0x2D} then s[1..] else s
  }

  predicate Exponent(s: JsString) {
    s == [] || (s[0] in {0x45, 0x65} && AfterSign(s[1..]) != [] && DigitRun(AfterSign(s[1..])) == |AfterSign(s[1..])|)
  }

  /** [ minus ] int [ frac ] [ exp ], with no leading zero in int. */
  predicate IsNumberToken(s: JsString) {
    var body := AfterMinus(s);
    var n := DigitRun(body);
    && n > 0
    && (body[0] == 0x30 ==> n == 1)
    && Exponent(AfterFraction(body[n..]))
  }

  lemma OneDigit(u: Unit)
    ensures DigitUnit(u) ==> DigitRun([u]) == 1
    ensures !DigitUnit(u) ==> DigitRun([u]) == 0
  {
    assert [u][1..] == [] && DigitRun([]) == 0;
  }

  lemma ExponentDigit(e: Unit, sign: JsString)
    requires e in {0x45, 0x65} && sign in {[], [0x2B], [0x2D]}
    ensures Exponent([e] + sign + [0x35])
  {
    OneDigit(0x35);
    assert ([e] + sign + [0x35])[1..] == sign + [0x35];
    assert AfterSign(sign + [0x35]) == [0x35];
  }

  predicate OneGoesOn(tail: JsString) {
    IsNumberToken([0x31] + tail) && IsNumberToken([0x2D, 0x31] + tail)
  }

  lemma TokenOf(tail: JsString)
    requires Exponent(AfterFraction(tail)) && (tail != [] ==> !DigitUnit(tail[0]))
    ensures OneGoesOn(tail)
  {
    assert ([0x31] + tail)[1..] == tail && ([0x2D, 0x31] + tail)[1..] == [0x31] + tail;
    assert DigitRun(tail) == 0 && DigitRun([0x31] + tail) == 1;
  }

  /** 0, 1 and 1.5 are tokens, 1 and 1.5 with a minus sign too. */
  lemma DecimalTokens()
    ensures IsNumberToken([0x30]) && OneGoesOn([]) && OneGoesOn([0x2E, 0x35])
  {
    OneDigit(0x30);
    OneDigit(0x35);
    assert [0x30][1..] == [];
    var half: JsString := [0x2E, 0x35];
    assert half[1..] == [0x35] && AfterFraction(half) == half[2..] == [];
    TokenOf([]);
    TokenOf(half);
  }

  lemma ExponentToken(e: Unit, sign: JsString)
    requires e in {0x45, 0x65} && sign in {[], [0x2B], [0x2D]}
    ensures OneGoesOn([e] + sign + [0x35])
  {
    ExponentDigit(e, sign);
    TokenOf([e] + sign + [0x35]);
  }

  /** So are 1e5, 1E+5 and 1e-5. */
  lemma ExponentTokens()
    ensures OneGoesOn([0x65, 0x35]) && OneGoesOn([0x45, 0x2B, 0x35]) && OneGoesOn([0x65, 0x2D, 0x35])
  {
    ExponentToken(0x65, []);
    ExponentToken(0x45, [0x2B]);
    ExponentToken(0x65, [0x2D]);
    assert [0x65] + [] + [0x35] == [0x65, 0x35] && [0x45] + [0x2B] + [0x35] == [0x45, 0x2B, 0x35];
    assert [0x65] + [0x2D] + [0x35] == [0x65, 0x2D, 0x35];
  }

  /** Nothing, -, +1, 01, .5, 1. and 1e are none. */
  lemma NoNumberTokens()
    ensures !IsNumberToken([]) && !IsNumberToken([0x2D]) && !IsNumberToken([0x2B, 0x31])
    ensures !IsNumberToken([0x30, 0x31]) && !IsNumberToken([0x2E, 0x35])
    ensures !IsNumberToken([0x31, 0x2E]) && !IsNumberToken([0x31, 0x65])
  {
    OneDigit(0x31);
    assert [0x2D][1..] == [] && [0x30, 0x31][1..] == [0x31];
    assert [0x31, 0x2E][1..] == [0x2E] && [0x2E][1..] == [] && [0x31, 0x65][1..] == [0x65] && [0x65][1..] == [];
  }

  /** The assumption on JSON.stringify of finite numbers: one grammatical token per number. */
  ghost predicate NumberPrinter(num: Double -> JsString) {
    && (forall d: Double :: Finite(d) ==> IsNumberToken(num(d)))
    && (forall a: Double, b: Double :: Finite(a) && Finite(b) ==> (num(a) == num(b) <==> SameNumber(a, b)))
  }

  ghost predicate AllNumberUnits(s: JsString) {
    forall i :: 0 <= i < |s| ==> NumberUnit(s[i])
  }

  lemma JoinUnits(a: JsString, b: JsString)
    requires AllNumberUnits(a) && AllNumberUnits(b)
    ensures AllNumberUnits(a + b)
  {}

  lemma ExponentUnits(s: JsString)
    requires Exponent(s)
    ensures AllNumberUnits(s)
  {
    if s != [] {
      var digits := AfterSign(s[1..]);
      var sign := s[1..][..|s| - 1 - |digits|];
      assert s == s[..1] + (sign + digits);
      JoinUnits(sign, digits);
      JoinUnits(s[..1], sign + digits);
    }
  }

  lemma FractionUnits(s: JsString)
    requires AllNumberUnits(AfterFraction(s))
    ensures AllNumberUnits(s)
  {
    if AfterFraction(s) != s {
      var n := DigitRun(s[1..]);
      assert s == s[..1] + (s[1..][..n] + AfterFraction(s));
      JoinUnits(s[1..][..n], AfterFraction(s));
      JoinUnits(s[..1], s[1..][..n] + AfterFraction(s));
    }
  }

  lemma NumberTokenUnits(s: JsString)
    requires IsNumberToken(s)
    ensures AllNumberUnits(s)
    ensures s != [] && (DigitUnit(s[0]) || s[0] == 0x2D)
  {
    var body := AfterMinus(s);
    var n := DigitRun(body);
    ExponentUnits(AfterFraction(body[n..]));
    FractionUnits(body[n..]);
    assert s == s[..|s| - |body|] + (body[..n] + body[n..]);
    JoinUnits(body[..n], body[n..]);
    JoinUnits(s[..|s| - |body|], body[..n] + body[n..]);
  }

  // ---- Strings (section 7) -----------------------------------------------------------

  function HexOf(u: Unit): Option<nat> {
    if DigitUnit(u) then Some(u as nat - 0x30)
    else if 0x61 <= u <= 0x66 then Some(u as nat - 0x61 + 10)
    else if 0x41 <= u <= 0x46 then Some(u as nat - 0x41 + 10)
    else None
  }

  function ReadHex4(s: JsString): Option<Unit>
    requires |s| == 4
  {
    match (HexOf(s[0]), HexOf(s[1]), HexOf(s[2]), HexOf(s[3]))
    case (Some(a), Some(b), Some(c), Some(d)) =>
      HexBound(s[0]); HexBound(s[1]); HexBound(s[2]); HexBound(s[3]);
      Some((((a * 16 + b) * 16 + c) * 16 + d) as Unit)
    case _ => None
  }

  lemma HexBound(u: Unit)
    ensures HexOf(u).Some? ==> HexOf(u).value < 16
  {}

  /** The unit a two-character escape stands for. */
  function Unescape(letter: Unit): Option<Unit> {
    match letter
    case 0x22 => Some(0x22)
    case 0x5C => Some(0x5C)
    case 0x2F => Some(0x2F)
    case 0x62 => Some(0x08)
    case 0x66 => Some(0x0C)
    case 0x6E => Some(0x0A)
    case 0x72 => Some(0x0D)
    case 0x74 => Some(0x09)
    case _ => None
  }

  function Prepend(u: Unit, r: Option<(JsString, JsString)>): Option<(JsString, JsString)> {
    if r.None? then None else Some(([u] + r.value.0, r.value.1))
  }

  /** Reads the rest of a string after its opening quotation mark. */
  function ParseString(s: JsString): (r: Option<(JsString, JsString)>)
    ensures r.Some? ==> |r.value.1| < |s|
  {
    if s == [] then None
    else if s[0] == 0x22 then Some(([], s[1..]))
    else if s[0] < 0x20 then None
    else if s[0] != 0x5C then Prepend(s[0], ParseString(s[1..]))
    else if |s| >= 6 && s[1] == 0x75 && ReadHex4(s[2..6]).Some? then
      Prepend(ReadHex4(s[2..6]).value, ParseString(s[6..]))
    else if |s| >= 2 && Unescape(s[1]).Some? then
      Prepend(Unescape(s[1]).value, ParseString(s[2..]))
    else None
  }

  lemma HexReads(h: nat)
    requires h < 16
    ensures HexOf(HexDigit(h)) == Some(h)
  {}

  lemma Hex4Reads(u: Unit)
    ensures ReadHex4(Hex4(u)) == Some(u)
  {
    var q := u as nat / 16;
    var r := q / 16;
    HexReads(r / 16);
    HexReads(r % 16);
    HexReads(q % 16);
    HexReads(u as nat % 16);
  }

  lemma ParseRaw(u: Unit, tail: JsString)
    requires u >= 0x20 && u !in {QUOTE, BACKSLASH}
    ensures ParseString([u] + tail) == Prepend(u, ParseString(tail))
  {
    assert ([u] + tail)[1..] == tail;
  }

  lemma ParseShort(u: Unit, tail: JsString)
    requires ShortEscape(u).Some?
    ensures ParseString([BACKSLASH, ShortEscape(u).value] + tail) == Prepend(u, ParseString(tail))
  {
    assert ([BACKSLASH, ShortEscape(u).value] + tail)[2..] == tail;
  }

  lemma ParseHex(u: Unit, tail: JsString)
    ensures ParseString([BACKSLASH, LOWER_U] + Hex4(u) + tail) == Prepend(u, ParseString(tail))
  {
    var s := [BACKSLASH, LOWER_U] + Hex4(u) + tail;
    Hex4Reads(u);
    assert s[2..6] == Hex4(u) && s[6..] == tail;
  }

  lemma ParseUnit(u: Unit, tail: JsString)
    ensures ParseString(EscapeUnit(u) + tail) == Prepend(u, ParseString(tail))
  {
    if ShortEscape(u).Some? {
      ParseShort(u, tail);
    } else if u < 0x20 || High(u) || Low(u) {
      ParseHex(u, tail);
    } else {
      ParseRaw(u, tail);
    }
  }

  lemma Assoc(a: JsString, b: JsString, c: JsString)
    ensures (a + b) + c == a + (b + c)
  {}

  lemma PairApart(a: Unit, b: Unit, t: JsString)
    ensures [a, b] + t == [a] + ([b] + t)
  {}

  lemma ParsePair(a: Unit, b: Unit, tail: JsString)
    requires High(a) && Low(b)
    ensures ParseString([a, b] + tail) == Prepend(a, Prepend(b, ParseString(tail)))
  {
    PairApart(a, b, tail);
    ParseRaw(b, tail);
    ParseRaw(a, [b] + tail);
  }

  lemma {:induction false} ParseEscaped(s: JsString, close: JsString)
    requires close != [] && close[0] == QUOTE
    ensures ParseString(Escape(s) + close) == Some((s, close[1..]))
    decreases |s|
  {
    if s == [] {
      assert Escape(s) + close == close;
    } else if High(s[0]) && |s| > 1 && Low(s[1]) {
      ParseEscaped(s[2..], close);
      assert s[..2] == [s[0], s[1]];
      Assoc(s[..2], Escape(s[2..]), close);
      ParsePair(s[0], s[1], Escape(s[2..]) + close);
      PairApart(s[0], s[1], s[2..]);
      assert s == [s[0], s[1]] + s[2..];
    } else {
      ParseEscaped(s[1..], close);
      Assoc(EscapeUnit(s[0]), Escape(s[1..]), close);
      ParseUnit(s[0], Escape(s[1..]) + close);
      assert s == [s[0]] + s[1..];
    }
  }

  // ---- Values (sections 3 to 5) ------------------------------------------------------

  function NumberRun(s: JsString): (n: nat)
    ensures n <= |s|
  {
    if s != [] && NumberUnit(s[0]) then 1 + NumberRun(s[1..]) else 0
  }

  function ParseValue(s: JsString): (r: Option<(Tree, JsString)>)
    ensures r.Some? ==> |r.value.1| < |s|
    decreases |s|, 0
  {
    if s == [] then None
    else if [0x6E, 0x75, 0x6C, 0x6C] <= s then Some((TNull, s[4..]))
    else if [0x74, 0x72, 0x75, 0x65] <= s then Some((TBool(true), s[4..]))
    else if [0x66, 0x61, 0x6C, 0x73, 0x65] <= s then Some((TBool(false), s[5..]))
    else if s[0] == 0x22 then
      var r := ParseString(s[1..]);
      if r.None? then None else Some((TString(r.value.0), r.value.1))
    else if s[0] == 0x5B then
      if |s| > 1 && s[1] == 0x5D then Some((TArray([]), s[2..]))
      else
        var r := ParseItems(s[1..]);
        if r.None? then None else Some((TArray(r.value.0), r.value.1))
    else if s[0] == 0x7B then
      if |s| > 1 && s[1] == 0x7D then Some((TObject([]), s[2..]))
      else
        var r := ParseEntries(s[1..]);
        if r.None? then None else Some((TObject(r.value.0), r.value.1))
    else
      var n := NumberRun(s);
      if n > 0 && IsNumberToken(s[..n]) then Some((TNumber(s[..n]), s[n..])) else None
  }

  /** One or more values separated by commas, up to and including the closing bracket. */
  function ParseItems(s: JsString): (r: Option<(seq<Tree>, JsString)>)
    ensures r.Some? ==> |r.value.1| < |s|
    decreases |s|, 1
  {
    var first := ParseValue(s);
    if first.None? || first.value.1 == [] then None
    else
      var t := first.value.1;
      if t[0] == 0x5D then Some(([first.value.0], t[1..]))
      else if t[0] == 0x2C then
        var rest := ParseItems(t[1..]);
        if rest.None? then None else Some(([first.value.0] + rest.value.0, rest.value.1))
      else None
  }

  /** One or more name/value pairs, up to and including the closing brace. */
  function ParseEntries(s: JsString): (r: Option<(seq<(JsString, Tree)>, JsString)>)
    ensures r.Some? ==> |r.value.1| < |s|
    decreases |s|, 1
  {
    if s == [] || s[0] != 0x22 then None
    else
      var key := ParseString(s[1..]);
      if key.None? || key.value.1 == [] || key.value.1[0] != 0x3A then None
      else
        var value := ParseValue(key.value.1[1..]);
        if value.None? || value.value.1 == [] then None
        else
          var entry, t := (key.value.0, value.value.0), value.value.1;
          if t[0] == 0x7D then Some(([entry], t[1..]))
          else if t[0] == 0x2C then
            var rest := ParseEntries(t[1..]);
            if rest.None? then None else Some(([entry] + rest.value.0, rest.value.1))
          else None
  }

  /** A complete JSON text. */
  predicate IsJsonText(s: JsString) {
    ParseValue(s).Some? && ParseValue(s).value.1 == []
  }

  // ---- The tree a printed value denotes ----------------------------------------------

  function Canon(v: Json, num: Double -> JsString): Tree
    decreases v, 1, 0
  {
    match v
    case Null => TNull
    case Bool(b) => TBool(b)
    case Number(d) => TNumber(num(d))
    case String(s) => TString(s)
    case Unsupported => TNull
    case Array(items) => TArray(CanonItems(v, 0, num))
    case Object(ms) =>
      SortKeepsKeys(ms);
      TObject(CanonEntries(v, Sort(Keys(ms)), num))
  }

  function CanonItems(v: Json, from: nat, num: Double -> JsString): (ts: seq<Tree>)
    requires v.Array? && from <= |v.items|
    ensures |ts| == |v.items| - from
    ensures forall i :: 0 <= i < |ts| ==> ts[i] == Canon(v.items[from + i], num)
    decreases v, 0, |v.items| - from
  {
    if from == |v.items| then []
    else [Canon(v.items[from], num)] + CanonItems(v, from + 1, num)
  }

  function CanonEntries(v: Json, keys: seq<JsString>, num: Double -> JsString): (es: seq<(JsString, Tree)>)
    requires v.Object? && forall k :: k in keys ==> HasKey(v.members, k)
    ensures |es| == |keys|
    ensures forall i :: 0 <= i < |es| ==>
              es[i] == (keys[i], Canon(v.members[IndexOf(v.members, keys[i])].value, num))
    decreases v, 0, |keys|
  {
    if keys == [] then []
    else
      [(keys[0], Canon(v.members[IndexOf(v.members, keys[0])].value, num))] + CanonEntries(v, keys[1..], num)
  }

  // ---- The parser undoes the printer -------------------------------------------------

  /** What may follow a value in a longer text. */
  predicate Ends(rest: JsString) {
    rest == [] || rest[0] in {0x2C, 0x5D, 0x7D}
  }

  lemma {:induction false} RunOfToken(t: JsString, rest: JsString)
    requires forall i :: 0 <= i < |t| ==> NumberUnit(t[i])
    requires Ends(rest)
    ensures NumberRun(t + rest) == |t|
  {
    if t == [] {
      assert t + rest == rest;
    } else {
      assert (t + rest)[1..] == t[1..] + rest;
      RunOfToken(t[1..], rest);
    }
  }

  lemma ParseToken(t: JsString, rest: JsString)
    requires IsNumberToken(t) && Ends(rest)
    ensures ParseValue(t + rest) == Some((TNumber(t), rest))
  {
    NumberTokenUnits(t);
    RunOfToken(t, rest);
    assert (t + rest)[0] == t[0];
    assert (t + rest)[..|t|] == t && (t + rest)[|t|..] == rest;
  }

  lemma ParseOpened(s: JsString)
    requires s != [] && s[0] == 0x22 && ParseString(s[1..]).Some?
    ensures ParseValue(s) == Some((TString(ParseString(s[1..]).value.0), ParseString(s[1..]).value.1))
  {}

  lemma ParseQuoted(s: JsString, rest: JsString)
    ensures ParseValue(Quote(s) + rest) == Some((TString(s), rest))
    ensures ParseString((Quote(s) + rest)[1..]) == Some((s, rest))
  {
    var text := Quote(s) + rest;
    ParseEscaped(s, [QUOTE] + rest);
    assert ([QUOTE] + rest)[1..] == rest;
    assert text[1..] == Escape(s) + ([QUOTE] + rest);
    ParseOpened(text);
  }

  lemma ParseEmptyArray(rest: JsString)
    ensures ParseValue([LBRACKET, RBRACKET] + rest) == Some((TArray([]), rest))
  {
    assert ([LBRACKET, RBRACKET] + rest)[2..] == rest;
  }

  lemma ParseEmptyObject(rest: JsString)
    ensures ParseValue([LBRACE, RBRACE] + rest) == Some((TObject([]), rest))
  {
    assert ([LBRACE, RBRACE] + rest)[2..] == rest;
  }

  lemma ParseArray(body: JsString, items: seq<Tree>, rest: JsString)
    requires body != [] && body[0] != RBRACKET
    requires ParseItems(body) == Some((items, rest))
    ensures ParseValue([LBRACKET] + body) == Some((TArray(items), rest))
  {
    assert ([LBRACKET] + body)[1..] == body;
  }

  lemma ParseObject(body: JsString, entries: seq<(JsString, Tree)>, rest: JsString)
    requires body != [] && body[0] != RBRACE
    requires ParseEntries(body) == Some((entries, rest))
    ensures ParseValue([LBRACE] + body) == Some((TObject(entries), rest))
  {
    assert ([LBRACE] + body)[1..] == body;
  }

  lemma ParseLiterals(rest: JsString)
    ensures ParseValue(NULL_TEXT + rest) == Some((TNull, rest))
    ensures ParseValue(TRUE_TEXT + rest) == Some((TBool(true), rest))
    ensures ParseValue(FALSE_TEXT + rest) == Some((TBool(false), rest))
  {
    assert (NULL_TEXT + rest)[4..] == rest;
    assert (TRUE_TEXT + rest)[4..] == rest;
    assert (FALSE_TEXT + rest)[5..] == rest;
    assert (TRUE_TEXT + rest)[0] != NULL_TEXT[0];
    assert (FALSE_TEXT + rest)[0] != NULL_TEXT[0];
  }

  /**
   * Followed by anything that may follow a value, the printed text parses to the value's
   * canonical tree and leaves exactly what followed.
   */
  lemma {:induction false} ParsePrinted(v: Json, num: Double -> JsString, rest: JsString)
    requires NumberPrinter(num) && Stringify(v, num).Ok? && Ends(rest)
    ensures ParseValue(Stringify(v, num).value + rest) == Some((Canon(v, num), rest))
    decreases v, 1, 0
  {
    match v
    case Null => ParseLiterals(rest);
    case Bool(b) => ParseLiterals(rest);
    case Number(d) => ParseToken(num(d), rest);
    case String(s) => ParseQuoted(s, rest);
    case Array(items) => ParsePrintedArray(v, num, rest);
    case Object(ms) => ParsePrintedObject(v, num, rest);
  }

  lemma {:induction false} ParsePrintedArray(v: Json, num: Double -> JsString, rest: JsString)
    requires NumberPrinter(num) && v.Array? && Stringify(v, num).Ok?
    ensures ParseValue(Stringify(v, num).value + rest) == Some((Canon(v, num), rest))
    decreases v, 0, |v.items| + 1
  {
    var parts := StringifyItems(v, 0, num).value;
    if v.items == [] {
      assert Stringify(v, num).value + rest == [LBRACKET, RBRACKET] + rest;
      ParseEmptyArray(rest);
    } else {
      var body := Join(parts) + ([RBRACKET] + rest);
      ParsePrintedItems(v, 0, num, rest);
      FirstUnitOfItems(v, num);
      Bracketed([LBRACKET], Join(parts), [RBRACKET], rest);
      ParseArray(body, CanonItems(v, 0, num), rest);
    }
  }

  lemma {:induction false} ParsePrintedObject(v: Json, num: Double -> JsString, rest: JsString)
    requires NumberPrinter(num) && v.Object? && Stringify(v, num).Ok?
    ensures ParseValue(Stringify(v, num).value + rest) == Some((Canon(v, num), rest))
    decreases v, 0, |Sort(Keys(v.members))| + 1
  {
    SortKeepsKeys(v.members);
    var keys := Sort(Keys(v.members));
    if keys == [] {
      assert Stringify(v, num).value + rest == [LBRACE, RBRACE] + rest;
      ParseEmptyObject(rest);
    } else {
      var body := Join(StringifyEntries(v, keys, num).value) + ([RBRACE] + rest);
      ParsePrintedEntries(v, keys, num, rest);
      EntriesText(v, keys, num, rest);
      Bracketed([LBRACE], Join(StringifyEntries(v, keys, num).value), [RBRACE], rest);
      ParseObject(body, CanonEntries(v, keys, num), rest);
    }
  }

  lemma Bracketed(open: JsString, body: JsString, close: JsString, rest: JsString)
    ensures (open + body + close) + rest == open + (body + (close + rest))
  {}

  lemma ItemsStep(text: JsString, tree: Tree, t: JsString)
    requires ParseValue(text + t) == Some((tree, t)) && t != []
    ensures t[0] == RBRACKET ==> ParseItems(text + t) == Some(([tree], t[1..]))
    ensures t[0] == COMMA && ParseItems(t[1..]).Some? ==>
              ParseItems(text + t) == Some(([tree] + ParseItems(t[1..]).value.0, ParseItems(t[1..]).value.1))
  {}

  lemma {:induction false} ParsePrintedItems(v: Json, from: nat, num: Double -> JsString, rest: JsString)
    requires NumberPrinter(num) && v.Array? && from < |v.items| && StringifyItems(v, from, num).Ok?
    ensures ParseItems(Join(StringifyItems(v, from, num).value) + ([RBRACKET] + rest))
         == Some((CanonItems(v, from, num), rest))
    decreases v, 0, |v.items| - from
  {
    var parts := StringifyItems(v, from, num).value;
    var text := Stringify(v.items[from], num).value;
    var more := StringifyItems(v, from + 1, num).value;
    assert parts[1..] == more;
    var t := if from + 1 == |v.items| then [RBRACKET] + rest else [COMMA] + (Join(more) + ([RBRACKET] + rest));
    assert Join(parts) + ([RBRACKET] + rest) == text + t;
    ParsePrinted(v.items[from], num, t);
    ItemsStep(text, Canon(v.items[from], num), t);
    assert CanonItems(v, from, num) == [Canon(v.items[from], num)] + CanonItems(v, from + 1, num);
    if from + 1 == |v.items| {
      assert t[1..] == rest;
      assert CanonItems(v, from, num) == [Canon(v.items[from], num)];
    } else {
      assert t[1..] == Join(more) + ([RBRACKET] + rest);
      ParsePrintedItems(v, from + 1, num, rest);
    }
  }

  lemma EntriesStep(key: JsString, text: JsString, tree: Tree, t: JsString)
    requires ParseValue(text + t) == Some((tree, t)) && t != []
    ensures var s := Quote(key) + ([COLON] + (text + t));
            && (t[0] == RBRACE ==> ParseEntries(s) == Some(([(key, tree)], t[1..])))
            && (t[0] == COMMA && ParseEntries(t[1..]).Some? ==>
                  ParseEntries(s) == Some(([(key, tree)] + ParseEntries(t[1..]).value.0, ParseEntries(t[1..]).value.1)))
  {
    var s := Quote(key) + ([COLON] + (text + t));
    ParseQuoted(key, [COLON] + (text + t));
    assert s[0] == QUOTE;
    assert ([COLON] + (text + t))[1..] == text + t;
  }

  /** What follows the first of the given keys' entries in an object's text. */
  function AfterEntry(v: Json, keys: seq<JsString>, num: Double -> JsString, rest: JsString): JsString
    requires v.Object? && keys != [] && (forall k :: k in keys ==> HasKey(v.members, k))
    requires StringifyEntries(v, keys, num).Ok?
  {
    if |keys| == 1 then [RBRACE] + rest
    else [COMMA] + (Join(StringifyEntries(v, keys[1..], num).value) + ([RBRACE] + rest))
  }

  lemma RegroupLast(key: JsString, text: JsString, rest: JsString)
    ensures (key + [COLON] + text) + ([RBRACE] + rest) == key + ([COLON] + (text + ([RBRACE] + rest)))
  {}

  lemma RegroupMore(key: JsString, text: JsString, more: JsString, end: JsString)
    ensures (key + [COLON] + text + [COMMA] + more) + end == key + ([COLON] + (text + ([COMMA] + (more + end))))
  {}

  lemma EntriesText(v: Json, keys: seq<JsString>, num: Double -> JsString, rest: JsString)
    requires v.Object? && keys != [] && (forall k :: k in keys ==> HasKey(v.members, k))
    requires StringifyEntries(v, keys, num).Ok?
    ensures Join(StringifyEntries(v, keys, num).value) + ([RBRACE] + rest)
         == Quote(keys[0]) + ([COLON]
            + (Stringify(v.members[IndexOf(v.members, keys[0])].value, num).value + AfterEntry(v, keys, num, rest)))
  {
    var parts := StringifyEntries(v, keys, num).value;
    var text := Stringify(v.members[IndexOf(v.members, keys[0])].value, num).value;
    var more := StringifyEntries(v, keys[1..], num).value;
    assert parts[1..] == more;
    assert parts[0] == Quote(keys[0]) + [COLON] + text;
    if |keys| == 1 {
      RegroupLast(Quote(keys[0]), text, rest);
    } else {
      RegroupMore(Quote(keys[0]), text, Join(more), [RBRACE] + rest);
    }
  }

  lemma AfterEntryTail(v: Json, keys: seq<JsString>, num: Double -> JsString, rest: JsString)
    requires v.Object? && keys != [] && (forall k :: k in keys ==> HasKey(v.members, k))
    requires StringifyEntries(v, keys, num).Ok?
    ensures |keys| == 1 ==> AfterEntry(v, keys, num, rest)[1..] == rest
    ensures |keys| > 1 ==>
              AfterEntry(v, keys, num, rest)[1..] == Join(StringifyEntries(v, keys[1..], num).value) + ([RBRACE] + rest)
  {}

  lemma {:induction false} ParsePrintedEntries(v: Json, keys: seq<JsString>, num: Double -> JsString, rest: JsString)
    requires NumberPrinter(num) && v.Object? && keys != [] && (forall k :: k in keys ==> HasKey(v.members, k))
    requires StringifyEntries(v, keys, num).Ok?
    ensures ParseEntries(Join(StringifyEntries(v, keys, num).value) + ([RBRACE] + rest))
         == Some((CanonEntries(v, keys, num), rest))
    decreases v, 0, |keys|
  {
    var value := v.members[IndexOf(v.members, keys[0])].value;
    var t := AfterEntry(v, keys, num, rest);
    EntriesText(v, keys, num, rest);
    AfterEntryTail(v, keys, num, rest);
    ParsePrinted(value, num, t);
    EntriesStep(keys[0], Stringify(value, num).value, Canon(value, num), t);
    if |keys| == 1 {
      assert CanonEntries(v, keys, num) == [(keys[0], Canon(value, num))];
    } else {
      ParsePrintedEntries(v, keys[1..], num, rest);
    }
  }

  lemma {:induction false} FirstUnit(v: Json, num: Double -> JsString)
    requires NumberPrinter(num) && Stringify(v, num).Ok?
    ensures Stringify(v, num).value != [] && Stringify(v, num).value[0] != RBRACKET
  {
    if v.Number? {
      NumberTokenUnits(num(v.bits));
    }
  }

  lemma FirstUnitOfItems(v: Json, num: Double -> JsString)
    requires NumberPrinter(num) && v.Array? && v.items != [] && StringifyItems(v, 0, num).Ok?
    ensures Join(StringifyItems(v, 0, num).value) != [] && Join(StringifyItems(v, 0, num).value)[0] != RBRACKET
  {
    FirstUnit(v.items[0], num);
    assert StringifyItems(v, 0, num).value[0] == Stringify(v.items[0], num).value;
  }
}
