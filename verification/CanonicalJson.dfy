// The canonical JSON text an X-Token seals, on JavaScript's own strings (sequences of
// UTF-16 code units), together with a parser that undoes it.

module CanonicalJson {
  import opened Text
  import Sorting

  // ---- JavaScript values -------------------------------------------------------------

  newtype Unit = u: int | 0 <= u < 0x1_0000
  type JsString = seq<Unit>

  /** A number, given by the 64 bits of its IEEE 754 representation. */
  type Double = bits: nat | bits < 0x1_0000_0000_0000_0000

  datatype Json =
    | Null
    | Bool(b: bool)
    | Number(bits: Double)
    | String(s: JsString)
    | Array(items: seq<Json>)
    | Object(members: seq<Member>)
    | Unsupported  // undefined, a function, a symbol or a BigInt

  /** An own enumerable property; members are listed in the object's own key order. */
  datatype Member = Member(key: JsString, value: Json)

  datatype JsonError = NonFiniteNumber | UnsupportedType

  predicate Finite(d: Double) {
    (d / 0x10_0000_0000_0000) % 0x800 != 0x7FF
  }

  const POSITIVE_ZERO: Double := 0
  const NEGATIVE_ZERO: Double := 0x8000_0000_0000_0000

  /** JavaScript's === on finite numbers: -0 and 0 are the same number. */
  predicate SameNumber(a: Double, b: Double) {
    a == b || (a in {POSITIVE_ZERO, NEGATIVE_ZERO} && b in {POSITIVE_ZERO, NEGATIVE_ZERO})
  }

  /** The numbers are those below infinity, whatever the sign bit. */
  lemma FiniteIs(d: Double)
    ensures Finite(d) <==> d % 0x8000_0000_0000_0000 < 0x7FF0_0000_0000_0000
  {}

  /** Different representations are one number only if both are zero but for the sign bit. */
  lemma SameNumberIs(a: Double, b: Double)
    ensures SameNumber(a, b) <==> a == b || a % 0x8000_0000_0000_0000 == b % 0x8000_0000_0000_0000 == 0
  {}

  predicate HasKey(ms: seq<Member>, k: JsString) {
    exists i :: 0 <= i < |ms| && ms[i].key == k
  }

  function IndexOf(ms: seq<Member>, k: JsString): (i: nat)
    requires HasKey(ms, k)
    ensures i < |ms| && ms[i].key == k
  {
    if ms[0].key == k then 0
    else
      assert HasKey(ms[1..], k) by {
        var j :| 0 <= j < |ms| && ms[j].key == k;
        assert ms[1..][j - 1].key == k;
      }
      1 + IndexOf(ms[1..], k)
  }

  function Keys(ms: seq<Member>): (ks: seq<JsString>)
    ensures |ks| == |ms| && forall i :: 0 <= i < |ms| ==> ks[i] == ms[i].key
  {
    seq(|ms|, i requires 0 <= i < |ms| => ms[i].key)
  }

  ghost predicate Distinct(ks: seq<JsString>) {
    forall i, j :: 0 <= i < j < |ks| ==> ks[i] != ks[j]
  }

  /** Objects have each key once, at every level. */
  ghost predicate WellFormed(v: Json) {
    match v
    case Array(items) => forall i :: 0 <= i < |items| ==> WellFormed(items[i])
    case Object(ms) => Distinct(Keys(ms)) && forall i :: 0 <= i < |ms| ==> WellFormed(ms[i].value)
    case _ => true
  }

  lemma ObjectIsWellFormed(ms: seq<Member>)
    requires forall i, j :: 0 <= i < j < |ms| ==> ms[i].key != ms[j].key
    requires forall i :: 0 <= i < |ms| ==> WellFormed(ms[i].value)
    ensures WellFormed(Object(ms))
  {}

  /** Equality that ignores the order in which objects list their keys. */
  ghost predicate Same(v: Json, w: Json) {
    match (v, w)
    case (Null, Null) => true
    case (Bool(a), Bool(b)) => a == b
    case (Number(a), Number(b)) => SameNumber(a, b)
    case (String(a), String(b)) => a == b
    case (Array(xs), Array(ys)) =>
      |xs| == |ys| && forall i :: 0 <= i < |xs| ==> Same(xs[i], ys[i])
    case (Object(ms), Object(ns)) =>
      && (forall k :: HasKey(ms, k) <==> HasKey(ns, k))
      && (forall i :: 0 <= i < |ms| && HasKey(ns, ms[i].key) ==>
            Same(ms[i].value, ns[IndexOf(ns, ms[i].key)].value))
    case _ => false
  }

  /** No part of the value makes the printer throw. */
  ghost predicate Printable(v: Json) {
    match v
    case Number(d) => Finite(d)
    case Unsupported => false
    case Array(items) => forall i :: 0 <= i < |items| ==> Printable(items[i])
    case Object(ms) => forall i :: 0 <= i < |ms| ==> Printable(ms[i].value)
    case _ => true
  }

  // ---- Key order ---------------------------------------------------------------------

  /** The order of Array.prototype.sort on strings: by code unit, prefixes first. */
  predicate Less(a: JsString, b: JsString) {
    b != [] && (a == [] || a[0] < b[0] || (a[0] == b[0] && Less(a[1..], b[1..])))
  }

  function Sort(ks: seq<JsString>): seq<JsString> {
    Sorting.SortBy(Less, ks)
  }

  ghost predicate Sorted(ks: seq<JsString>) {
    Sorting.OrderedBy(Less, ks)
  }

  lemma LessTotal(a: JsString, b: JsString)
    ensures a == b || Less(a, b) || Less(b, a)
    ensures !(Less(a, b) && Less(b, a)) && !Less(a, a)
  {
    if a != [] && b != [] && a[0] == b[0] {
      LessTotal(a[1..], b[1..]);
      assert a == [a[0]] + a[1..] && b == [b[0]] + b[1..];
    } else if a != [] {
      LessTotal(a[1..], a[1..]);
    }
  }

  lemma LessTransitive(a: JsString, b: JsString, c: JsString)
    requires Less(a, b) && Less(b, c)
    ensures Less(a, c)
  {
    if a != [] && a[0] == b[0] == c[0] {
      LessTransitive(a[1..], b[1..], c[1..]);
    }
  }

  /** Up to some place the texts agree, and there one ends or has the smaller unit. */
  ghost predicate Precedes(a: JsString, b: JsString) {
    exists p: nat ::
      p <= |a| && p < |b| && a[..p] == b[..p] && (p == |a| || a[p] < b[p])
  }

  lemma PrecedesStep(a: JsString, b: JsString, p: nat)
    requires p <= |a| && p < |b| && a[..p] == b[..p] && (p == |a| || a[p] < b[p])
    ensures Less(a, b)
    decreases p
  {
    if p > 0 {
      assert a[0] == a[..p][0] && b[0] == b[..p][0];
      assert a[1..][..p - 1] == a[..p][1..] && b[1..][..p - 1] == b[..p][1..];
      PrecedesStep(a[1..], b[1..], p - 1);
    }
  }

  lemma {:induction false} LessPlace(a: JsString, b: JsString) returns (p: nat)
    requires Less(a, b)
    ensures p <= |a| && p < |b| && a[..p] == b[..p] && (p == |a| || a[p] < b[p])
  {
    p := 0;
    if a != [] && a[0] == b[0] {
      p := LessPlace(a[1..], b[1..]);
      assert a[..p + 1] == [a[0]] + a[1..][..p] && b[..p + 1] == [b[0]] + b[1..][..p];
      p := p + 1;
    }
  }

  lemma LessIs(a: JsString, b: JsString)
    ensures Less(a, b) <==> Precedes(a, b)
  {
    if Less(a, b) {
      var p := LessPlace(a, b);
    }
    if Precedes(a, b) {
      var p: nat :| p <= |a| && p < |b| && a[..p] == b[..p] && (p == |a| || a[p] < b[p]);
      PrecedesStep(a, b, p);
    }
  }

  lemma LessIsStrictOrder()
    ensures Sorting.Transitive(Less) && Sorting.Strict(Less)
  {
    forall a, b, c | Less(a, b) && Less(b, c) ensures Less(a, c) {
      LessTransitive(a, b, c);
    }
    forall a, b | Less(a, b) ensures !Less(b, a) {
      LessTotal(a, b);
    }
  }

  lemma SortSorts(ks: seq<JsString>)
    requires Distinct(ks)
    ensures Sorted(Sort(ks))
    ensures forall i, j :: 0 <= i < j < |Sort(ks)| ==> Precedes(Sort(ks)[i], Sort(ks)[j])
    ensures forall x :: x in Sort(ks) <==> x in ks
  {
    forall a, b ensures Less(a, b) <==> Precedes(a, b) {
      LessIs(a, b);
    }
    LessIsStrictOrder();
    forall i, j | 0 <= i < j < |ks| ensures Less(ks[i], ks[j]) || Less(ks[j], ks[i]) {
      LessTotal(ks[i], ks[j]);
    }
    Sorting.SortOrdered(Less, ks);
    SortMembers(ks);
  }

  /** A sorted list is determined by its elements. */
  lemma SortedUnique(a: seq<JsString>, b: seq<JsString>)
    requires Sorted(a) && Sorted(b)
    requires forall x :: x in a <==> x in b
    ensures a == b
  {
    LessIsStrictOrder();
    Sorting.OrderedIsUnique(Less, a, b);
  }

  // ---- Printer -----------------------------------------------------------------------

  const QUOTE: Unit := 0x22
  const BACKSLASH: Unit := 0x5C
  const COMMA: Unit := 0x2C
  const COLON: Unit := 0x3A
  const LBRACKET: Unit := 0x5B
  const RBRACKET: Unit := 0x5D
  const LBRACE: Unit := 0x7B
  const RBRACE: Unit := 0x7D
  const LOWER_U: Unit := 0x75

  const NULL_TEXT: JsString := [0x6E, 0x75, 0x6C, 0x6C]
  const TRUE_TEXT: JsString := [0x74, 0x72, 0x75, 0x65]
  const FALSE_TEXT: JsString := [0x66, 0x61, 0x6C, 0x73, 0x65]

  predicate High(u: Unit) {
    0xD800 <= u < 0xDC00
  }

  predicate Low(u: Unit) {
    0xDC00 <= u < 0xE000
  }

  /** The letter after the backslash for units with a two-character escape. */
  function ShortEscape(u: Unit): Option<Unit> {
    match u
    case 0x08 => Some(0x62)
    case 0x09 => Some(0x74)
    case 0x0A => Some(0x6E)
    case 0x0C => Some(0x66)
    case 0x0D => Some(0x72)
    case 0x22 => Some(0x22)
    case 0x5C => Some(0x5C)
    case _ => None
  }

  function HexDigit(d: nat): Unit
    requires d < 16
  {
    (if d < 10 then 0x30 + d else 0x61 + d - 10) as Unit
  }

  function Hex4(u: Unit): JsString {
    var q := u as nat / 16;
    var r := q / 16;
    [HexDigit(r / 16), HexDigit(r % 16), HexDigit(q % 16), HexDigit(u as nat % 16)]
  }

  /** A unit on its own: a control character or a surrogate here becomes \uXXXX. */
  function EscapeUnit(u: Unit): JsString {
    if ShortEscape(u).Some? then [BACKSLASH, ShortEscape(u).value]
    else if u < 0x20 || High(u) || Low(u) then [BACKSLASH, LOWER_U] + Hex4(u)
    else [u]
  }

  /** The body of JSON.stringify of a string: lone surrogates are escaped, pairs are not. */
  function Escape(s: JsString): JsString {
    if s == [] then []
    else if High(s[0]) && |s| > 1 && Low(s[1]) then s[..2] + Escape(s[2..])
    else EscapeUnit(s[0]) + Escape(s[1..])
  }

  function Quote(s: JsString): JsString {
    [QUOTE] + Escape(s) + [QUOTE]
  }

  function Join(parts: seq<JsString>): JsString {
    if parts == [] then []
    else if |parts| == 1 then parts[0]
    else parts[0] + [COMMA] + Join(parts[1..])
  }

  /** num stands for JSON.stringify on finite numbers. */
  function Stringify(v: Json, num: Double -> JsString): Result<JsString, JsonError>
    decreases v, 1, 0
  {
    match v
    case Null => Ok(NULL_TEXT)
    case Bool(b) => Ok(if b then TRUE_TEXT else FALSE_TEXT)
    case Number(d) => if Finite(d) then Ok(num(d)) else Err(NonFiniteNumber)
    case String(s) => Ok(Quote(s))
    case Unsupported => Err(UnsupportedType)
    case Array(items) =>
      var parts := StringifyItems(v, 0, num);
      if parts.Err? then Err(parts.error) else Ok([LBRACKET] + Join(parts.value) + [RBRACKET])
    case Object(ms) =>
      SortKeepsKeys(ms);
      var parts := StringifyEntries(v, Sort(Keys(ms)), num);
      if parts.Err? then Err(parts.error) else Ok([LBRACE] + Join(parts.value) + [RBRACE])
  }

  function StringifyItems(v: Json, from: nat, num: Double -> JsString): Result<seq<JsString>, JsonError>
    requires v.Array? && from <= |v.items|
    decreases v, 0, |v.items| - from
  {
    if from == |v.items| then Ok([])
    else
      var first := Stringify(v.items[from], num);
      if first.Err? then Err(first.error)
      else
        var rest := StringifyItems(v, from + 1, num);
        if rest.Err? then rest else Ok([first.value] + rest.value)
  }

  function StringifyEntries(v: Json, keys: seq<JsString>, num: Double -> JsString): Result<seq<JsString>, JsonError>
    requires v.Object? && forall k :: k in keys ==> HasKey(v.members, k)
    decreases v, 0, |keys|
  {
    if keys == [] then Ok([])
    else
      var value := Stringify(v.members[IndexOf(v.members, keys[0])].value, num);
      if value.Err? then Err(value.error)
      else
        var rest := StringifyEntries(v, keys[1..], num);
        if rest.Err? then rest else Ok([Quote(keys[0]) + [COLON] + value.value] + rest.value)
  }

  lemma SortMembers(ks: seq<JsString>)
    ensures forall x :: x in Sort(ks) <==> x in ks
  {
    forall x ensures x in Sort(ks) <==> x in ks {
      Sorting.SortMembers(Less, ks, x);
    }
  }

  lemma SortKeepsKeys(ms: seq<Member>)
    ensures forall k :: k in Sort(Keys(ms)) <==> HasKey(ms, k)
  {
    SortMembers(Keys(ms));
    forall k
      ensures k in Keys(ms) <==> HasKey(ms, k)
    {
      if HasKey(ms, k) {
        var i :| 0 <= i < |ms| && ms[i].key == k;
        assert Keys(ms)[i] == k;
      }
    }
  }
}
