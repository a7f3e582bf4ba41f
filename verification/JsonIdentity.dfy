// Canonical texts identify values: two values print to the same text exactly when they
// are equal up to the order of object keys.

module JsonIdentity {
  import opened Text
  import opened CanonicalJson
  import opened JsonParser

  lemma {:induction false} DistinctIndex(ms: seq<Member>, i: nat)
    requires Distinct(Keys(ms)) && i < |ms|
    ensures HasKey(ms, ms[i].key) && IndexOf(ms, ms[i].key) == i
  {
    var j := IndexOf(ms, ms[i].key);
    assert Keys(ms)[i] == Keys(ms)[j];
  }

  // ---- When printing succeeds --------------------------------------------------------

  /** The printer throws exactly on values with an unprintable part. */
  lemma {:induction false} StringifyOkIff(v: Json, num: Double -> JsString)
    requires WellFormed(v)
    ensures Stringify(v, num).Ok? <==> Printable(v)
    decreases v, 1, 0
  {
    match v
    case Array(items) => ItemsOkIff(v, 0, num);
    case Object(ms) =>
      SortKeepsKeys(ms);
      var keys := Sort(Keys(ms));
      EntriesOkIff(v, keys, num);
      forall i | 0 <= i < |ms|
        ensures ms[i].key in keys && IndexOf(ms, ms[i].key) == i
      {
        DistinctIndex(ms, i);
      }
    case _ =>
  }

  lemma {:induction false} ItemsOkIff(v: Json, from: nat, num: Double -> JsString)
    requires WellFormed(v) && v.Array? && from <= |v.items|
    ensures StringifyItems(v, from, num).Ok? <==> forall i :: from <= i < |v.items| ==> Printable(v.items[i])
    decreases v, 0, |v.items| - from
  {
    if from < |v.items| {
      StringifyOkIff(v.items[from], num);
      ItemsOkIff(v, from + 1, num);
    }
  }

  lemma {:induction false} EntriesOkIff(v: Json, keys: seq<JsString>, num: Double -> JsString)
    requires WellFormed(v) && v.Object? && (forall k :: k in keys ==> HasKey(v.members, k))
    ensures StringifyEntries(v, keys, num).Ok?
       <==> forall k :: k in keys ==> Printable(v.members[IndexOf(v.members, k)].value)
    decreases v, 0, |keys|
  {
    if keys != [] {
      StringifyOkIff(v.members[IndexOf(v.members, keys[0])].value, num);
      EntriesOkIff(v, keys[1..], num);
      assert forall k :: k in keys <==> k == keys[0] || k in keys[1..];
    }
  }

  // ---- Same values print alike -------------------------------------------------------

  lemma SameSortedKeys(ms: seq<Member>, ns: seq<Member>)
    requires Distinct(Keys(ms)) && Distinct(Keys(ns))
    requires forall k :: HasKey(ms, k) <==> HasKey(ns, k)
    ensures Sort(Keys(ms)) == Sort(Keys(ns))
  {
    SortSorts(Keys(ms));
    SortSorts(Keys(ns));
    SortKeepsKeys(ms);
    SortKeepsKeys(ns);
    SortedUnique(Sort(Keys(ms)), Sort(Keys(ns)));
  }

  lemma {:induction false} SamePrintsAlike(v: Json, w: Json, num: Double -> JsString)
    requires NumberPrinter(num) && WellFormed(v) && WellFormed(w) && Same(v, w)
    ensures Stringify(v, num) == Stringify(w, num)
    decreases v, 1, 0
  {
    match v
    case Number(d) => SameNumbersPrintAlike(d, w.bits, num);
    case Array(items) => SameArraysPrintAlike(v, w, num);
    case Object(ms) => SameObjectsPrintAlike(v, w, num);
    case _ => assert v == w;
  }

  lemma SameNumbersPrintAlike(a: Double, b: Double, num: Double -> JsString)
    requires NumberPrinter(num) && SameNumber(a, b)
    ensures Stringify(Number(a), num) == Stringify(Number(b), num)
  {
    if a != b {
      assert Finite(POSITIVE_ZERO) && Finite(NEGATIVE_ZERO);
      assert num(a) == num(b);
    }
  }

  lemma {:induction false} SameArraysPrintAlike(v: Json, w: Json, num: Double -> JsString)
    requires NumberPrinter(num) && WellFormed(v) && WellFormed(w) && Same(v, w) && v.Array?
    ensures Stringify(v, num) == Stringify(w, num)
    decreases v, 0, |v.items| + 1
  {
    SameItemsPrintAlike(v, w, 0, num);
  }

  lemma {:induction false} SameObjectsPrintAlike(v: Json, w: Json, num: Double -> JsString)
    requires NumberPrinter(num) && WellFormed(v) && WellFormed(w) && Same(v, w) && v.Object?
    ensures Stringify(v, num) == Stringify(w, num)
    decreases v, 0, |Sort(Keys(v.members))| + 1
  {
    SameSortedKeys(v.members, w.members);
    SortKeepsKeys(v.members);
    SortKeepsKeys(w.members);
    SameEntriesPrintAlike(v, w, Sort(Keys(v.members)), num);
  }

  lemma {:induction false} SameItemsPrintAlike(v: Json, w: Json, from: nat, num: Double -> JsString)
    requires NumberPrinter(num) && WellFormed(v) && WellFormed(w) && Same(v, w)
    requires v.Array? && from <= |v.items|
    ensures StringifyItems(v, from, num) == StringifyItems(w, from, num)
    decreases v, 0, |v.items| - from
  {
    if from < |v.items| {
      SamePrintsAlike(v.items[from], w.items[from], num);
      SameItemsPrintAlike(v, w, from + 1, num);
    }
  }

  lemma {:induction false} SameEntriesPrintAlike(v: Json, w: Json, keys: seq<JsString>, num: Double -> JsString)
    requires NumberPrinter(num) && WellFormed(v) && WellFormed(w) && Same(v, w) && v.Object?
    requires forall k :: k in keys ==> HasKey(v.members, k)
    ensures StringifyEntries(v, keys, num) == StringifyEntries(w, keys, num)
    decreases v, 0, |keys|
  {
    if keys != [] {
      var i := IndexOf(v.members, keys[0]);
      SamePrintsAlike(v.members[i].value, w.members[IndexOf(w.members, keys[0])].value, num);
      SameEntriesPrintAlike(v, w, keys[1..], num);
    }
  }

  // ---- Canonical trees tell values apart ---------------------------------------------

  lemma {:induction false} CanonDecides(v: Json, w: Json, num: Double -> JsString)
    requires NumberPrinter(num) && WellFormed(v) && WellFormed(w) && Printable(v) && Printable(w)
    requires Canon(v, num) == Canon(w, num)
    ensures Same(v, w)
    decreases v
  {
    match v
    case Array(items) =>
      var ts, us := CanonItems(v, 0, num), CanonItems(w, 0, num);
      assert ts == us;
      forall i | 0 <= i < |items|
        ensures Same(items[i], w.items[i])
      {
        assert ts[i] == us[i];
        CanonDecides(items[i], w.items[i], num);
      }
    case Object(ms) =>
      var ns := w.members;
      CanonKeys(v, w, num);
      forall i | 0 <= i < |ms|
        ensures HasKey(ns, ms[i].key) && Same(ms[i].value, ns[IndexOf(ns, ms[i].key)].value)
      {
        DistinctIndex(ms, i);
        CanonValue(v, w, ms[i].key, num);
        CanonDecides(ms[i].value, ns[IndexOf(ns, ms[i].key)].value, num);
      }
    case _ =>
  }

  lemma CanonKeys(v: Json, w: Json, num: Double -> JsString)
    requires v.Object? && w.Object? && Canon(v, num) == Canon(w, num)
    ensures Sort(Keys(v.members)) == Sort(Keys(w.members))
    ensures forall k :: HasKey(v.members, k) <==> HasKey(w.members, k)
  {
    SortKeepsKeys(v.members);
    SortKeepsKeys(w.members);
    var a, b := Sort(Keys(v.members)), Sort(Keys(w.members));
    var es, fs := CanonEntries(v, a, num), CanonEntries(w, b, num);
    assert es == fs;
    assert forall i :: 0 <= i < |a| ==> es[i].0 == a[i] && fs[i].0 == b[i];
  }

  lemma CanonValue(v: Json, w: Json, k: JsString, num: Double -> JsString)
    requires v.Object? && w.Object? && Canon(v, num) == Canon(w, num) && HasKey(v.members, k)
    ensures HasKey(w.members, k)
    ensures Canon(v.members[IndexOf(v.members, k)].value, num) == Canon(w.members[IndexOf(w.members, k)].value, num)
  {
    CanonKeys(v, w, num);
    SortKeepsKeys(v.members);
    SortKeepsKeys(w.members);
    var keys := Sort(Keys(v.members));
    var i :| 0 <= i < |keys| && keys[i] == k;
    assert CanonEntries(v, keys, num)[i] == CanonEntries(w, keys, num)[i];
  }

  /**
   * The canonical text is injective up to key order, at every nesting depth: the parser
   * recovers the canonical tree, and that tree is shared by no two different values.
   */
  lemma StringifyIdentifies(v: Json, w: Json, num: Double -> JsString)
    requires NumberPrinter(num) && WellFormed(v) && WellFormed(w) && Printable(v)
    ensures Stringify(v, num).Ok?
    ensures Stringify(v, num) == Stringify(w, num) <==> Same(v, w)
  {
    StringifyOkIff(v, num);
    StringifyOkIff(w, num);
    if Same(v, w) {
      SamePrintsAlike(v, w, num);
    }
    if Stringify(v, num) == Stringify(w, num) {
      ParsePrinted(v, num, []);
      ParsePrinted(w, num, []);
      CanonDecides(v, w, num);
    }
  }

  /** The canonical text is a complete JSON text by the grammar of RFC 8259. */
  lemma StringifyIsJsonText(v: Json, num: Double -> JsString)
    requires NumberPrinter(num) && Stringify(v, num).Ok?
    ensures IsJsonText(Stringify(v, num).value)
    ensures ParseValue(Stringify(v, num).value) == Some((Canon(v, num), []))
  {
    ParsePrinted(v, num, []);
    assert Stringify(v, num).value + [] == Stringify(v, num).value;
  }

  /**
   * Objects list every key once, in ascending order of code units: of two keys the one that
   * has the smaller unit, or ends, where they first differ is printed first.
   */
  lemma CanonKeysAscend(v: Json, num: Double -> JsString)
    requires WellFormed(v) && v.Object?
    ensures forall i, j :: 0 <= i < j < |Canon(v, num).entries| ==>
              var k, l := Canon(v, num).entries[i].0, Canon(v, num).entries[j].0;
              exists p: nat :: p <= |k| && p < |l| && k[..p] == l[..p] && (p == |k| || k[p] < l[p])
    ensures forall k :: HasKey(v.members, k) <==>
              exists i :: 0 <= i < |Canon(v, num).entries| && Canon(v, num).entries[i].0 == k
  {
    SortSorts(Keys(v.members));
    SortKeepsKeys(v.members);
    var keys := Sort(Keys(v.members));
    var es := Canon(v, num).entries;
    assert forall i :: 0 <= i < |es| ==> es[i].0 == keys[i];
    forall i, j | 0 <= i < j < |es|
      ensures Precedes(es[i].0, es[j].0)
    {
      assert Precedes(keys[i], keys[j]);
    }
    forall k | HasKey(v.members, k)
      ensures exists i :: 0 <= i < |es| && es[i].0 == k
    {
      var i :| 0 <= i < |keys| && keys[i] == k;
      assert es[i].0 == k;
    }
  }

  // ---- The text is well-formed UTF-16 ------------------------------------------------

  /** No unpaired surrogates. */
  predicate ValidUtf16(s: JsString) {
    s == []
    || (if High(s[0]) then |s| > 1 && Low(s[1]) && ValidUtf16(s[2..]) else !Low(s[0]) && ValidUtf16(s[1..]))
  }

  lemma {:induction false} ValidConcat(a: JsString, b: JsString)
    requires ValidUtf16(a) && ValidUtf16(b)
    ensures ValidUtf16(a + b)
    decreases |a|
  {
    if a == [] {
      assert a + b == b;
    } else if High(a[0]) {
      assert (a + b)[2..] == a[2..] + b;
      ValidConcat(a[2..], b);
    } else {
      assert (a + b)[1..] == a[1..] + b;
      ValidConcat(a[1..], b);
    }
  }

  lemma {:induction false} NoSurrogatesValid(s: JsString)
    requires forall i :: 0 <= i < |s| ==> s[i] < 0xD800
    ensures ValidUtf16(s)
    decreases |s|
  {
    if s != [] {
      NoSurrogatesValid(s[1..]);
    }
  }

  lemma EscapeUnitValid(u: Unit)
    ensures ValidUtf16(EscapeUnit(u))
  {
    NoSurrogatesValid(Hex4(u));
    if ShortEscape(u).Some? || u < 0x20 || High(u) || Low(u) {
      NoSurrogatesValid(EscapeUnit(u));
    } else {
      assert EscapeUnit(u)[1..] == [];
    }
  }

  lemma {:induction false} EscapeValid(s: JsString)
    ensures ValidUtf16(Escape(s))
    decreases |s|
  {
    if s == [] {
    } else if High(s[0]) && |s| > 1 && Low(s[1]) {
      EscapeValid(s[2..]);
      assert ValidUtf16(s[..2]) by {
        assert s[..2][2..] == [];
      }
      ValidConcat(s[..2], Escape(s[2..]));
    } else {
      EscapeValid(s[1..]);
      EscapeUnitValid(s[0]);
      ValidConcat(EscapeUnit(s[0]), Escape(s[1..]));
    }
  }

  lemma PunctuationValid(u: Unit)
    requires u < 0xD800
    ensures ValidUtf16([u])
  {
    NoSurrogatesValid([u]);
  }

  lemma QuoteValid(s: JsString)
    ensures ValidUtf16(Quote(s))
  {
    EscapeValid(s);
    PunctuationValid(QUOTE);
    ValidConcat([QUOTE], Escape(s));
    ValidConcat([QUOTE] + Escape(s), [QUOTE]);
  }

  lemma {:induction false} JoinValid(parts: seq<JsString>)
    requires forall i :: 0 <= i < |parts| ==> ValidUtf16(parts[i])
    ensures ValidUtf16(Join(parts))
  {
    if |parts| > 1 {
      JoinValid(parts[1..]);
      PunctuationValid(COMMA);
      ValidConcat(parts[0], [COMMA]);
      ValidConcat(parts[0] + [COMMA], Join(parts[1..]));
    }
  }

  lemma BracketsValid(open: Unit, parts: seq<JsString>, close: Unit)
    requires open < 0xD800 && close < 0xD800
    requires forall i :: 0 <= i < |parts| ==> ValidUtf16(parts[i])
    ensures ValidUtf16([open] + Join(parts) + [close])
  {
    JoinValid(parts);
    PunctuationValid(open);
    PunctuationValid(close);
    ValidConcat([open], Join(parts));
    ValidConcat([open] + Join(parts), [close]);
  }

  /** Strings and keys with lone surrogates are printed as escapes, so none is left. */
  lemma {:induction false} StringifyValid(v: Json, num: Double -> JsString)
    requires NumberPrinter(num) && Stringify(v, num).Ok?
    ensures Stringify(v, num).value != [] && ValidUtf16(Stringify(v, num).value)
    decreases v, 1, 0
  {
    match v
    case Null => NoSurrogatesValid(NULL_TEXT);
    case Bool(b) =>
      NoSurrogatesValid(TRUE_TEXT);
      NoSurrogatesValid(FALSE_TEXT);
    case Number(d) =>
      NumberTokenUnits(num(d));
      NoSurrogatesValid(num(d));
    case String(s) => QuoteValid(s);
    case Array(items) =>
      ItemsValid(v, 0, num);
      BracketsValid(LBRACKET, StringifyItems(v, 0, num).value, RBRACKET);
    case Object(ms) =>
      SortKeepsKeys(ms);
      EntriesValid(v, Sort(Keys(ms)), num);
      BracketsValid(LBRACE, StringifyEntries(v, Sort(Keys(ms)), num).value, RBRACE);
  }

  lemma {:induction false} ItemsValid(v: Json, from: nat, num: Double -> JsString)
    requires NumberPrinter(num) && v.Array? && from <= |v.items| && StringifyItems(v, from, num).Ok?
    ensures forall i :: 0 <= i < |StringifyItems(v, from, num).value| ==>
              ValidUtf16(StringifyItems(v, from, num).value[i])
    decreases v, 0, |v.items| - from
  {
    if from < |v.items| {
      StringifyValid(v.items[from], num);
      ItemsValid(v, from + 1, num);
    }
  }

  lemma {:induction false} EntriesValid(v: Json, keys: seq<JsString>, num: Double -> JsString)
    requires NumberPrinter(num) && v.Object? && (forall k :: k in keys ==> HasKey(v.members, k))
    requires StringifyEntries(v, keys, num).Ok?
    ensures forall i :: 0 <= i < |StringifyEntries(v, keys, num).value| ==>
              ValidUtf16(StringifyEntries(v, keys, num).value[i])
    decreases v, 0, |keys|
  {
    if keys != [] {
      var value := v.members[IndexOf(v.members, keys[0])].value;
      StringifyValid(value, num);
      QuoteValid(keys[0]);
      PunctuationValid(COLON);
      ValidConcat(Quote(keys[0]), [COLON]);
      ValidConcat(Quote(keys[0]) + [COLON], Stringify(value, num).value);
      EntriesValid(v, keys[1..], num);
    }
  }

  // ---- The assumption on numbers can be met ------------------------------------------

  function Units(s: string): JsString
    requires forall i :: 0 <= i < |s| ==> IsDigit(s[i])
  {
    seq(|s|, i requires 0 <= i < |s| => (0x30 + DigitValue(s[i])) as Unit)
  }

  /** A toy printer: the decimal form of the bits, with -0 printed as 0. */
  function BitsText(d: Double): JsString {
    Units(Print(if d == NEGATIVE_ZERO then POSITIVE_ZERO else d))
  }

  lemma NumberPrinterExists()
    ensures NumberPrinter(BitsText)
  {
    forall d: Double
      ensures IsNumberToken(BitsText(d))
    {
      BitsTextIsToken(d);
    }
    forall a: Double, b: Double
      ensures BitsText(a) == BitsText(b) <==> SameNumber(a, b)
    {
      BitsTextInjective(a, b);
    }
  }

  lemma BitsTextIsToken(d: Double)
    ensures IsNumberToken(BitsText(d))
  {
    var n := if d == NEGATIVE_ZERO then POSITIVE_ZERO else d;
    var s := BitsText(d);
    RunOfDigits(s);
    assert s[|s|..] == [];
    if n > 0 {
      PrintHead(n);
    }
  }

  lemma {:induction false} RunOfDigits(s: JsString)
    requires forall i :: 0 <= i < |s| ==> DigitUnit(s[i])
    ensures DigitRun(s) == |s|
  {
    if s != [] {
      RunOfDigits(s[1..]);
    }
  }

  lemma BitsTextInjective(a: Double, b: Double)
    ensures BitsText(a) == BitsText(b) <==> SameNumber(a, b)
  {
    var m, n := if a == NEGATIVE_ZERO then POSITIVE_ZERO else a, if b == NEGATIVE_ZERO then POSITIVE_ZERO else b;
    if BitsText(a) == BitsText(b) {
      assert |Print(m)| == |Print(n)|;
      forall i | 0 <= i < |Print(m)|
        ensures Print(m)[i] == Print(n)[i]
      {
        assert Units(Print(m))[i] == Units(Print(n))[i];
      }
      assert Print(m) == Print(n);
      ValueOfPrint(m);
      ValueOfPrint(n);
    }
  }
}
