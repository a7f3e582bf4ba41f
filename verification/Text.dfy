// Character-level vocabulary shared by the other modules: the string operations the
// gateway takes from JavaScript (trim, padStart, BigInt, parseInt, ...) written out on
// sequences of characters, and the facts about decimal digits everything else rests on.

module Text {
  datatype Option<+T> = None | Some(value: T)

  datatype Result<+T, +E> = Ok(value: T) | Err(error: E)

  // ---- White space -------------------------------------------------------------------

  /** The characters String.prototype.trim removes: WhiteSpace and LineTerminator. */
  predicate IsSpace(c: char) {
    || '\U{9}' <= c <= '\U{D}'
    || c in {' ', '\U{A0}', '\U{1680}', '\U{2028}', '\U{2029}', '\U{202F}', '\U{205F}', '\U{3000}', '\U{FEFF}'}
    || '\U{2000}' <= c <= '\U{200A}'
  }

  function TrimStart(s: string): string {
    if s != "" && IsSpace(s[0]) then TrimStart(s[1..]) else s
  }

  function TrimEnd(s: string): string {
    if s != "" && IsSpace(s[|s| - 1]) then TrimEnd(s[..|s| - 1]) else s
  }

  function Trim(s: string): string {
    TrimEnd(TrimStart(s))
  }

  predicate Blank(s: string) {
    Trim(s) == ""
  }

  predicate Trimmed(s: string) {
    s != "" ==> !IsSpace(s[0]) && !IsSpace(s[|s| - 1])
  }

  lemma TrimEndKeepsHead(s: string)
    requires s != "" && !IsSpace(s[0])
    ensures TrimEnd(s) != "" && TrimEnd(s)[0] == s[0]
  {
    if IsSpace(s[|s| - 1]) {
      TrimEndKeepsHead(s[..|s| - 1]);
    }
  }

  lemma TrimEndDone(s: string)
    ensures TrimEnd(s) != "" ==> !IsSpace(TrimEnd(s)[|TrimEnd(s)| - 1])
  {}

  lemma TrimStartDone(s: string)
    ensures TrimStart(s) != "" ==> !IsSpace(TrimStart(s)[0])
  {}

  lemma TrimIsTrimmed(s: string)
    ensures Trimmed(Trim(s))
  {
    TrimStartDone(s);
    TrimEndDone(TrimStart(s));
    if TrimStart(s) != "" {
      TrimEndKeepsHead(TrimStart(s));
    }
  }

  lemma TrimOfTrimmed(s: string)
    requires Trimmed(s)
    ensures Trim(s) == s
  {}

  /** White space of ECMAScript: the format controls, the Zs category and the line terminators. */
  lemma SpacesAre(c: char)
    ensures IsSpace(c) <==>
            c as int in {0x09, 0x0A, 0x0B, 0x0C, 0x0D, 0x20, 0xA0, 0x1680, 0x2000, 0x2001, 0x2002, 0x2003, 0x2004,
                         0x2005, 0x2006, 0x2007, 0x2008, 0x2009, 0x200A, 0x2028, 0x2029, 0x202F, 0x205F, 0x3000,
                         0xFEFF}
  {}

  ghost predicate AllSpace(s: string) {
    forall i :: 0 <= i < |s| ==> IsSpace(s[i])
  }

  /** Trim removes the white space at both ends, and nothing else. */
  lemma TrimIs(before: string, s: string, after: string)
    requires AllSpace(before) && AllSpace(after) && Trimmed(s)
    ensures Trim(before + s + after) == s
  {
    TrimStartIs(before, s + after);
    assert before + s + after == before + (s + after);
    TrimEndIs(s, after);
    if s == "" {
      assert s + after == after;
      TrimStartOfSpace(after);
    }
  }

  lemma {:induction false} TrimStartIs(before: string, s: string)
    requires AllSpace(before)
    ensures TrimStart(before + s) == TrimStart(s)
  {
    if before == "" {
      assert before + s == s;
    } else {
      assert (before + s)[1..] == before[1..] + s;
      TrimStartIs(before[1..], s);
    }
  }

  lemma {:induction false} TrimStartOfSpace(s: string)
    requires AllSpace(s)
    ensures TrimStart(s) == ""
  {
    if s != "" {
      TrimStartOfSpace(s[1..]);
    }
  }

  lemma {:induction false} TrimEndIs(s: string, after: string)
    requires AllSpace(after)
    ensures TrimEnd(s + after) == TrimEnd(s)
  {
    if after == "" {
      assert s + after == s;
    } else {
      assert (s + after)[..|s + after| - 1] == s + after[..|after| - 1];
      TrimEndIs(s, after[..|after| - 1]);
    }
  }

  /** Every text is some trimmed text between white space. */
  lemma TrimParts(s: string) returns (before: string, after: string)
    ensures AllSpace(before) && AllSpace(after) && s == before + Trim(s) + after && Trimmed(Trim(s))
  {
    before := TrimStartCuts(s);
    after := TrimEndCuts(TrimStart(s));
    TrimIsTrimmed(s);
  }

  lemma {:induction false} TrimStartCuts(s: string) returns (before: string)
    ensures AllSpace(before) && s == before + TrimStart(s)
  {
    before := "";
    if s != "" && IsSpace(s[0]) {
      var rest := TrimStartCuts(s[1..]);
      before := [s[0]] + rest;
      assert s == [s[0]] + s[1..];
    }
  }

  lemma {:induction false} TrimEndCuts(s: string) returns (after: string)
    ensures AllSpace(after) && s == TrimEnd(s) + after
  {
    after := "";
    if s != "" && IsSpace(s[|s| - 1]) {
      var rest := TrimEndCuts(s[..|s| - 1]);
      after := rest + [s[|s| - 1]];
      assert s == s[..|s| - 1] + [s[|s| - 1]];
    }
  }

  lemma TrimIdempotent(s: string)
    ensures Trim(Trim(s)) == Trim(s)
  {
    TrimIsTrimmed(s);
    TrimOfTrimmed(Trim(s));
  }

  // ---- Decimal digits ----------------------------------------------------------------

  predicate IsDigit(c: char) {
    '0' <= c <= '9'
  }

  /** The regular expression /^\d*$/. */
  predicate AllDigits(s: string) {
    forall i :: 0 <= i < |s| ==> IsDigit(s[i])
  }

  function DigitValue(c: char): nat
    requires IsDigit(c)
  {
    c as int - '0' as int
  }

  function DigitChar(d: nat): char
    requires d < 10
  {
    (d + '0' as int) as char
  }

  function Pow10(n: nat): nat {
    if n == 0 then 1 else 10 * Pow10(n - 1)
  }

  /** v * 10^n, by repeated multiplication (ShiftIsProduct). */
  function Shift(v: nat, n: nat): nat {
    if n == 0 then v else 10 * Shift(v, n - 1)
  }

  /** BigInt(s) for a string of digits; the empty string reads as 0. */
  function Value(s: string): nat
    requires AllDigits(s)
  {
    if s == "" then 0 else 10 * Value(s[..|s| - 1]) + DigitValue(s[|s| - 1])
  }

  /** (n).toString() for a non-negative BigInt. */
  function Print(n: nat): (s: string)
    ensures s != "" && AllDigits(s)
  {
    if n < 10 then [DigitChar(n)] else Print(n / 10) + [DigitChar(n % 10)]
  }

  function PrintInt(n: int): string {
    if n < 0 then "-" + Print(-n) else Print(n)
  }

  function Zeros(n: nat): (s: string)
    ensures |s| == n && AllDigits(s)
    ensures forall i :: 0 <= i < n ==> s[i] == '0'
  {
    seq(n, _ => '0')
  }

  function PadStart(s: string, width: nat): string {
    if |s| < width then Zeros(width - |s|) + s else s
  }

  function StripLeadingZeros(s: string): string {
    if s != "" && s[0] == '0' then StripLeadingZeros(s[1..]) else s
  }

  function StripTrailingZeros(s: string): string {
    if s != "" && s[|s| - 1] == '0' then StripTrailingZeros(s[..|s| - 1]) else s
  }

  lemma Pow10Positive(n: nat)
    ensures Pow10(n) >= 1
  {}

  lemma {:induction false} Pow10Add(a: nat, b: nat)
    ensures Pow10(a + b) == Pow10(a) * Pow10(b)
  {
    if a > 0 {
      Pow10Add(a - 1, b);
    }
  }

  lemma Pow10Monotone(a: nat, b: nat)
    requires a <= b
    ensures Pow10(a) <= Pow10(b)
  {
    if a < b {
      Pow10Monotone(a, b - 1);
    }
  }

  lemma {:induction false} ValueOfPrint(n: nat)
    ensures Value(Print(n)) == n
  {
    if n >= 10 {
      ValueOfPrint(n / 10);
      assert Print(n)[..|Print(n)| - 1] == Print(n / 10);
    }
  }

  lemma {:induction false} ShiftIsProduct(v: nat, n: nat)
    ensures Shift(v, n) == v * Pow10(n)
  {
    if n > 0 {
      ShiftIsProduct(v, n - 1);
      Regroup(v, Pow10(n - 1));
    }
  }

  lemma Regroup(x: int, p: int)
    ensures 10 * (x * p) == x * (10 * p)
  {}

  lemma ShiftOfZero(n: nat)
    ensures Shift(0, n) == 0
  {}

  lemma ShiftGrows(v: nat, n: nat)
    ensures Shift(v, n) >= v
  {}

  lemma {:induction false} ShiftTen(v: nat, n: nat)
    ensures Shift(10 * v, n) == 10 * Shift(v, n)
  {
    if n > 0 {
      ShiftTen(v, n - 1);
    }
  }

  lemma {:induction false} ValueAppend(a: string, b: string)
    requires AllDigits(a) && AllDigits(b)
    ensures AllDigits(a + b)
    ensures Value(a + b) == Shift(Value(a), |b|) + Value(b)
  {
    if b == "" {
      assert a + b == a;
    } else {
      ValueAppend(a, b[..|b| - 1]);
      assert (a + b)[..|a + b| - 1] == a + b[..|b| - 1];
    }
  }

  lemma {:induction false} ValueBound(s: string)
    requires AllDigits(s)
    ensures Value(s) < Pow10(|s|)
  {
    if s != "" {
      ValueBound(s[..|s| - 1]);
    }
  }

  lemma {:induction false} ValueOfZeros(n: nat)
    ensures Value(Zeros(n)) == 0
  {
    if n > 0 {
      assert Zeros(n)[..n - 1] == Zeros(n - 1);
      ValueOfZeros(n - 1);
    }
  }

  lemma {:induction false} PrintLength(n: nat, k: nat)
    requires k >= 1 && n < Pow10(k)
    ensures |Print(n)| <= k
  {
    if n >= 10 {
      assert Pow10(1) == 10;
      assert n / 10 < Pow10(k - 1);
      PrintLength(n / 10, k - 1);
    }
  }

  lemma {:induction false} PrintHead(n: nat)
    requires n > 0
    ensures Print(n)[0] != '0'
  {
    if n >= 10 {
      PrintHead(n / 10);
    }
  }

  /** A printed number is trimmed text, so trim leaves it alone. */
  lemma DigitsAreTrimmed(s: string)
    requires AllDigits(s)
    ensures Trim(s) == s
  {
    assert forall c :: IsDigit(c) ==> !IsSpace(c);
    TrimOfTrimmed(s);
  }

  lemma {:induction false} ValueOfStripLeading(s: string)
    requires AllDigits(s)
    ensures AllDigits(StripLeadingZeros(s))
    ensures Value(StripLeadingZeros(s)) == Value(s)
  {
    if s != "" && s[0] == '0' {
      ValueOfStripLeading(s[1..]);
      assert s == Zeros(1) + s[1..];
      ValueOfZeros(1);
      ValueAppend(Zeros(1), s[1..]);
      ShiftOfZero(|s[1..]|);
    }
  }

  lemma {:induction false} StripTrailingShape(s: string)
    ensures |StripTrailingZeros(s)| <= |s|
    ensures s == StripTrailingZeros(s) + Zeros(|s| - |StripTrailingZeros(s)|)
  {
    if s != "" && s[|s| - 1] == '0' {
      var init := s[..|s| - 1];
      StripTrailingShape(init);
      var t := StripTrailingZeros(init);
      assert Zeros(|s| - |t|) == Zeros(|init| - |t|) + ['0'];
      assert s == init + ['0'];
    }
  }

  // ---- Number parsing ----------------------------------------------------------------

  function HexValue(c: char): Option<nat> {
    if IsDigit(c) then Some(DigitValue(c))
    else if 'a' <= c <= 'f' then Some(c as int - 'a' as int + 10)
    else if 'A' <= c <= 'F' then Some(c as int - 'A' as int + 10)
    else None
  }

  /** Digits of a 0x, 0o or 0b literal. */
  function RadixValue(s: string, radix: nat): Option<nat> {
    if s == "" then Some(0)
    else
      var init := RadixValue(s[..|s| - 1], radix);
      var last := HexValue(s[|s| - 1]);
      if init.None? || last.None? || last.value >= radix then None
      else Some(init.value * radix + last.value)
  }

  /** BigInt(s) for an already trimmed string; None where it throws a SyntaxError. */
  function BigIntOf(s: string): Option<int> {
    if s == "" then Some(0)
    else if AllDigits(s) then Some(Value(s))
    else if |s| > 1 && s[0] == '-' && AllDigits(s[1..]) then Some(0 - Value(s[1..]))
    else if |s| > 1 && s[0] == '+' && AllDigits(s[1..]) then Some(Value(s[1..]))
    else if |s| > 2 && s[0] == '0' && s[1] in {'x', 'X'} then RadixValue(s[2..], 16)
    else if |s| > 2 && s[0] == '0' && s[1] in {'o', 'O'} then RadixValue(s[2..], 8)
    else if |s| > 2 && s[0] == '0' && s[1] in {'b', 'B'} then RadixValue(s[2..], 2)
    else None
  }

  lemma BigIntOfPrint(n: nat)
    ensures BigIntOf(Print(n)) == Some(n)
  {
    ValueOfPrint(n);
  }

  function DigitPrefix(s: string): (r: string)
    ensures AllDigits(r)
  {
    if s != "" && IsDigit(s[0]) then [s[0]] + DigitPrefix(s[1..]) else ""
  }

  lemma DigitPrefixOfDigits(s: string)
    requires AllDigits(s)
    ensures DigitPrefix(s) == s
  {
    if s != "" {
      DigitPrefixOfDigits(s[1..]);
    }
  }

  /** The number of the digits, if there are any. */
  function Signed(negative: bool, digits: string): (n: Option<int>)
    requires AllDigits(digits)
    ensures n.Some? <==> digits != ""
    ensures n.Some? ==> Value(digits) == if negative then -n.value else n.value
  {
    if digits == "" then None else if negative then Some(0 - Value(digits)) else Some(Value(digits))
  }

  /** parseInt(s, 10); None stands for NaN. */
  function ParseInt(s: string): Option<int> {
    var t := TrimStart(s);
    var negative := t != "" && t[0] == '-';
    var body := if t != "" && t[0] in {'-', '+'} then t[1..] else t;
    Signed(negative, DigitPrefix(body))
  }

  lemma ParseIntOfPrintInt(n: int)
    ensures ParseInt(PrintInt(n)) == Some(n)
  {
    var p := Print(if n < 0 then -n else n);
    NoSpaceAhead(PrintInt(n));
    DigitPrefixOfDigits(p);
    ValueOfPrint(if n < 0 then -n else n);
  }

  /** parseInt skips leading white space, takes an optional sign and all digits before the first other character. */
  lemma ParseIntReads(before: string, sign: string, digits: string, rest: string)
    requires AllSpace(before) && sign in ["", "-", "+"] && AllDigits(digits)
    requires rest != "" ==> !IsDigit(rest[0])
    requires digits == "" && sign == "" && rest != "" ==> !IsSpace(rest[0]) && rest[0] !in {'-', '+'}
    ensures ParseInt(before + (sign + (digits + rest))) == Signed(sign == "-", digits)
  {
    ParseIntSkips(before, sign + (digits + rest));
    ParseIntSigned(sign, digits, rest);
  }

  lemma ParseIntSkips(before: string, t: string)
    requires AllSpace(before)
    ensures ParseInt(before + t) == ParseInt(t)
  {
    TrimStartIs(before, t);
  }

  lemma ParseIntSigned(sign: string, digits: string, rest: string)
    requires sign in ["", "-", "+"] && AllDigits(digits) && (rest != "" ==> !IsDigit(rest[0]))
    requires digits == "" && sign == "" && rest != "" ==> !IsSpace(rest[0]) && rest[0] !in {'-', '+'}
    ensures ParseInt(sign + (digits + rest)) == Signed(sign == "-", digits)
  {
    SignAhead(sign, digits + rest);
    DigitPrefixStops(digits, rest);
    assert digits != "" ==> IsDigit((digits + rest)[0]);
  }

  /** A sign, or what follows if there is none, ends the white space. */
  lemma SignAhead(sign: string, body: string)
    requires sign in ["", "-", "+"] && (sign == "" && body != "" ==> !IsSpace(body[0]))
    ensures TrimStart(sign + body) == sign + body && (sign != "" ==> (sign + body)[1..] == body)
    ensures sign == "" ==> sign + body == body
  {}

  lemma {:induction false} DigitPrefixStops(digits: string, rest: string)
    requires AllDigits(digits) && (rest != "" ==> !IsDigit(rest[0]))
    ensures DigitPrefix(digits + rest) == digits
  {
    if digits == "" {
      assert digits + rest == rest;
    } else {
      assert (digits + rest)[1..] == digits[1..] + rest;
      DigitPrefixStops(digits[1..], rest);
    }
  }

  const HEX_DIGITS := "0123456789abcdef"

  /** A hexadecimal digit stands for its place among them, in either case; no other character is one. */
  lemma HexDigitsAre(h: nat, c: char)
    requires h < 16
    ensures HexValue(HEX_DIGITS[h]) == Some(h) && HexValue(UpperChar(HEX_DIGITS[h])) == Some(h)
    ensures LowerChar(c) !in HEX_DIGITS ==> HexValue(c) == None
  {
    if HexValue(c).Some? {
      assert HEX_DIGITS[HexValue(c).value] == LowerChar(c);
    }
  }

  lemma TwoDigits(s: string, radix: nat)
    requires |s| == 2 && HexValue(s[0]).Some? && HexValue(s[1]).Some?
    requires HexValue(s[0]).value < radix && HexValue(s[1]).value < radix
    ensures RadixValue(s, radix) == Some(HexValue(s[0]).value * radix + HexValue(s[1]).value)
  {
    var init := s[..1];
    assert init[..0] == "" && RadixValue("", radix) == Some(0);
    assert RadixValue(init, radix) == Some(HexValue(s[0]).value);
  }

  lemma OneDigit(s: string, radix: nat)
    requires |s| == 1 && HexValue(s[0]).Some? && HexValue(s[0]).value >= radix
    ensures RadixValue(s, radix) == None
  {}

  /** BigInt reads literals of three other bases, in either case of the letter. */
  lemma BigIntHex()
    ensures BigIntOf("0x1F") == Some(31) && BigIntOf("0X1f") == Some(31)
  {
    assert !IsDigit("0x1F"[1]) && !IsDigit("0X1f"[1]);
    assert "0x1F"[2..] == "1F" && "0X1f"[2..] == "1f";
    TwoDigits("1F", 16);
    TwoDigits("1f", 16);
  }

  lemma BigIntOctal()
    ensures BigIntOf("0o17") == Some(15) && BigIntOf("0O17") == Some(15)
  {
    assert !IsDigit("0o17"[1]) && !IsDigit("0O17"[1]);
    assert "0o17"[2..] == "17" && "0O17"[2..] == "17";
    TwoDigits("17", 8);
  }

  lemma BigIntBinary()
    ensures BigIntOf("0b11") == Some(3) && BigIntOf("0B11") == Some(3)
  {
    assert !IsDigit("0b11"[1]) && !IsDigit("0B11"[1]);
    assert "0b11"[2..] == "11" && "0B11"[2..] == "11";
    TwoDigits("11", 2);
  }

  /** A digit too large for its base makes a text none. */
  lemma BigIntDigits()
    ensures BigIntOf("0o8") == None && BigIntOf("0b2") == None && BigIntOf("0xg") == None
  {
    assert "0o8"[2..] == "8" && "0b2"[2..] == "2" && "0xg"[2..] == "g";
    OneDigit("8", 8);
    OneDigit("2", 2);
  }

  /** Signs go with decimal digits only, and white space within a text is not skipped. */
  lemma BigIntSigns()
    ensures BigIntOf("") == Some(0) && BigIntOf("+7") == Some(7) && BigIntOf("-7") == Some(-7)
    ensures BigIntOf("-") == None && BigIntOf("0x") == None && BigIntOf("1.5") == None && BigIntOf("5 ") == None
    ensures BigIntOf("-0x1") == None
  {
    assert "+7"[1..] == "7" && "-7"[1..] == "7" && "7"[..0] == "";
    assert !IsDigit("-0x1"[1..][1]);
  }

  lemma NoSpaceAhead(s: string)
    requires s != "" && (IsDigit(s[0]) || s[0] == '-')
    ensures TrimStart(s) == s
  {}

  // ---- Letter case (ASCII) -----------------------------------------------------------

  function LowerChar(c: char): char {
    if 'A' <= c <= 'Z' then (c as int + 32) as char else c
  }

  function UpperChar(c: char): char {
    if 'a' <= c <= 'z' then (c as int - 32) as char else c
  }

  const CAPITALS := "ABCDEFGHIJKLMNOPQRSTUVWXYZ"
  const SMALLS := "abcdefghijklmnopqrstuvwxyz"

  /** Either way a letter becomes the one at its place in the other alphabet, and no other character changes. */
  lemma LettersAre(k: nat, c: char)
    requires k < 26
    ensures LowerChar(CAPITALS[k]) == SMALLS[k] && UpperChar(SMALLS[k]) == CAPITALS[k]
    ensures c !in CAPITALS ==> LowerChar(c) == c
    ensures c !in SMALLS ==> UpperChar(c) == c
  {
    if 'A' <= c <= 'Z' {
      assert CAPITALS[c as int - 'A' as int] == c;
    }
    if 'a' <= c <= 'z' {
      assert SMALLS[c as int - 'a' as int] == c;
    }
  }

  function Lower(s: string): string {
    if s == "" then "" else [LowerChar(s[0])] + Lower(s[1..])
  }

  function Upper(s: string): string {
    if s == "" then "" else [UpperChar(s[0])] + Upper(s[1..])
  }

  lemma {:induction false} UpperTwice(s: string)
    ensures Upper(Upper(s)) == Upper(s)
  {
    if s != "" {
      UpperTwice(s[1..]);
      assert Upper(s)[1..] == Upper(s[1..]);
    }
  }

  lemma UpperTrimmed(s: string)
    requires Trimmed(s)
    ensures Trimmed(Upper(s))
  {
    UpperAt(s);
  }

  lemma {:induction false} UpperAt(s: string)
    ensures |Upper(s)| == |s| && forall i :: 0 <= i < |s| ==> Upper(s)[i] == UpperChar(s[i])
  {
    if s != "" {
      UpperAt(s[1..]);
      assert s == [s[0]] + s[1..];
    }
  }
}
