// Atomic integers to decimal strings and back: the gateway's amount printer, its parser
// for the optional deposit amount, and the administrator's six-decimal USDT codec.

module Amounts {
  import opened Text

  datatype AmountError = AmountTooLong | AmountInvalid | AmountMustBePositive | AmountTooLarge

  const MAX_REASONABLE := Pow10(24)
  const MAX_LENGTH := 80
  const USDT_DECIMALS := 6

  // ---- Printer -----------------------------------------------------------------------

  function ClampDecimals(decimals: int): (dec: nat)
    ensures dec <= 36 && (0 <= decimals <= 36 ==> dec == decimals)
  {
    if decimals < 0 then 0 else if decimals > 36 then 36 else decimals
  }

  /** Quotient and remainder of natural numbers by repeated subtraction. */
  function Div(n: nat, p: nat): nat
    requires p > 0
  {
    if n < p then 0 else 1 + Div(n - p, p)
  }

  function Mod(n: nat, p: nat): nat
    requires p > 0
  {
    if n < p then n else Mod(n - p, p)
  }

  lemma {:induction false} DivMod(n: nat, p: nat)
    requires p > 0
    ensures Div(n, p) * p + Mod(n, p) == n
  {
    if n >= p {
      DivMod(n - p, p);
    }
  }

  lemma ModBound(n: nat, p: nat)
    requires p > 0
    ensures Mod(n, p) < p && Div(n, p) <= n
  {}

  lemma SmallMultiple(k: int, p: nat)
    requires p > 0 && -(p as int) < k * p < p
    ensures k == 0
  {}

  /** They are Dafny's own quotient and remainder. */
  lemma DivIsQuotient(n: nat, p: nat)
    requires p > 0
    ensures Div(n, p) == n / p && Mod(n, p) == n % p
  {
    var q, r := n / p, n % p;
    DivMod(n, p);
    ModBound(n, p);
    assert n == q * p + r && 0 <= r < p;
    assert (Div(n, p) - q) * p == r - Mod(n, p) by {
      assert Div(n, p) * p - q * p == (Div(n, p) - q) * p;
    }
    SmallMultiple(Div(n, p) - q, p);
  }

  /** BigInt division and remainder truncate toward zero. */
  function TruncDiv(a: int, b: nat): int
    requires b > 0
  {
    if a >= 0 then Div(a, b) else -(Div(-a, b) as int)
  }

  function TruncMod(a: int, b: nat): int
    requires b > 0
  {
    if a >= 0 then Mod(a, b) else -(Mod(-a, b) as int)
  }

  function FormatAtomic(raw: string, decimals: int): string {
    match BigIntOf(Trim(raw))
    case None => raw
    case Some(n) => FormatBig(n, ClampDecimals(decimals))
  }

  function FormatBig(n: int, dec: nat): string {
    if dec == 0 then PrintInt(n)
    else
      Pow10Positive(dec);
      JoinParts(TruncDiv(n, Pow10(dec)), TruncMod(n, Pow10(dec)), dec)
  }

  function JoinParts(whole: int, frac: int, dec: nat): string {
    var fs := StripTrailingZeros(PadStart(PrintInt(frac), dec));
    if fs != "" then PrintInt(whole) + "." + fs else PrintInt(whole)
  }

  // ---- Parser of the optional gateway amount -----------------------------------------

  function DotIndex(s: string): (i: nat)
    ensures i <= |s| && (i < |s| ==> s[i] == '.') && '.' !in s[..i]
  {
    if s == "" || s[0] == '.' then 0 else 1 + DotIndex(s[1..])
  }

  function DecimalPartsToAtomic(whole: string, frac: string, tokenDecimals: int): nat
    requires AllDigits(whole) && AllDigits(frac)
  {
    var dec := ClampDecimals(tokenDecimals);
    Shift(Value(whole), dec) + FracToAtomic(frac, dec)
  }

  /** Slice to dec digits, pad on the right, slice again. */
  function FracToAtomic(frac: string, dec: nat): nat
    requires AllDigits(frac)
  {
    var kept := if |frac| < dec then frac else frac[..dec];
    Value((kept + Zeros(dec))[..dec])
  }

  function Bounded(atomic: nat): Result<Option<string>, AmountError> {
    if atomic == 0 then Err(AmountMustBePositive)
    else if atomic > MAX_REASONABLE then Err(AmountTooLarge)
    else Ok(Some(Print(atomic)))
  }

  /** raw is None for null or undefined, otherwise String(raw). */
  function ParseDepositAmount(raw: Option<string>, tokenDecimals: int): Result<Option<string>, AmountError> {
    if raw.None? || Trim(raw.value) == "" then Ok(None)
    else
      var s := Trim(raw.value);
      if |s| > MAX_LENGTH then Err(AmountTooLong)
      else if '.' !in s then
        if !AllDigits(s) then Err(AmountInvalid)
        else
          var stripped := StripLeadingZeros(s);
          ValueOfStripLeading(s);
          if stripped == "" then Err(AmountMustBePositive)
          else Bounded(Shift(Value(stripped), ClampDecimals(tokenDecimals)))
      else
        var dot := DotIndex(s);
        var w, f := s[..dot], s[dot + 1..];
        if '.' in f || !AllDigits(w) || !AllDigits(f) then Err(AmountInvalid)
        else
          var whole := if w == "" then "0" else w;
          if whole == "0" && StripLeadingZeros(f) == "" then Err(AmountMustBePositive)
          else Bounded(DecimalPartsToAtomic(whole, f, tokenDecimals))
  }

  // ---- What a decimal string means ---------------------------------------------------

  function WholePart(s: string): string {
    s[..DotIndex(s)]
  }

  function FracPart(s: string): string {
    if DotIndex(s) < |s| then s[DotIndex(s) + 1..] else ""
  }

  /** Digits with at most one dot, and something besides nothing. */
  predicate WellFormed(s: string) {
    s != "" && AllDigits(WholePart(s)) && AllDigits(FracPart(s))
  }

  /** Positional value of the digits after the dot. */
  function FracValue(f: string): (x: real)
    requires AllDigits(f)
    ensures 0.0 <= x < 1.0
  {
    if f == "" then 0.0 else (DigitValue(f[0]) as real + FracValue(f[1..])) / 10.0
  }

  /** The number the string denotes. */
  function Amount(s: string): real
    requires WellFormed(s)
  {
    Value(WholePart(s)) as real + FracValue(FracPart(s))
  }

  /** x times 10^n. */
  function Scale(x: real, n: nat): real
    decreases n
  {
    if n == 0 then x else Scale(10.0 * x, n - 1)
  }

  /** The scale is a power of ten. */
  lemma {:induction false} ScaleIs(x: real, n: nat)
    ensures Scale(x, n) == x * Pow10(n) as real
    decreases n
  {
    if n > 0 {
      ScaleIs(10.0 * x, n - 1);
      assert Pow10(n) as real == 10.0 * Pow10(n - 1) as real;
      assert (10.0 * x) * Pow10(n - 1) as real == x * (10.0 * Pow10(n - 1) as real);
    }
  }

  /** Digits, or digits around one dot, are well-formed, and denote the sum of whole number and fraction. */
  lemma WellFormedIs(w: string, f: string)
    requires AllDigits(w) && AllDigits(f)
    ensures w != "" ==> WellFormed(w) && Amount(w) == Value(w) as real
    ensures WellFormed(w + "." + f) && Amount(w + "." + f) == Value(w) as real + FracValue(f)
  {
    SplitAt(w, f);
    if w != "" {
      DotIndexNone(w);
      assert WholePart(w) == w && FracPart(w) == "";
    }
  }

  predicate Makes(x: real, p: nat, v: nat) {
    x * p as real == v as real
  }

  /** A fraction of n digits is their number divided by 10^n. */
  lemma {:induction false} FractionIs(f: string)
    requires AllDigits(f)
    ensures Makes(FracValue(f), Pow10(|f|), Value(f))
  {
    if f == "" {
      assert Makes(0.0, 1, 0);
    } else {
      FractionIs(f[1..]);
      FractionHead(f);
      ShiftIsProduct(DigitValue(f[0]), |f| - 1);
      FractionStep(
        DigitValue(f[0]), FracValue(f[1..]), Pow10(|f| - 1), Value(f[1..]), FracValue(f), Pow10(|f|), Value(f));
    }
  }

  lemma FractionHead(f: string)
    requires f != "" && AllDigits(f)
    ensures AllDigits(f[1..]) && Value(f) == Shift(DigitValue(f[0]), |f| - 1) + Value(f[1..])
  {
    OneDigitValue(f[0]);
    assert f == [f[0]] + f[1..];
    ValueAppend([f[0]], f[1..]);
  }

  lemma OneDigitValue(c: char)
    requires IsDigit(c)
    ensures AllDigits([c]) && Value([c]) == DigitValue(c)
  {
    assert [c][..0] == "";
  }

  lemma FractionStep(d: nat, x: real, p: nat, v: nat, y: real, q: nat, w: nat)
    requires Makes(x, p, v) && y == (d as real + x) / 10.0 && q == 10 * p && w == d * p + v
    ensures Makes(y, q, w)
  {
    assert q as real == 10.0 * p as real;
    assert y * (10.0 * p as real) == (d as real + x) * p as real;
    assert (d as real + x) * p as real == d as real * p as real + x * p as real;
    assert d as real * p as real == (d * p) as real;
  }

  /** The number in atomic units, rounded down. */
  function FloorAtomic(s: string, decimals: int): int
    requires WellFormed(s)
  {
    Scale(Amount(s), ClampDecimals(decimals)).Floor
  }

  lemma DotStep(w: string, f: string)
    requires AllDigits(w) && AllDigits(f)
    ensures AllDigits(w + "0") && Value(w + "0") == 10 * Value(w)
    ensures f != "" ==>
              && AllDigits(w + f[..1])
              && 10.0 * (Value(w) as real + FracValue(f)) == Value(w + f[..1]) as real + FracValue(f[1..])
  {
    assert (w + "0")[..|w|] == w;
    if f != "" {
      assert (w + f[..1])[..|w|] == w;
    }
  }

  lemma KeptDigits(w: string, f: string, dec: nat)
    ensures f == "" ==> w + (f + Zeros(dec + 1))[..dec + 1] == (w + "0") + (f + Zeros(dec))[..dec]
    ensures f != "" ==> w + (f + Zeros(dec + 1))[..dec + 1] == (w + f[..1]) + (f[1..] + Zeros(dec))[..dec]
  {}

  /** One step of the shift: both sides see the next digit, or a zero, join the whole part. */
  lemma ShiftOne(w: string, f: string, dec: nat)
    requires AllDigits(w) && AllDigits(f)
    ensures var next, rest := if f == "" then w + "0" else w + f[..1], if f == "" then f else f[1..];
            && AllDigits(next) && AllDigits(rest)
            && Kept(w, f, dec + 1) == Kept(next, rest, dec)
            && 10.0 * (Value(w) as real + FracValue(f)) == Value(next) as real + FracValue(rest)
  {
    DotStep(w, f);
    KeptDigits(w, f, dec);
  }

  /** The digits of w, then the first dec digits of f, short ones padded with zeros. */
  function Kept(w: string, f: string, dec: nat): string {
    w + (f + Zeros(dec))[..dec]
  }

  lemma ScaleStep(x: real, y: real, dec: nat)
    requires 10.0 * x == y
    ensures Scale(x, dec + 1) == Scale(y, dec)
  {}

  /** Scaling moves the dot: the digits slicing and padding keep are the floor. */
  lemma {:induction false} ShiftDot(w: string, f: string, dec: nat)
    requires AllDigits(w) && AllDigits(f)
    ensures AllDigits(Kept(w, f, dec))
    ensures Scale(Value(w) as real + FracValue(f), dec).Floor == Value(Kept(w, f, dec))
    decreases dec
  {
    if dec == 0 {
      assert Kept(w, f, dec) == w;
    } else {
      var next, rest := if f == "" then w + "0" else w + f[..1], if f == "" then f else f[1..];
      ShiftOne(w, f, dec - 1);
      ShiftDot(next, rest, dec - 1);
      ScaleStep(Value(w) as real + FracValue(f), Value(next) as real + FracValue(rest), dec - 1);
    }
  }

  lemma DecimalPartsFloor(s: string, decimals: int)
    requires WellFormed(s)
    ensures DecimalPartsToAtomic(WholePart(s), FracPart(s), decimals) == FloorAtomic(s, decimals)
  {
    var w, f, dec := WholePart(s), FracPart(s), ClampDecimals(decimals);
    var kept := if |f| < dec then f else f[..dec];
    assert (kept + Zeros(dec))[..dec] == (f + Zeros(dec))[..dec];
    ValueAppend(w, (f + Zeros(dec))[..dec]);
    ShiftDot(w, f, dec);
  }

  lemma DotIndexNone(s: string)
    ensures '.' !in s <==> DotIndex(s) == |s|
  {}

  lemma ZeroValue(s: string)
    requires AllDigits(s)
    ensures StripLeadingZeros(s) == "" <==> Value(s) == 0
  {
    ValueOfStripLeading(s);
    var t := StripLeadingZeros(s);
    if t != "" {
      StripLeadingHead(s);
      assert t == t[..1] + t[1..];
      ValueAppend(t[..1], t[1..]);
      assert t[..1][..0] == "";
      assert Value(t[..1]) == DigitValue(t[0]) >= 1;
      ShiftGrows(Value(t[..1]), |t[1..]|);
    }
  }

  lemma StripLeadingHead(s: string)
    ensures StripLeadingZeros(s) != "" ==> StripLeadingZeros(s)[0] != '0'
  {}

  lemma WholeOnly(s: string, decimals: int)
    requires s != "" && AllDigits(s)
    ensures WellFormed(s) && FloorAtomic(s, decimals) == Shift(Value(s), ClampDecimals(decimals))
  {
    DotIndexNone(s);
    assert WholePart(s) == s && FracPart(s) == "";
    DecimalPartsFloor(s, decimals);
    var dec := ClampDecimals(decimals);
    assert ("" + Zeros(dec))[..dec] == Zeros(dec);
    ValueOfZeros(dec);
  }

  /**
   * Parsing is exact flooring. For every raw value and every number of decimals the
   * outcome is decided by the trimmed text's length, its grammar, and the floor of the
   * number it denotes times 10^decimals; in particular a well-formed text of at most 80
   * characters is rejected exactly when that floor is 0 or above 10^24.
   */
  lemma ParseIsExactFlooring(raw: Option<string>, decimals: int)
    ensures ParseDepositAmount(raw, decimals) ==
            if raw.None? || Trim(raw.value) == "" then Ok(None)
            else if |Trim(raw.value)| > 80 then Err(AmountTooLong)
            else if !WellFormed(Trim(raw.value)) then Err(AmountInvalid)
            else
              var dec := if decimals < 0 then 0 else if decimals > 36 then 36 else decimals;
              var floor := Scale(Amount(Trim(raw.value)), dec).Floor;
              if floor <= 0 then Err(AmountMustBePositive)
              else if floor > Pow10(24) then Err(AmountTooLarge)
              else Ok(Some(Print(floor)))
  {
    if raw.Some? && Trim(raw.value) != "" && |Trim(raw.value)| <= 80 {
      var s := Trim(raw.value);
      DotIndexNone(s);
      if '.' !in s {
        ParseWhole(raw, decimals);
      } else {
        ParseDotted(raw, decimals);
      }
    }
  }

  /** Outcome by floor, shared by both branches. */
  function ByFloor(s: string, decimals: int): Result<Option<string>, AmountError> {
    if !WellFormed(s) then Err(AmountInvalid)
    else if FloorAtomic(s, decimals) <= 0 then Err(AmountMustBePositive)
    else if FloorAtomic(s, decimals) > Pow10(24) then Err(AmountTooLarge)
    else Ok(Some(Print(FloorAtomic(s, decimals))))
  }

  lemma ParseWhole(raw: Option<string>, decimals: int)
    requires raw.Some? && Trim(raw.value) != "" && |Trim(raw.value)| <= 80 && '.' !in Trim(raw.value)
    ensures ParseDepositAmount(raw, decimals) == ByFloor(Trim(raw.value), decimals)
  {
    var s := Trim(raw.value);
    DotIndexNone(s);
    assert WholePart(s) == s;
    if AllDigits(s) {
      WholeOnly(s, decimals);
      ValueOfStripLeading(s);
      ZeroValue(s);
      ShiftOfZero(ClampDecimals(decimals));
      ShiftGrows(Value(s), ClampDecimals(decimals));
    }
  }

  lemma ParseDotted(raw: Option<string>, decimals: int)
    requires raw.Some? && Trim(raw.value) != "" && |Trim(raw.value)| <= 80 && '.' in Trim(raw.value)
    ensures ParseDepositAmount(raw, decimals) == ByFloor(Trim(raw.value), decimals)
  {
    var s := Trim(raw.value);
    DotIndexNone(s);
    if WellFormed(s) {
      assert '.' !in FracPart(s);
      DecimalPartsFloor(s, decimals);
      DottedZero(WholePart(s), FracPart(s), decimals);
    }
  }

  /** The early "0." test of the dotted branch only catches amounts that floor to 0. */
  lemma DottedZero(w: string, f: string, decimals: int)
    requires AllDigits(w) && AllDigits(f)
    ensures w == "" ==> DecimalPartsToAtomic("0", f, decimals) == DecimalPartsToAtomic(w, f, decimals)
    ensures w in ["", "0"] && StripLeadingZeros(f) == "" ==> DecimalPartsToAtomic(w, f, decimals) == 0
  {
    assert Value("0") == 0 by {
      assert "0"[..0] == "";
    }
    if StripLeadingZeros(f) == "" {
      ZeroFraction(f, ClampDecimals(decimals));
      ShiftOfZero(ClampDecimals(decimals));
    }
  }

  lemma ZeroFraction(f: string, dec: nat)
    requires AllDigits(f) && StripLeadingZeros(f) == ""
    ensures FracToAtomic(f, dec) == 0
  {
    OnlyZeros(f);
    var kept := if |f| < dec then f else f[..dec];
    assert (kept + Zeros(dec))[..dec] == Zeros(dec);
    ValueOfZeros(dec);
  }

  lemma OnlyZeros(f: string)
    requires StripLeadingZeros(f) == ""
    ensures f == Zeros(|f|)
  {
    if f != "" {
      OnlyZeros(f[1..]);
    }
  }

  // ---- Consequences ------------------------------------------------------------------

  lemma {:induction false} FracOfPadded(f: string, n: nat)
    requires AllDigits(f)
    ensures FracValue(f + Zeros(n)) == FracValue(f)
  {
    if f != "" {
      assert (f + Zeros(n))[1..] == f[1..] + Zeros(n);
      FracOfPadded(f[1..], n);
    } else if n > 0 {
      assert (f + Zeros(n))[1..] == f + Zeros(n - 1);
      FracOfPadded(f, n - 1);
    }
  }

  /** Padding with leading zeros or trailing fractional zeros does not change the number. */
  lemma PaddingKeepsAmount(w: string, f: string, lead: nat, trail: nat)
    requires AllDigits(w) && AllDigits(f)
    ensures var plain, padded := w + "." + f, Zeros(lead) + w + "." + f + Zeros(trail);
            WellFormed(plain) && WellFormed(padded) && Amount(plain) == Amount(padded)
    ensures f == "" && w != "" ==> WellFormed(w) && Amount(w) == Amount(w + ".")
  {
    SplitAt(w, f);
    SplitAt(Zeros(lead) + w, f + Zeros(trail));
    assert Zeros(lead) + w + "." + f + Zeros(trail) == (Zeros(lead) + w) + "." + (f + Zeros(trail));
    ValueAppend(Zeros(lead), w);
    ValueOfZeros(lead);
    ShiftOfZero(|w|);
    FracOfPadded(f, trail);
    if f == "" && w != "" {
      SplitAt(w, "");
      assert w + "." + "" == w + ".";
      DotIndexNone(w);
      assert WholePart(w) == w && FracPart(w) == "";
    }
  }

  lemma SplitAt(w: string, f: string)
    requires AllDigits(w) && AllDigits(f)
    ensures WholePart(w + "." + f) == w && FracPart(w + "." + f) == f
  {
    var s := w + "." + f;
    DotIndexOf(w, f);
  }

  lemma {:induction false} DotIndexOf(w: string, f: string)
    requires AllDigits(w)
    ensures DotIndex(w + "." + f) == |w|
  {
    if w != "" {
      assert (w + "." + f)[1..] == w[1..] + "." + f;
      DotIndexOf(w[1..], f);
    }
  }

  lemma WellFormedChar(s: string, k: nat)
    requires WellFormed(s) && k < |s|
    ensures IsDigit(s[k]) || s[k] == '.'
  {
    var i := DotIndex(s);
    if k < i {
      assert s[k] == WholePart(s)[k];
    } else if k > i {
      assert s[k] == FracPart(s)[k - i - 1];
    }
  }

  lemma WellFormedIsTrimmed(s: string)
    requires WellFormed(s)
    ensures Trim(s) == s
  {
    forall k | 0 <= k < |s|
      ensures IsDigit(s[k]) || s[k] == '.'
    {
      WellFormedChar(s, k);
    }
    DecimalIsTrimmed(s);
  }

  /** What ParseDepositAmount answers depends only on the number a short text denotes. */
  lemma SameAmountSameAnswer(s: string, t: string, decimals: int)
    requires WellFormed(s) && WellFormed(t) && Amount(s) == Amount(t)
    requires |s| <= 80 && |t| <= 80
    ensures ParseDepositAmount(Some(s), decimals) == ParseDepositAmount(Some(t), decimals)
  {
    WellFormedIsTrimmed(s);
    WellFormedIsTrimmed(t);
    ParseIsExactFlooring(Some(s), decimals);
    ParseIsExactFlooring(Some(t), decimals);
  }

  lemma DecimalIsTrimmed(s: string)
    requires forall i :: 0 <= i < |s| ==> IsDigit(s[i]) || s[i] == '.'
    ensures Trim(s) == s
  {
    assert forall c :: IsDigit(c) || c == '.' ==> !IsSpace(c);
    TrimOfTrimmed(s);
  }

  /** The digits-only branch and the dotted branch agree however the text is padded. */
  lemma BranchesAgree(w: string, f: string, lead: nat, trail: nat, decimals: int)
    requires AllDigits(w) && AllDigits(f)
    requires lead + |w| + 1 + |f| + trail <= 80
    ensures ParseDepositAmount(Some(Zeros(lead) + w + "." + f + Zeros(trail)), decimals)
         == ParseDepositAmount(Some(w + "." + f), decimals)
    ensures f == "" && w != "" ==>
              ParseDepositAmount(Some(w), decimals) == ParseDepositAmount(Some(w + "." + f), decimals)
  {
    var plain, padded := w + "." + f, Zeros(lead) + w + "." + f + Zeros(trail);
    PaddingKeepsAmount(w, f, lead, trail);
    SameAmountSameAnswer(padded, plain, decimals);
    if f == "" && w != "" {
      assert plain == w + ".";
      SameAmountSameAnswer(w, plain, decimals);
    }
  }

  // ---- Round trips -------------------------------------------------------------------

  /** The fraction printed for f atomic units: padded to dec digits, trailing zeros gone. */
  function FractionText(f: nat, dec: nat): string {
    StripTrailingZeros(PadStart(Print(f), dec))
  }

  lemma PaddedReads(f: nat, dec: nat)
    requires dec > 0 && f < Pow10(dec)
    ensures var padded := PadStart(Print(f), dec);
            AllDigits(padded) && |padded| == dec && Value(padded) == f
  {
    PrintLength(f, dec);
    ValueOfPrint(f);
    var lead := Zeros(dec - |Print(f)|);
    assert PadStart(Print(f), dec) == lead + Print(f);
    ValueAppend(lead, Print(f));
    ValueOfZeros(|lead|);
    ShiftOfZero(|Print(f)|);
  }

  lemma StrippedReads(padded: string)
    requires AllDigits(padded)
    ensures var fs := StripTrailingZeros(padded);
            && AllDigits(fs) && |fs| <= |padded|
            && FracToAtomic(fs, |padded|) == Value(padded)
            && (fs == "" ==> Value(padded) == 0)
  {
    var fs, dec := StripTrailingZeros(padded), |padded|;
    StripTrailingShape(padded);
    assert forall i :: 0 <= i < |fs| ==> fs[i] == padded[i];
    var kept := if |fs| < dec then fs else fs[..dec];
    assert (kept + Zeros(dec))[..dec] == padded;
    if fs == "" {
      assert padded == Zeros(dec);
      ValueOfZeros(dec);
    }
  }

  lemma FractionTextReads(f: nat, dec: nat)
    requires dec > 0 && f < Pow10(dec)
    ensures AllDigits(FractionText(f, dec)) && |FractionText(f, dec)| <= dec
    ensures FracToAtomic(FractionText(f, dec), dec) == f
    ensures FractionText(f, dec) == "" ==> f == 0
  {
    PaddedReads(f, dec);
    StrippedReads(PadStart(Print(f), dec));
  }

  /** Joined parts denote whole * 10^dec + f atomic units. */
  lemma JoinedDenotes(whole: nat, f: nat, decimals: int)
    requires ClampDecimals(decimals) > 0 && f < Pow10(ClampDecimals(decimals))
    ensures var text := JoinParts(whole, f, ClampDecimals(decimals));
            && WellFormed(text) && Trim(text) == text
            && FloorAtomic(text, decimals) == Shift(whole, ClampDecimals(decimals)) + f
            && |text| <= |Print(whole)| + 1 + ClampDecimals(decimals)
  {
    var dec := ClampDecimals(decimals);
    FractionTextReads(f, dec);
    ValueOfPrint(whole);
    if FractionText(f, dec) == "" {
      WholeOnly(Print(whole), decimals);
      DecimalIsTrimmed(Print(whole));
    } else {
      DottedDenotes(Print(whole), FractionText(f, dec), decimals);
    }
  }

  lemma DottedDenotes(w: string, fs: string, decimals: int)
    requires AllDigits(w) && AllDigits(fs)
    ensures var text, dec := w + "." + fs, ClampDecimals(decimals);
            && WellFormed(text) && Trim(text) == text
            && FloorAtomic(text, decimals) == Shift(Value(w), dec) + FracToAtomic(fs, dec)
  {
    SplitAt(w, fs);
    DecimalPartsFloor(w + "." + fs, decimals);
    DecimalIsTrimmed(w + "." + fs);
  }

  lemma FormatOfPrint(n: nat, decimals: int)
    ensures FormatAtomic(Print(n), decimals) == FormatBig(n, ClampDecimals(decimals))
  {
    DigitsAreTrimmed(Print(n));
    BigIntOfPrint(n);
  }

  /** Texts of one integer print alike, and a text of none is returned as it is. */
  lemma FormatReads(raw: string, decimals: int)
    ensures BigIntOf(Trim(raw)).None? ==> FormatAtomic(raw, decimals) == raw
    ensures BigIntOf(Trim(raw)).Some? ==>
      FormatAtomic(raw, decimals) == FormatAtomic(PrintInt(BigIntOf(Trim(raw)).value), decimals)
  {
    if BigIntOf(Trim(raw)).Some? {
      FormatOfInt(BigIntOf(Trim(raw)).value, decimals);
    }
  }

  lemma PrintedDenotes(n: nat, decimals: int)
    ensures WellFormed(Print(n)) && Trim(Print(n)) == Print(n)
    ensures ClampDecimals(decimals) == 0 ==> FloorAtomic(Print(n), decimals) == n
  {
    WholeOnly(Print(n), decimals);
    ValueOfPrint(n);
    DecimalIsTrimmed(Print(n));
  }

  lemma BigDenotes(n: nat, dec: nat)
    requires dec <= 36
    ensures WellFormed(FormatBig(n, dec)) && FloorAtomic(FormatBig(n, dec), dec) == n
    ensures Trim(FormatBig(n, dec)) == FormatBig(n, dec)
  {
    Pow10Positive(dec);
    if dec == 0 {
      PrintedDenotes(n, dec);
    } else {
      ModBound(n, Pow10(dec));
      JoinedDenotes(Div(n, Pow10(dec)), Mod(n, Pow10(dec)), dec);
      Recombine(n, dec);
    }
  }

  /** The printed form of n >= 0 denotes exactly n atomic units, whatever the decimals. */
  lemma FormatDenotes(n: nat, decimals: int)
    ensures WellFormed(FormatAtomic(Print(n), decimals))
    ensures FloorAtomic(FormatAtomic(Print(n), decimals), decimals) == n
    ensures Trim(FormatAtomic(Print(n), decimals)) == FormatAtomic(Print(n), decimals)
  {
    FormatOfPrint(n, decimals);
    BigDenotes(n, ClampDecimals(decimals));
  }

  lemma Recombine(n: nat, dec: nat)
    ensures Pow10(dec) > 0 && Shift(Div(n, Pow10(dec)), dec) + Mod(n, Pow10(dec)) == n
  {
    Pow10Positive(dec);
    DivMod(n, Pow10(dec));
    ShiftIsProduct(Div(n, Pow10(dec)), dec);
  }

  lemma FormatLength(n: nat, decimals: int)
    requires n <= Pow10(24)
    ensures |FormatAtomic(Print(n), decimals)| <= 80
  {
    var dec := ClampDecimals(decimals);
    FormatOfPrint(n, decimals);
    Pow10Positive(ClampDecimals(decimals));
    ModBound(n, Pow10(dec));
    assert Pow10(25) == 10 * Pow10(24);
    Pow10Positive(24);
    PrintLength(n, 25);
    PrintLength(Div(n, Pow10(dec)), 25);
    if dec > 0 {
      JoinedDenotes(Div(n, Pow10(dec)), Mod(n, Pow10(dec)), decimals);
    }
  }

  /** Parsing what was printed gives back the atomic integer, for any number of decimals. */
  lemma ParseUndoesFormat(n: nat, decimals: int)
    requires 1 <= n <= Pow10(24)
    ensures ParseDepositAmount(Some(FormatAtomic(Print(n), decimals)), decimals) == Ok(Some(Print(n)))
  {
    FormatDenotes(n, decimals);
    FormatLength(n, decimals);
    ParseIsExactFlooring(Some(FormatAtomic(Print(n), decimals)), decimals);
  }

  /** No zero leads the text but one before the dot, none ends its fraction, and there is no dot without a fraction. */
  predicate Canonical(text: string) {
    && WellFormed(text) && WholePart(text) != "" && (WholePart(text)[0] == '0' ==> |WholePart(text)| == 1)
    && (FracPart(text) == "" ==> '.' !in text)
    && (FracPart(text) != "" ==> FracPart(text)[|FracPart(text)| - 1] != '0')
  }

  lemma JoinedIsCanonical(whole: nat, f: nat, dec: nat)
    requires dec > 0 && f < Pow10(dec)
    ensures Canonical(JoinParts(whole, f, dec)) && |FracPart(JoinParts(whole, f, dec))| <= dec
  {
    PlainWhole(whole);
    FractionTextReads(f, dec);
    if FractionText(f, dec) != "" {
      StripTrailingEnd(PadStart(Print(f), dec));
      DottedIsCanonical(Print(whole), FractionText(f, dec));
    }
  }

  lemma DottedIsCanonical(w: string, fs: string)
    requires AllDigits(w) && w != "" && (w[0] == '0' ==> |w| == 1)
    requires AllDigits(fs) && fs != "" && fs[|fs| - 1] != '0'
    ensures Canonical(w + "." + fs) && FracPart(w + "." + fs) == fs
  {
    SplitAt(w, fs);
  }

  /** The printed form is the shortest of those that denote the amount, with no more places than there are decimals. */
  lemma FormatIsCanonical(n: nat, decimals: int)
    ensures Canonical(FormatAtomic(Print(n), decimals))
    ensures |FracPart(FormatAtomic(Print(n), decimals))| <=
            if decimals < 0 then 0 else if decimals > 36 then 36 else decimals
  {
    var dec := ClampDecimals(decimals);
    FormatOfPrint(n, decimals);
    Pow10Positive(dec);
    if dec == 0 {
      PlainWhole(n);
    } else {
      ModBound(n, Pow10(dec));
      JoinedIsCanonical(Div(n, Pow10(dec)), Mod(n, Pow10(dec)), dec);
    }
  }

  lemma PlainWhole(n: nat)
    ensures WholePart(Print(n)) == Print(n) && FracPart(Print(n)) == "" && '.' !in Print(n)
    ensures Canonical(Print(n)) && (Print(n)[0] == '0' ==> |Print(n)| == 1)
  {
    DotIndexNone(Print(n));
    if n > 0 {
      PrintHead(n);
    }
  }

  lemma StripTrailingEnd(s: string)
    ensures var t := StripTrailingZeros(s); t != "" ==> t[|t| - 1] != '0'
  {}

  // ---- The printer on negative amounts -----------------------------------------------

  /** An optional minus sign, then a well-formed decimal. */
  predicate SignedDecimal(s: string) {
    WellFormed(s) || (s != "" && s[0] == '-' && WellFormed(s[1..]))
  }

  /**
   * BigInt remainders keep the sign, so the printer writes a second minus sign after the
   * dot: it yields a decimal number exactly for amounts that are non-negative or whole.
   */
  lemma FormatIsDecimalIff(n: int, decimals: int)
    ensures Pow10(ClampDecimals(decimals)) > 0
    ensures SignedDecimal(FormatAtomic(PrintInt(n), decimals))
       <==> (n >= 0 || TruncMod(n, Pow10(ClampDecimals(decimals))) == 0)
  {
    FormatOfInt(n, decimals);
    IntText(FormatAtomic(PrintInt(n), decimals), n, ClampDecimals(decimals));
  }

  lemma IntText(text: string, n: int, dec: nat)
    requires dec <= 36 && text == FormatBig(n, dec)
    ensures Pow10(dec) > 0 && (SignedDecimal(text) <==> n >= 0 || TruncMod(n, Pow10(dec)) == 0)
  {
    Pow10Positive(dec);
    if n < 0 {
      NegativeBig(n, dec);
    } else {
      PositiveBig(n, dec);
    }
  }

  lemma PositiveBig(n: int, dec: nat)
    requires dec <= 36 && n >= 0
    ensures SignedDecimal(FormatBig(n, dec))
  {
    BigDenotes(n, dec);
  }

  /** The printed form of an integer. */
  function FormatIntIs(n: int, decimals: int): (text: string)
    ensures text == FormatAtomic(PrintInt(n), decimals) == FormatBig(n, ClampDecimals(decimals))
  {
    FormatOfInt(n, decimals);
    FormatBig(n, ClampDecimals(decimals))
  }

  /** Whole amounts print as they are, negative ones with one minus sign. */
  lemma WholeAmounts(m: nat, n: int, decimals: int)
    requires m > 0 && n == Shift(m, ClampDecimals(decimals))
    ensures FormatAtomic(PrintInt(n), decimals) == Print(m)
    ensures FormatAtomic(PrintInt(-n), decimals) == "-" + Print(m)
  {
    ShiftGrows(m, ClampDecimals(decimals));
    WholeBig(m, n, ClampDecimals(decimals));
    assert FormatIntIs(n, decimals) == Print(m) && FormatIntIs(-n, decimals) == "-" + Print(m);
  }

  lemma WholeBig(m: nat, n: nat, dec: nat)
    requires m > 0 && n == Shift(m, dec) > 0
    ensures FormatBig(n, dec) == Print(m) && FormatBig(-(n as int), dec) == "-" + Print(m)
  {
    if dec > 0 {
      Pow10Positive(dec);
      ShiftIsProduct(m, dec);
      MultipleParts(m, Pow10(dec));
      JoinWhole(m, dec);
      JoinWhole(-(m as int), dec);
    }
  }

  lemma JoinWhole(w: int, dec: nat)
    requires dec > 0
    ensures JoinParts(w, 0, dec) == PrintInt(w)
  {
    NoFraction(dec);
  }

  lemma MultipleParts(m: nat, p: nat)
    requires p > 0
    ensures m * p >= 0 && Div(m * p, p) == m && Mod(m * p, p) == 0
  {
    assert m * p >= 0;
    DivMod(m * p, p);
    ModBound(m * p, p);
    assert (m - Div(m * p, p)) * p == Mod(m * p, p);
    SmallMultiple(m - Div(m * p, p), p);
  }

  lemma FifteenTenths()
    ensures Pow10(1) == 10 && TruncDiv(-15, 10) == -1 && TruncMod(-15, 10) == -5
  {
    assert Pow10(0) == 1;
    assert Mod(5, 10) == 5 && Div(5, 10) == 0;
  }

  lemma NegativeParts15()
    ensures JoinParts(-1, -5, 1) == "-1.-5"
  {
    assert PrintInt(-1) == "-1" && PrintInt(-5) == "-5";
    assert PadStart("-5", 1) == "-5" && StripTrailingZeros("-5") == "-5";
  }

  /** Minus one and a half, at one decimal. */
  lemma NegativeFractionExample()
    ensures FormatAtomic(PrintInt(-15), 1) == "-1.-5"
  {
    FormatOfInt(-15, 1);
    FifteenTenths();
    NegativeParts15();
  }

  lemma NegativeBig(n: int, dec: nat)
    requires n < 0
    ensures Pow10(dec) > 0
    ensures SignedDecimal(FormatBig(n, dec)) <==> TruncMod(n, Pow10(dec)) == 0
  {
    Pow10Positive(dec);
    if dec == 0 {
      ModBound(-n, 1);
      MinusWhole(-n);
    } else {
      NegativeJoined(n, Pow10(dec), dec);
    }
  }

  lemma MinusWhole(m: nat)
    ensures SignedDecimal("-" + Print(m))
  {
    PrintedDenotes(m, 0);
    assert ("-" + Print(m))[1..] == Print(m);
  }

  lemma NegativeJoined(n: int, p: nat, dec: nat)
    requires n < 0 && p > 0 && dec > 0
    ensures SignedDecimal(JoinParts(TruncDiv(n, p), TruncMod(n, p), dec)) <==> TruncMod(n, p) == 0
  {
    NegativeParts(TruncDiv(n, p), TruncMod(n, p), dec);
  }

  lemma FormatOfInt(n: int, decimals: int)
    ensures FormatAtomic(PrintInt(n), decimals) == FormatBig(n, ClampDecimals(decimals))
  {
    IntIsTrimmed(n);
    BigIntOfPrintInt(n);
  }

  lemma NegativeParts(w: int, f: int, dec: nat)
    requires dec > 0 && w <= 0 && f <= 0
    ensures SignedDecimal(JoinParts(w, f, dec)) <==> f == 0
  {
    if f == 0 {
      NoFraction(dec);
      PrintedDenotes(-w, 0);
      assert w < 0 ==> PrintInt(w)[1..] == Print(-w);
    } else {
      NegativeFraction(f, dec);
      DashAfterDot(PrintInt(w), StripTrailingZeros(PadStart(PrintInt(f), dec)));
    }
  }

  lemma NoFraction(dec: nat)
    requires dec > 0
    ensures StripTrailingZeros(PadStart("0", dec)) == ""
  {
    assert PadStart("0", dec) == Zeros(dec);
    StripZeros(dec);
  }

  lemma {:induction false} StripZeros(n: nat)
    ensures StripTrailingZeros(Zeros(n)) == ""
  {
    if n > 0 {
      assert Zeros(n)[..n - 1] == Zeros(n - 1);
      StripZeros(n - 1);
    }
  }

  lemma NegativeFraction(f: int, dec: nat)
    requires f < 0 && dec > 0
    ensures '-' in StripTrailingZeros(PadStart(PrintInt(f), dec))
  {
    var s := "-" + Print(-f);
    var t := PadStart(s, dec);
    var fs := StripTrailingZeros(t);
    StripTrailingShape(t);
    var at := if |s| < dec then dec - |s| else 0;
    assert t[at] == '-';
    assert at < |fs| && fs[at] == '-';
  }

  lemma DashAfterDot(w: string, fs: string)
    requires '-' in fs
    ensures !SignedDecimal(w + "." + fs)
  {
    var s := w + "." + fs;
    var k :| 0 <= k < |fs| && fs[k] == '-';
    assert s[|w| + 1 + k] == '-' && s[|w|] == '.';
    if WellFormed(s) {
      DashInDecimal(s, |w| + 1 + k);
    }
    if s[0] == '-' && WellFormed(s[1..]) {
      DashInDecimal(s[1..], |w| + k);
    }
  }

  lemma DashInDecimal(s: string, i: nat)
    requires i < |s| && s[i] == '-'
    ensures !WellFormed(s)
  {
    var dot := DotIndex(s);
    if i < dot {
      assert WholePart(s)[i] == '-';
    } else {
      assert i > dot && FracPart(s)[i - dot - 1] == '-';
    }
  }

  lemma IntIsTrimmed(n: int)
    ensures Trim(PrintInt(n)) == PrintInt(n)
  {
    assert forall c :: IsDigit(c) || c == '-' ==> !IsSpace(c);
    TrimOfTrimmed(PrintInt(n));
  }

  lemma BigIntOfPrintInt(n: int)
    ensures BigIntOf(PrintInt(n)) == Some(n)
  {
    if n < 0 {
      ValueOfPrint(-n);
      assert PrintInt(n)[1..] == Print(-n);
    } else {
      BigIntOfPrint(n);
    }
  }

  // ---- The administrator's USDT codec ------------------------------------------------

  datatype AdminError = EmptyValue | NotAnAmount | TooSmall

  function DisplayUsdt(atomic: string): string {
    var t := Trim(atomic);
    if t == "" then ""
    else
      match BigIntOf(t)
      case None => t
      case Some(b) =>
        if b < 0 then t
        else
          Pow10Positive(USDT_DECIMALS);
          var whole, frac := TruncDiv(b, Pow10(USDT_DECIMALS)), TruncMod(b, Pow10(USDT_DECIMALS));
          if frac == 0 then PrintInt(whole)
          else PrintInt(whole) + "." + StripTrailingZeros(PadStart(PrintInt(frac), USDT_DECIMALS))
  }

  /** The regular expression /^\d+(\.\d{0,6})?$/. */
  predicate MatchesAdminAmount(t: string) {
    WellFormed(t) && WholePart(t) != "" && |FracPart(t)| <= 6
  }

  function ParseAdminUsdt(s: string): Result<string, AdminError> {
    var t := Trim(s);
    if t == "" then Err(EmptyValue)
    else if !MatchesAdminAmount(t) then Err(NotAnAmount)
    else
      var frac := Value((FracPart(t) + "000000")[..USDT_DECIMALS]);
      var atomic := Shift(Value(WholePart(t)), USDT_DECIMALS) + frac;
      if atomic < 1 then Err(TooSmall) else Ok(Print(atomic))
  }

  /** On every text it accepts, the administrator's parser agrees with exact flooring. */
  lemma AdminParseIsExact(s: string)
    ensures ParseAdminUsdt(s) ==
            if Trim(s) == "" then Err(EmptyValue)
            else if !WellFormed(Trim(s)) || WholePart(Trim(s)) == "" || |FracPart(Trim(s))| > 6 then Err(NotAnAmount)
            else if FloorAtomic(Trim(s), 6) < 1 then Err(TooSmall)
            else Ok(Print(FloorAtomic(Trim(s), 6)))
  {
    var t := Trim(s);
    if MatchesAdminAmount(t) {
      DecimalPartsFloor(t, 6);
      var f := FracPart(t);
      var kept := if |f| < 6 then f else f[..6];
      assert (kept + Zeros(6))[..6] == (f + "000000")[..6];
    }
  }

  lemma SixDigits()
    ensures Pow10(6) == 1_000_000
  {
    assert Pow10(3) == 1000;
    Pow10Add(3, 3);
  }

  /** What the administrator may enter, the gateway reads as the same atomic amount. */
  lemma AdminAgreesWithGateway(s: string)
    requires ParseAdminUsdt(s).Ok? && |Trim(s)| <= 80 && FloorAtomic(Trim(s), 6) <= Pow10(24)
    ensures ParseDepositAmount(Some(s), 6) == Ok(Some(ParseAdminUsdt(s).value))
  {
    AdminParseIsExact(s);
    ParseIsExactFlooring(Some(s), 6);
  }

  /**
   * The two printers at six decimals print the same text exactly for non-negative
   * integers, or for non-integers that carry no surrounding space.
   */
  lemma DisplayIsFormatIff(x: string)
    ensures DisplayUsdt(x) == FormatAtomic(x, 6) <==>
            match BigIntOf(Trim(x))
            case None => Trim(x) == x
            case Some(b) => b >= 0 && Trim(x) != ""
  {
    var t := Trim(x);
    var p := Pow10(6);
    Pow10Positive(6);
    match BigIntOf(t)
    case None =>
    case Some(b) =>
      if t == "" {
        NoFraction(6);
      } else if b >= 0 {
        ModBound(b, p);
        NoFraction(6);
        FractionTextReads(Mod(b, p), 6);
      } else {
        DivMod(-b, p);
        if Mod(-b, p) == 0 {
          NoFraction(6);
          BigIntOfPrintInt(TruncDiv(b, p));
          SixDigits();
        } else {
          NegativeFraction(TruncMod(b, p), 6);
          DottedIsNoBigInt(PrintInt(TruncDiv(b, p)), StripTrailingZeros(PadStart(PrintInt(TruncMod(b, p)), 6)));
        }
      }
  }

  /** Otherwise the administrator's printer shows the text as it is, trimmed. */
  lemma DisplayIs(x: string)
    ensures DisplayUsdt(x) ==
            match BigIntOf(Trim(x))
            case None => Trim(x)
            case Some(b) => if b >= 0 && Trim(x) != "" then FormatAtomic(x, 6) else Trim(x)
  {
    DisplayIsFormatIff(x);
  }

  lemma {:induction false} RadixNone(s: string, i: nat, radix: nat)
    requires i < |s| && s[i] == '.'
    ensures RadixValue(s, radix).None?
  {
    if i < |s| - 1 {
      RadixNone(s[..|s| - 1], i, radix);
    }
  }

  lemma DottedIsNoBigInt(w: string, f: string)
    requires w != ""
    ensures BigIntOf(w + "." + f).None?
  {
    var s := w + "." + f;
    assert s[|w|] == '.' && s[1..][|w| - 1] == '.';
    if |w| > 1 {
      RadixNone(s[2..], |w| - 2, 16);
      RadixNone(s[2..], |w| - 2, 8);
      RadixNone(s[2..], |w| - 2, 2);
    }
  }

  /** Entering what the administrator's page displays stores the same atomic amount. */
  lemma AdminParseUndoesDisplay(n: nat)
    requires n >= 1
    ensures DisplayUsdt(Print(n)) == FormatAtomic(Print(n), 6)
    ensures ParseAdminUsdt(DisplayUsdt(Print(n))) == Ok(Print(n))
  {
    DigitsAreTrimmed(Print(n));
    BigIntOfPrint(n);
    DisplayIsFormatIff(Print(n));
    FormatDenotes(n, 6);
    FormatOfPrint(n, 6);
    var whole, f := Div(n, Pow10(6)), Mod(n, Pow10(6));
    ModBound(n, Pow10(6));
    FractionTextReads(f, 6);
    if FractionText(f, 6) == "" {
      DotIndexNone(Print(whole));
      assert WholePart(Print(whole)) == Print(whole);
    } else {
      SplitAt(Print(whole), FractionText(f, 6));
    }
    AdminParseIsExact(DisplayUsdt(Print(n)));
  }
}
