// Percentage fees on an atomic gross amount, in whole basis points.

module Fees {
  import opened Text

  datatype FeeError = NegativeGross | FeesExceedGross

  /** Lines of a split; afterMdr is the amount the settlement percentage is applied to. */
  datatype Split = Split(mdr: int, settlementBase: int, settlement: int, net: int)

  const WHOLE := 10_000

  /** Math.round(percent * 100): halves round up. */
  function RoundedBps(percent: real): int {
    (percent * 100.0 + 0.5).Floor
  }

  function FeeFromPercent(gross: int, percent: real): int {
    if percent <= 0.0 then 0
    else if percent >= 100.0 then gross
    else
      var bps := RoundedBps(percent);
      if bps <= 0 then 0
      else if bps >= WHOLE then gross
      else if gross >= 0 then gross * bps / WHOLE
      else -(-gross * bps / WHOLE)
  }

  /** Both percentages on the same gross. */
  function SplitFees(gross: int, mdrPercent: real, settlementPercent: real): Result<Split, FeeError> {
    if gross < 0 then Err(NegativeGross)
    else
      var mdr, settlement := FeeFromPercent(gross, mdrPercent), FeeFromPercent(gross, settlementPercent);
      if gross - mdr - settlement < 0 then Err(FeesExceedGross)
      else Ok(Split(mdr, gross, settlement, gross - mdr - settlement))
  }

  /** The settlement percentage on what the first fee leaves. */
  function SplitFeesSequential(gross: int, mdrPercent: real, settlementPercent: real): Result<Split, FeeError> {
    if gross < 0 then Err(NegativeGross)
    else
      var mdr := FeeFromPercent(gross, mdrPercent);
      if gross - mdr < 0 then Err(FeesExceedGross)
      else
        var settlement := FeeFromPercent(gross - mdr, settlementPercent);
        if gross - mdr - settlement < 0 then Err(FeesExceedGross)
        else Ok(Split(mdr, gross - mdr, settlement, gross - mdr - settlement))
  }

  // ---- The rate a percentage stands for ----------------------------------------------

  /** Rounded basis points, clamped to the range 0 to 10000. */
  function Bps(percent: real): nat {
    if percent <= 0.0 || RoundedBps(percent) <= 0 then 0
    else if percent >= 100.0 || RoundedBps(percent) >= WHOLE then WHOLE
    else RoundedBps(percent)
  }

  function Share(gross: nat, bps: nat): nat {
    ProductNat(gross, bps);
    gross * bps / WHOLE
  }

  lemma ProductNat(a: nat, b: nat)
    ensures a * b >= 0
  {}

  /** The basis points a percentage stands for: a hundred times it, halves rounded up, between 0 and 10000. */
  predicate Rate(percent: real, bps: int) {
    if percent <= 0.0 then bps == 0
    else if percent >= 100.0 then bps == 10_000
    else bps as real - 0.5 <= 100.0 * percent < bps as real + 0.5
  }

  lemma RateIs(percent: real, bps: int)
    ensures Rate(percent, bps) <==> bps == Bps(percent)
    ensures Rate(percent, bps) ==> 0 <= bps <= WHOLE
  {}

  lemma FeeShare(gross: nat, percent: real)
    ensures Bps(percent) <= WHOLE
    ensures FeeFromPercent(gross, percent) == Share(gross, Bps(percent))
  {}

  /** The fee on a gross is the largest amount that is no more of it than the rate says. */
  lemma FeeIsShare(gross: nat, percent: real, bps: int)
    requires Rate(percent, bps)
    ensures var fee := FeeFromPercent(gross, percent);
            0 <= fee <= gross && 10_000 * fee <= gross * bps < 10_000 * (fee + 1)
  {
    RateIs(percent, bps);
    FeeShare(gross, percent);
    ShareBounds(gross, bps);
    ShareAtMost(gross, bps);
  }

  lemma NonNegative(g: real, d: real)
    requires g >= 0.0 && d >= 0.0
    ensures g * d >= 0.0
  {}

  lemma Scaled(g: real, percent: real, bps: real) returns (x: real, y: real)
    requires g >= 0.0 && bps - 0.5 <= 100.0 * percent < bps + 0.5
    ensures x == g * percent && y == g * bps && 100.0 * x - 0.5 * g <= y <= 100.0 * x + 0.5 * g
  {
    x, y := g * percent, g * bps;
    NonNegative(g, 100.0 * percent - bps + 0.5);
    NonNegative(g, bps + 0.5 - 100.0 * percent);
    assert g * (100.0 * percent - bps + 0.5) == 100.0 * x - y + 0.5 * g;
    assert g * (bps + 0.5 - 100.0 * percent) == y + 0.5 * g - 100.0 * x;
  }

  lemma FeeNearProduct(gross: nat, percent: real, bps: int) returns (y: int)
    requires Rate(percent, bps)
    ensures y as real == gross as real * bps as real
    ensures 10_000 * FeeFromPercent(gross, percent) <= y < 10_000 * (FeeFromPercent(gross, percent) + 1)
  {
    y := gross * bps;
    FeeIsShare(gross, percent, bps);
    RealProduct(gross, bps);
  }

  /** Rounding the percentage and flooring the fee costs at most gross / 20000 and one unit. */
  lemma FeeIsNearPercent(gross: nat, percent: real)
    requires 0.0 < percent < 100.0
    ensures var fee, exact, slack :=
              FeeFromPercent(gross, percent) as real, gross as real * percent / 100.0, gross as real / 20000.0;
            exact - slack - 1.0 < fee <= exact + slack
  {
    var bps := Bps(percent);
    RateIs(percent, bps);
    var y := FeeNearProduct(gross, percent, bps);
    var x, z := Scaled(gross as real, percent, bps as real);
    Near(FeeFromPercent(gross, percent), gross, x, y);
  }

  lemma {:induction false} RealProduct(a: nat, b: int)
    ensures (a * b) as real == a as real * b as real
  {
    if a > 0 {
      RealProduct(a - 1, b);
      assert (a - 1) * b == a * b - b;
      assert (a - 1) as real * b as real == a as real * b as real - b as real;
    }
  }

  lemma Near(fee: int, gross: nat, x: real, y: int)
    requires 10_000 * fee <= y < 10_000 * (fee + 1)
    requires 100.0 * x - 0.5 * gross as real <= y as real <= 100.0 * x + 0.5 * gross as real
    ensures x / 100.0 - gross as real / 20000.0 - 1.0 < fee as real <= x / 100.0 + gross as real / 20000.0
  {}

  /** Fees on negative amounts mirror those on positive ones: they too are rounded toward zero. */
  lemma FeeMirrors(gross: nat, percent: real)
    ensures FeeFromPercent(-(gross as int), percent) == -FeeFromPercent(gross, percent)
  {
    ProductNat(gross, Bps(percent));
  }

  /** Share(g, b) is the largest amount s with s / g <= b / 10000. */
  lemma ShareBounds(g: nat, b: nat)
    ensures WHOLE * Share(g, b) <= g * b < WHOLE * Share(g, b) + WHOLE
  {}

  lemma Distribute(g: int, h: int, b: int)
    ensures (g + h) * b == g * b + h * b && b * (g + h) == b * g + b * h
  {}

  lemma Monotone(g: nat, a: int, b: int)
    requires a <= b
    ensures g * a <= g * b
  {}

  // ---- Conservation ------------------------------------------------------------------

  /**
   * Whenever the two rates sum to at most 10000 basis points the split succeeds with each
   * percentage's fee on the gross, its three lines are non-negative and add up to the gross,
   * and nothing but rounding (less than two units) is left to the net amount.
   */
  lemma SplitConserves(gross: nat, p: real, q: real, b: int, c: int)
    requires Rate(p, b) && Rate(q, c) && b + c <= 10_000
    ensures var r := SplitFees(gross, p, q);
            && r.Ok?
            && r.value == Split(FeeFromPercent(gross, p), gross, FeeFromPercent(gross, q), r.value.net)
            && r.value.mdr >= 0 && r.value.settlement >= 0 && r.value.net >= 0
            && r.value.mdr + r.value.settlement + r.value.net == gross
            && gross * (10_000 - b - c) <= 10_000 * r.value.net < gross * (10_000 - b - c) + 20_000
  {
    FeeIsShare(gross, p, b);
    FeeIsShare(gross, q, c);
    Distribute(b, c, gross);
    Distribute(b + c, WHOLE - b - c, gross);
    Monotone(gross, 0, WHOLE - b - c);
  }

  /** Rates above 10000 basis points together refuse some gross: the bound is exact. */
  lemma SplitAlwaysSucceedsIff(p: real, q: real, b: int, c: int)
    requires Rate(p, b) && Rate(q, c)
    ensures (forall gross: nat :: SplitFees(gross, p, q).Ok?) <==> b + c <= 10_000
  {
    if b + c <= WHOLE {
      forall gross: nat
        ensures SplitFees(gross, p, q).Ok?
      {
        SplitConserves(gross, p, q, b, c);
      }
    } else {
      FeeIsShare(WHOLE, p, b);
      FeeIsShare(WHOLE, q, c);
      assert !SplitFees(WHOLE, p, q).Ok?;
    }
  }

  /** A split is refused for a negative gross, and for two fees that together exceed the gross. */
  lemma SplitRefusedIff(gross: int, p: real, q: real)
    ensures SplitFees(gross, p, q) == Err(NegativeGross) <==> gross < 0
    ensures SplitFees(gross, p, q) == Err(FeesExceedGross) <==>
            gross >= 0 && FeeFromPercent(gross, p) + FeeFromPercent(gross, q) > gross
    ensures SplitFeesSequential(gross, p, q).Err? ==>
              SplitFeesSequential(gross, p, q) == Err(NegativeGross) && gross < 0
  {
    if gross >= 0 {
      SequentialConserves(gross, p, q);
    }
  }

  lemma ShareAtMost(g: nat, b: nat)
    requires b <= WHOLE
    ensures Share(g, b) <= g
  {
    ShareBounds(g, b);
    Monotone(g, b, WHOLE);
  }

  lemma ShareMonotone(g: nat, h: nat, b: nat)
    requires g <= h
    ensures Share(g, b) <= Share(h, b)
  {
    ShareBounds(g, b);
    ShareBounds(h, b);
    Monotone(b, g, h);
  }

  /**
   * The sequential split never refuses a non-negative gross, conserves it, and leaves
   * the merchant at least as much as the parallel split does.
   */
  lemma SequentialConserves(gross: nat, p: real, q: real)
    ensures var r := SplitFeesSequential(gross, p, q);
            && r.Ok?
            && r.value.mdr == FeeFromPercent(gross, p) && r.value.settlementBase == gross - r.value.mdr
            && r.value.settlement == FeeFromPercent(gross - r.value.mdr, q)
            && r.value.mdr >= 0 && r.value.settlement >= 0 && r.value.net >= 0
            && r.value.mdr + r.value.settlement + r.value.net == gross
            && (SplitFees(gross, p, q).Ok? ==>
                  && SplitFees(gross, p, q).value.mdr == r.value.mdr
                  && SplitFees(gross, p, q).value.net <= r.value.net)
  {
    FeeShare(gross, p);
    ShareAtMost(gross, Bps(p));
    var rest := gross - Share(gross, Bps(p));
    FeeShare(rest, q);
    FeeShare(gross, q);
    ShareAtMost(rest, Bps(q));
    ShareMonotone(rest, gross, Bps(q));
  }

  // ---- Fees of many payments ---------------------------------------------------------

  function Total(grosses: seq<nat>): nat {
    if grosses == [] then 0 else grosses[0] + Total(grosses[1..])
  }

  function TotalFees(grosses: seq<nat>, percent: real): int {
    if grosses == [] then 0 else FeeFromPercent(grosses[0], percent) + TotalFees(grosses[1..], percent)
  }

  /**
   * Charging n payments one by one costs at most as much as charging their sum, and
   * less than one unit per extra payment is lost to rounding.
   */
  lemma {:induction false} FeesOfMany(grosses: seq<nat>, percent: real)
    requires grosses != []
    ensures TotalFees(grosses, percent)
         <= FeeFromPercent(Total(grosses), percent)
         <= TotalFees(grosses, percent) + |grosses| - 1
  {
    if |grosses| == 1 {
      assert grosses[1..] == [];
    } else {
      FeesOfMany(grosses[1..], percent);
      var g, h, b := grosses[0], Total(grosses[1..]), Bps(percent);
      FeeShare(g, percent);
      FeeShare(h, percent);
      FeeShare(g + h, percent);
      ShareBounds(g, b);
      ShareBounds(h, b);
      ShareBounds(g + h, b);
      Distribute(g, h, b);
    }
  }
}
