/**
 * The amounts of a quote (dex/univ3/quote_client.go): slippage as an exact rational, the platform fee in basis points.
 */
module QuoteAmounts {
  import opened Common
  import opened Numbers

  const MAX_PLATFORM_FEE_BIPS: nat := 100

  /** A percentage `num/den` strictly between 0 and 100, as `parseProtectedSlippage` lets it through. */
  datatype Slippage = Slippage(num: nat, den: nat) {
    ghost predicate Valid() { num > 0 && den > 0 && num < 100 * den }
  }

  /** `amountOut * (100 - slippage) / 100`, rounded down; the rational is exact up to here. */
  function ApplyQuoteSlippage(amountOut: nat, s: Slippage): int
    requires s.Valid()
  {
    amountOut * (100 * s.den - s.num) / (100 * s.den)
  }

  function PlatformFee(amount: nat, feeBips: nat): nat { amount * feeBips / 10_000 }

  function DeductPlatformFee(amount: nat, feeBips: nat): int {
    if feeBips == 0 then amount else amount - PlatformFee(amount, feeBips)
  }

  /** `big.Rat` keeps its terms reduced; the quotient does not see it. */
  lemma QuotientOfReducedTerms(a: nat, b: nat, k: nat)
    requires b > 0 && k > 0
    ensures k * b > 0 && (k * a) / (k * b) == a / b
  {
    MulMono(1, b, k);
    var q, r := a / b, a % b;
    assert k * a == q * (k * b) + k * r by {
      assert a == q * b + r;
      MulAssoc(k, q, b);
      MulAssoc(q, k, b);
      assert k * (q * b + r) == k * (q * b) + k * r;
    }
    assert k * r < k * b by { MulMono(r + 1, b, k); assert (r + 1) * k == r * k + k; }
    MulMono(0, r, k);
    DivModUnique(q, k * r, k * b);
  }

  /** Less than one unit below the exact slippage-adjusted amount, and below the quoted amount. */
  lemma GrossMinimumIsTight(amountOut: nat, s: Slippage)
    requires s.Valid()
    ensures var g := ApplyQuoteSlippage(amountOut, s);
            && 0 <= g <= amountOut && (amountOut > 0 ==> g < amountOut)
            && g * (100 * s.den) <= amountOut * (100 * s.den - s.num) < (g + 1) * (100 * s.den)
  {
    var d := 100 * s.den;
    var x := amountOut * (d - s.num);
    assert x >= 0 by { MulMono(0, amountOut, d - s.num); }
    var g := x / d;
    assert x == g * d + x % d;
    assert (g + 1) * d == g * d + d;
    MulMono(g, -1, d);
    assert x == amountOut * d - amountOut * s.num;
    MulMono(amountOut, g, d);
    MulMono(1, s.num, amountOut);
    MulMono(amountOut + 1, g, d);
    assert (amountOut + 1) * d == amountOut * d + d;
  }

  lemma ScaleBounds(g: int, d: nat, x: int, other: nat)
    requires other > 0 && g * d <= x < (g + 1) * d
    ensures g * (d * other) <= x * other < (g + 1) * (d * other)
  {
    MulAssoc(g, d, other);
    MulAssoc(g + 1, d, other);
    MulMono(g * d, x, other);
    MulMono(x + 1, (g + 1) * d, other);
    assert (x + 1) * other == x * other + other;
  }

  lemma ScaleDifference(amount: int, d: int, n: int, other: int)
    ensures amount * (d - n) * other == amount * (d * other - n * other)
  {
    MulAssoc(amount, d - n, other);
    assert (d - n) * other == d * other - n * other;
  }

  /** The bounds of a minimum over the common denominator `100 * den * other`. */
  lemma MinimumOverCommonDenominator(amountOut: nat, s: Slippage, other: nat)
    requires s.Valid() && other > 0
    ensures var g, whole := ApplyQuoteSlippage(amountOut, s), 100 * s.den * other;
            g * whole <= amountOut * (whole - s.num * other) < (g + 1) * whole
  {
    GrossMinimumIsTight(amountOut, s);
    var d, g := 100 * s.den, ApplyQuoteSlippage(amountOut, s);
    hide ApplyQuoteSlippage;
    ScaleBounds(g, d, amountOut * (d - s.num), other);
    ScaleDifference(amountOut, d, s.num, other);
  }

  lemma CommonDenominator(a: nat, b: nat)
    requires a > 0 && b > 0
    ensures 100 * b * a == 100 * a * b && 100 * a * b > 0
  {
    MulAssoc(100, a, b);
    MulAssoc(100, b, a);
    MulMono(1, a, b);
  }

  /** A larger percentage, whatever its denominator, never gives a larger minimum. */
  lemma MoreSlippageLowersMinimum(amountOut: nat, s: Slippage, t: Slippage)
    requires s.Valid() && t.Valid() && s.num * t.den <= t.num * s.den
    ensures ApplyQuoteSlippage(amountOut, t) <= ApplyQuoteSlippage(amountOut, s)
  {
    MinimumOverCommonDenominator(amountOut, s, t.den);
    MinimumOverCommonDenominator(amountOut, t, s.den);
    var more, less := ApplyQuoteSlippage(amountOut, t), ApplyQuoteSlippage(amountOut, s);
    hide ApplyQuoteSlippage;
    var whole := 100 * s.den * t.den;
    assert 100 * t.den * s.den == whole && whole > 0 by { CommonDenominator(s.den, t.den); }
    MulMono(whole - t.num * s.den, whole - s.num * t.den, amountOut);
    MulMono(less + 1, more, whole);
  }

  lemma FeeBounds(amount: nat, feeBips: nat)
    ensures 10_000 * PlatformFee(amount, feeBips) <= amount * feeBips < 10_000 * PlatformFee(amount, feeBips) + 10_000
  {
  }

  predicate Monotone(feeBips: nat, a: nat, b: nat) {
    a <= b ==> DeductPlatformFee(a, feeBips) <= DeductPlatformFee(b, feeBips)
  }

  /** More pool output never leaves the user less: true of a fee exactly up to 100 percent, so of every accepted one. */
  lemma DeductionIsMonotone(feeBips: nat)
    ensures (forall a: nat, b: nat :: Monotone(feeBips, a, b)) <==> feeBips <= 10_000
  {
    if feeBips <= 10_000 {
      forall a: nat, b: nat ensures Monotone(feeBips, a, b) {
        FeeBounds(a, feeBips);
        FeeBounds(b, feeBips);
        if a <= b {
          MulMono(feeBips, 10_000, b - a);
          assert b * feeBips - a * feeBips == (b - a) * feeBips;
        }
      }
    } else {
      assert PlatformFee(10_000, feeBips) == feeBips;
      assert !Monotone(feeBips, 0, 10_000);
    }
  }

  /** Whatever is positive stays positive exactly below 100 percent: no accepted fee can make an output zero. */
  lemma DeductionLeavesSomething(feeBips: nat)
    ensures (forall a :: a > 0 ==> DeductPlatformFee(a, feeBips) > 0) <==> feeBips < 10_000
  {
    if feeBips < 10_000 {
      forall a: nat | a > 0 ensures DeductPlatformFee(a, feeBips) > 0 {
        FeeBounds(a, feeBips);
        MulMono(feeBips, 9_999, a);
      }
    } else {
      FeeBounds(10_000, feeBips);
      assert DeductPlatformFee(10_000, feeBips) <= 0;
    }
  }

  /** The fee is the given part of the gross amount, in basis points, rounded down to whole units. */
  predicate FeeTaken(gross: int, net: int, feeBips: nat) {
    10_000 * (gross - net) <= gross * feeBips < 10_000 * (gross - net) + 10_000
  }

  datatype AmountError = SlippageMakesZero | FeeMakesZero

  datatype Amounts = Amounts(grossMinimum: int, amountOut: int, amountOutMin: int)

  /** The amount section of `Quote`. */
  method QuoteAmounts(amountOut: nat, s: Slippage, feeBips: nat) returns (r: Result<Amounts, AmountError>)
    requires amountOut > 0 && s.Valid() && feeBips <= MAX_PLATFORM_FEE_BIPS
    ensures r.Err? <==> amountOut * (100 * s.den - s.num) < 100 * s.den
    ensures r.Err? ==> r.error == SlippageMakesZero
    ensures r.Ok? ==>
              && 0 < r.value.amountOutMin <= r.value.amountOut <= amountOut
              && r.value.grossMinimum * (100 * s.den) <= amountOut * (100 * s.den - s.num)
                 < (r.value.grossMinimum + 1) * (100 * s.den)
              && FeeTaken(amountOut, r.value.amountOut, feeBips)
              && FeeTaken(r.value.grossMinimum, r.value.amountOutMin, feeBips)
              && (forall poolOutput: nat ::
                   poolOutput >= r.value.grossMinimum ==>
                       DeductPlatformFee(poolOutput, feeBips) >= r.value.amountOutMin)
  {
    hide PlatformFee;
    GrossMinimumIsTight(amountOut, s);
    DeductionIsMonotone(feeBips);
    DeductionLeavesSomething(feeBips);
    FeeBounds(amountOut, feeBips);
    assert FeeTaken(amountOut, DeductPlatformFee(amountOut, feeBips), feeBips);
    var d := 100 * s.den;
    var grossMinimum := ApplyQuoteSlippage(amountOut, s);
    MulMono(1, grossMinimum, d);
    hide ApplyQuoteSlippage;
    if grossMinimum <= 0 {
      return Err(SlippageMakesZero);
    }
    FeeBounds(grossMinimum, feeBips);
    assert FeeTaken(grossMinimum, DeductPlatformFee(grossMinimum, feeBips), feeBips);
    var netAmountOut := DeductPlatformFee(amountOut, feeBips);
    var netMinimum := DeductPlatformFee(grossMinimum, feeBips);
    assert Monotone(feeBips, grossMinimum, amountOut);
    if netAmountOut <= 0 || netMinimum <= 0 {
      return Err(FeeMakesZero);
    }
    forall poolOutput: nat | poolOutput >= grossMinimum ensures DeductPlatformFee(poolOutput, feeBips) >= netMinimum {
      assert Monotone(feeBips, grossMinimum, poolOutput);
    }
    return Ok(Amounts(grossMinimum, netAmountOut, netMinimum));
  }
}
