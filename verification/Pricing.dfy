/** Quadratic pricing, and the record count read back from a price. */
module Pricing {
  import opened ByteStrings

  const UINT256_MAX: int := 0xFFFF_FFFF_FFFF_FFFF_FFFF_FFFF_FFFF_FFFF_FFFF_FFFF_FFFF_FFFF_FFFF_FFFF_FFFF_FFFF

  type Amount = x: int | 0 <= x <= UINT256_MAX

  const PRICING_DIVISOR := 6000
  const DIVISOR_SQUARED := PRICING_DIVISOR * PRICING_DIVISOR
  const PRICE_BASELINE_WEI: Amount := 3_906_250_000_000_000
  const PRICE_COEFFICIENT_WEI: Amount := 35_156_250_000_000_000
  const PRICE_PER_RECORD_SQUARED_WEI: Amount := PRICE_COEFFICIENT_WEI / DIVISOR_SQUARED

  function Saturate(x: nat): Amount {
    if x <= UINT256_MAX then x else UINT256_MAX
  }

  function SaturatingMul(x: Amount, y: Amount): Amount {
    Saturate(x * y)
  }

  function SaturatingAdd(x: Amount, y: Amount): Amount {
    Saturate(x + y)
  }

  function CalculatePrice(closeRecordsStored: uint64): Amount {
    var nSquared := SaturatingMul(closeRecordsStored, closeRecordsStored);
    var quadraticWei := SaturatingMul(nSquared, PRICE_COEFFICIENT_WEI) / DIVISOR_SQUARED;
    SaturatingAdd(PRICE_BASELINE_WEI, quadraticWei)
  }

  /** The integer square root: the greatest r with r * r <= n. */
  ghost predicate IsRoot(n: nat, r: nat) {
    r * r <= n < (r + 1) * (r + 1)
  }

  lemma DoubledRoot(quarter: nat, half: nat, n: nat)
    requires IsRoot(quarter, half) && 4 * quarter <= n < 4 * quarter + 4
    ensures (2 * half) * (2 * half) <= n < (2 * half + 2) * (2 * half + 2)
  {
    assert (2 * half) * (2 * half) == 4 * (half * half);
    assert (2 * half + 2) * (2 * half + 2) == 4 * ((half + 1) * (half + 1));
  }

  /** From a quarter's root to the number's: double it, and perhaps add one. */
  function RootFromQuarter(half: nat, n: nat): nat {
    if (2 * half + 1) * (2 * half + 1) <= n then 2 * half + 1 else 2 * half
  }

  lemma RootFromQuarterIsRoot(quarter: nat, half: nat, n: nat)
    requires IsRoot(quarter, half) && 4 * quarter <= n < 4 * quarter + 4
    ensures IsRoot(n, RootFromQuarter(half, n))
  {
    DoubledRoot(quarter, half, n);
  }

  function Root(n: nat): (r: nat)
    ensures IsRoot(n, r)
  {
    if n == 0 then 0 else
      var half := Root(n / 4);
      RootFromQuarterIsRoot(n / 4, half, n);
      RootFromQuarter(half, n)
  }

  function DeriveRecordsStoredFromPrice(price: Amount): uint64 {
    if price <= PRICE_BASELINE_WEI then 0 else
      var excess := price - PRICE_BASELINE_WEI;
      var nSquared := excess / PRICE_PER_RECORD_SQUARED_WEI;
      var root := Root(nSquared);
      if root > UINT64_MAX then UINT64_MAX else root
  }

  // ---------------------------------------------------------------------------
  // The square root as a loop
  // ---------------------------------------------------------------------------

  lemma SquaresAreMonotone(x: nat, y: nat)
    requires x <= y
    ensures x * x <= y * y
  {
    assert x * x <= x * y <= y * y;
  }

  lemma RootIsUnique(n: nat, r: nat, s: nat)
    requires IsRoot(n, r) && IsRoot(n, s)
    ensures r == s
  {
    if r < s {
      SquaresAreMonotone(r + 1, s);
    } else if s < r {
      SquaresAreMonotone(s + 1, r);
    }
  }

  /** A Newton step never undershoots the root: n < x * (n / x + 1), and a
      product is at most the square of the mean of its factors. */
  lemma NewtonStepStaysAbove(n: nat, x: nat)
    requires x > 0
    ensures var y := (x + n / x) / 2; n < (y + 1) * (y + 1)
  {
    var q := n / x;
    var y := (x + q) / 2;
    QuotientBounds(n, x, q);
    MeanSquare(x, q + 1);
    SquaresAreMonotone(x + (q + 1), 2 * (y + 1));
    DoubledSquare(y + 1);
  }

  lemma QuotientBounds(n: nat, x: nat, q: nat)
    requires x > 0 && q == n / x
    ensures x * q <= n < x * (q + 1)
  {
    assert n == x * q + n % x;
    assert x * (q + 1) == x * q + x;
  }

  lemma DoubledSquare(a: nat)
    ensures (2 * a) * (2 * a) == 4 * (a * a)
  {
  }

  lemma MeanSquare(a: nat, b: nat)
    ensures 4 * (a * b) <= (a + b) * (a + b)
  {
    assert (a + b) * (a + b) == a * a + 2 * (a * b) + b * b;
    assert (a - b) * (a - b) == a * a - 2 * (a * b) + b * b;
    assert (a - b) * (a - b) >= 0;
  }

  /** Newton's iteration from above, stopping when it no longer descends. */
  method NewtonRoot(n: nat) returns (r: nat)
    ensures r == Root(n)
  {
    if n == 0 {
      return 0;
    }
    r := n;
    var next := (r + n / r) / 2;
    while next < r
      invariant 0 < r <= n && next == (r + n / r) / 2
      invariant n < (r + 1) * (r + 1)
      decreases r
    {
      NewtonStepStaysAbove(n, r);
      StepIsPositive(n, r);
      r := next;
      next := (r + n / r) / 2;
    }
    NoDescentMeansSmall(n, r);
    RootIsUnique(n, r, Root(n));
  }

  lemma StepIsPositive(n: nat, r: nat)
    requires 0 < r <= n
    ensures (r + n / r) / 2 > 0
  {
    QuotientBounds(n, r, n / r);
    assert r * 1 == r;
  }

  lemma NoDescentMeansSmall(n: nat, r: nat)
    requires r > 0 && (r + n / r) / 2 >= r
    ensures r * r <= n
  {
    var q := n / r;
    assert q >= r;
    assert r * r <= r * q;
    assert n == r * q + n % r;
  }

  // ---------------------------------------------------------------------------
  // Price and inverse
  // ---------------------------------------------------------------------------

  /** Dividing last loses nothing and nothing saturates: the price is baseline
      plus n squared times the precomputed increment, for every 64-bit n. */
  lemma PriceIsExact(n: uint64)
    ensures CalculatePrice(n) == 3_906_250_000_000_000 + n * n * 976_562_500
    ensures CalculatePrice(n) < UINT256_MAX
  {
    SquaresAreMonotone(n, UINT64_MAX);
    var s := n * n;
    assert PRICE_PER_RECORD_SQUARED_WEI == 976_562_500;
    assert PRICE_COEFFICIENT_WEI == PRICE_PER_RECORD_SQUARED_WEI * DIVISOR_SQUARED;
    assert s * PRICE_COEFFICIENT_WEI == (s * PRICE_PER_RECORD_SQUARED_WEI) * DIVISOR_SQUARED;
  }

  /** Each further record costs strictly more. */
  lemma PriceIsStrictlyIncreasing(m: uint64, n: uint64)
    ensures CalculatePrice(m) < CalculatePrice(n) <==> m < n
  {
    PriceIsExact(m);
    PriceIsExact(n);
    ScaledSquaresOrder(m, n, 976_562_500);
  }

  lemma ScaledSquaresOrder(m: nat, n: nat, k: nat)
    requires k > 0
    ensures m * m * k < n * n * k <==> m < n
  {
    if m < n {
      SquaresAreMonotone(m + 1, n);
      assert m * m < (m + 1) * (m + 1);
      assert (m * m + 1) * k <= (n * n) * k;
    } else {
      SquaresAreMonotone(n, m);
      assert (n * n) * k <= (m * m) * k;
    }
  }

  /** n squared times k fits into an excess exactly when n is at most the root
      of the quotient. */
  lemma ScaledSquareFits(n: nat, k: nat, excess: nat, q: nat, r: nat)
    requires k > 0 && q == excess / k && IsRoot(q, r)
    ensures n * n * k <= excess <==> n <= r
  {
    QuotientBounds(excess, k, q);
    if n <= r {
      SquaresAreMonotone(n, r);
      Scale(n * n, q, k);
    } else {
      SquaresAreMonotone(r + 1, n);
      Scale(q + 1, n * n, k);
    }
  }

  lemma Scale(a: nat, b: nat, k: nat)
    requires a <= b
    ensures a * k <= b * k
    ensures a * k == k * a && b * k == k * b
  {
  }

  lemma Affordable(n: nat, k: nat, cost: nat, price: nat, root: nat, derived: nat)
    requires k > 0 && n <= UINT64_MAX && price > PRICE_BASELINE_WEI
    requires cost == PRICE_BASELINE_WEI + n * n * k
    requires IsRoot((price - PRICE_BASELINE_WEI) / k, root)
    requires derived == if root > UINT64_MAX then UINT64_MAX else root
    ensures cost <= price <==> n <= derived
  {
    var excess := price - PRICE_BASELINE_WEI;
    ScaledSquareFits(n, k, excess, excess / k, root);
  }

  lemma DerivedFromRoot(price: Amount) returns (root: nat, derived: nat)
    requires price > PRICE_BASELINE_WEI
    ensures IsRoot((price - PRICE_BASELINE_WEI) / PRICE_PER_RECORD_SQUARED_WEI, root)
    ensures derived == if root > UINT64_MAX then UINT64_MAX else root
    ensures derived == DeriveRecordsStoredFromPrice(price)
  {
    root := Root((price - PRICE_BASELINE_WEI) / PRICE_PER_RECORD_SQUARED_WEI);
    derived := DeriveRecordsStoredFromPrice(price);
  }

  lemma AdjunctionAboveBaseline(n: uint64, price: Amount)
    requires price > PRICE_BASELINE_WEI
    ensures CalculatePrice(n) <= price <==> n <= DeriveRecordsStoredFromPrice(price)
  {
    PriceIsExact(n);
    assert PRICE_PER_RECORD_SQUARED_WEI == 976_562_500;
    var root, derived := DerivedFromRoot(price);
    Affordable(n, 976_562_500, CalculatePrice(n), price, root, derived);
  }

  /** The adjunction: a price affords n records exactly when n is at most the
      derived count, for every 256-bit price at or above the baseline; below it
      nothing is affordable. */
  lemma PriceAdjunction(n: uint64, price: Amount)
    ensures CalculatePrice(n) <= price <==>
              3_906_250_000_000_000 <= price && n <= DeriveRecordsStoredFromPrice(price)
  {
    if price > PRICE_BASELINE_WEI {
      AdjunctionAboveBaseline(n, price);
    } else {
      PriceIsExact(n);
      ScaledSquaresOrder(0, n, 976_562_500);
    }
  }

  /** Amounts are the 32-byte words of the contract. */
  lemma AmountsAre32Bytes()
    ensures UINT256_MAX + 1 == Pow256(32)
  {
    assert Pow256(4) == 0x1_0000_0000;
    assert Pow256(8) == 0x1_0000_0000_0000_0000;
    assert Pow256(12) == 0x1_0000_0000_0000_0000_0000_0000;
    assert Pow256(16) == 0x1_0000_0000_0000_0000_0000_0000_0000_0000;
    assert Pow256(20) == 0x1_0000_0000_0000_0000_0000_0000_0000_0000_0000_0000;
    assert Pow256(24) == 0x1_0000_0000_0000_0000_0000_0000_0000_0000_0000_0000_0000_0000;
    assert Pow256(28) == 0x1_0000_0000_0000_0000_0000_0000_0000_0000_0000_0000_0000_0000_0000_0000;
  }

  /** The derived count inverts the price exactly, for every 64-bit count. */
  lemma DeriveInvertsPrice(n: uint64)
    ensures DeriveRecordsStoredFromPrice(CalculatePrice(n)) == n
  {
    var price := CalculatePrice(n);
    var d := DeriveRecordsStoredFromPrice(price);
    PriceIsExact(n);
    PriceAdjunction(n, price);
    PriceAdjunction(d, price);
    PriceIsStrictlyIncreasing(n, d);
  }

  /** The derived count is monotone in the price. */
  lemma DeriveIsMonotone(p: Amount, q: Amount)
    requires p <= q
    ensures DeriveRecordsStoredFromPrice(p) <= DeriveRecordsStoredFromPrice(q)
  {
    PriceAdjunction(DeriveRecordsStoredFromPrice(p), p);
    PriceAdjunction(DeriveRecordsStoredFromPrice(p), q);
  }

  /** A price lies between the prices of its derived count and the next one,
      unless the count saturated; and it saturates exactly from the price of the
      largest count on. */
  lemma DeriveBracketsThePrice(price: Amount)
    requires 3_906_250_000_000_000 <= price
    ensures var n := DeriveRecordsStoredFromPrice(price);
            && CalculatePrice(n) <= price
            && (n < UINT64_MAX ==> price < CalculatePrice(n + 1))
            && (n == UINT64_MAX <==> CalculatePrice(UINT64_MAX) <= price)
  {
    var n := DeriveRecordsStoredFromPrice(price);
    PriceAdjunction(n, price);
    PriceAdjunction(UINT64_MAX, price);
    if n < UINT64_MAX {
      PriceAdjunction(n + 1, price);
    }
  }
}
