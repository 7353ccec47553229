/**
 Opening a concentrated pool at its computed price: the liquidity a deposit buys, and what that
 liquidity asks for. All products are exact; they fit the 512-bit and 256-bit words of the code.
 */
module InitialLiquidity {
  import opened Outcomes
  import opened Arithmetic
  import opened InitialPrice

  /** The liquidity of a deposit of token A; a price that is not below the upper bound panics. */
  function LiquidityFromA(a: u64, pb: u128, s: u128): Outcome<nat> {
    if s >= pb then Panic
    else
      ProductBound(s, pb, s, pb);
      ProductBound(a, s * pb, a, s * pb);
      DivAtLeast(a * (s * pb), pb - s, 0);
      Value(a * (s * pb) / (pb - s))
  }

  /** The liquidity of a deposit of token B; a price that is not above the lower bound panics. */
  function LiquidityFromB(b: u64, pa: u128, s: u128): Outcome<Option<u128>> {
    if s <= pa then Panic
    else
      DivAtLeast(b * TWO_128, s - pa, 0);
      Value(ToU128(b * TWO_128 / (s - pa)))
  }

  /** The smaller of the two; None is a failed cast. */
  function LiquidityForAdding(a: u64, b: u64, s: u128, pa: u128, pb: u128): Outcome<Option<u128>> {
    match LiquidityFromA(a, pb, s)
    case Panic => Panic
    case Value(fromA) =>
      match LiquidityFromB(b, pa, s)
      case Panic => Panic
      case Value(None) => Value(None)
      case Value(Some(fromB)) => Value(ToU128(if fromA > fromB then fromB else fromA))
  }

  /** What the pool asks for in token A, rounded up; None is an error. */
  function DeltaAUp(lower: u128, upper: u128, liquidity: u128): Outcome<Option<u64>> {
    if upper < lower || lower == 0 then Panic
    else
      ProductBound(1, 1, lower, upper);
      ProductBound(liquidity, upper - lower, liquidity, upper - lower);
      var amount := DivCeil(liquidity * (upper - lower), lower * upper);
      Value(if amount <= U64_MAX then Some(amount) else None)
  }

  function DeltaBUp(lower: u128, upper: u128, liquidity: u128): Option<u64> {
    if upper < lower then None
    else
      ProductBound(liquidity, upper - lower, liquidity, upper - lower);
      var amount := DivCeil(liquidity * (upper - lower), TWO_128);
      if amount <= U64_MAX then Some(amount) else None
  }

  // ---- Floor, then ceiling ----

  /** Rounding the liquidity down first keeps the demand within the deposit. */
  lemma CeilOfPart(amount: nat, unit: nat, width: nat, liquidity: nat)
    requires unit > 0 && width > 0 && liquidity <= amount * unit / width
    ensures DivCeil(liquidity * width, unit) <= amount
  {
    DivAtLeast(amount * unit, width, liquidity);
    DivCeilMeans(liquidity * width, unit, amount);
  }

  /** And when nothing but that rounding is lost, the demand is the deposit. */
  lemma CeilOfWhole(amount: nat, unit: nat, width: nat, liquidity: nat)
    requires 0 < width <= unit && liquidity == amount * unit / width
    ensures DivCeil(liquidity * width, unit) == amount
  {
    CeilOfPart(amount, unit, width, liquidity);
    DivMeans(amount * unit, width);
    if amount > 0 {
      DivCeilMeans(liquidity * width, unit, amount - 1);
      Distribute(amount - 1, 1, unit);
    }
  }

  lemma UnitA(s: nat, pb: nat)
    requires 0 < s < pb
    ensures 0 < pb - s <= s * pb
  {
    ProductBound(1, pb, s, pb);
  }

  // ---- What the pool asks for ----

  /** Opening panics exactly when the price is not strictly inside the range, and fails when token B's liquidity does not fit. */
  lemma LiquidityExistsIff(a: u64, b: u64, s: u128, pa: u128, pb: u128)
    ensures LiquidityForAdding(a, b, s, pa, pb).Value? <==> pa < s < pb
    ensures pa < s < pb ==>
      (LiquidityForAdding(a, b, s, pa, pb).value.Some? <==> b * TWO_128 / (s - pa) < TWO_128)
  {
    if pa < s < pb {
      DivAtLeast(a * (s * pb), pb - s, 0);
    }
  }

  /** The amounts a pool asks for at a price, when it can be opened there. */
  ghost predicate Asks(a: u64, b: u64, s: u128, pa: u128, pb: u128, tokenA: u64, tokenB: u64) {
    && LiquidityForAdding(a, b, s, pa, pb).Value?
    && LiquidityForAdding(a, b, s, pa, pb).value.Some?
    && var liquidity := LiquidityForAdding(a, b, s, pa, pb).value.value;
       DeltaAUp(s, pb, liquidity) == Value(Some(tokenA)) && DeltaBUp(pa, s, liquidity) == Some(tokenB)
  }

  /** The liquidity is one of the two floors, and at most the other. */
  lemma LiquidityIsSmaller(a: u64, b: u64, s: u128, pa: u128, pb: u128) returns (fromA: nat, fromB: nat, liquidity: u128)
    requires pa < s < pb && b * TWO_128 / (s - pa) < TWO_128
    ensures fromA == a * (s * pb) / (pb - s) && fromB == b * TWO_128 / (s - pa)
    ensures LiquidityForAdding(a, b, s, pa, pb) == Value(Some(liquidity))
    ensures liquidity <= fromA && liquidity <= fromB && (liquidity == fromA || liquidity == fromB)
  {
    LiquidityExistsIff(a, b, s, pa, pb);
    DivAtLeast(a * (s * pb), pb - s, 0);
    DivAtLeast(b * TWO_128, s - pa, 0);
    fromA, fromB := a * (s * pb) / (pb - s), b * TWO_128 / (s - pa);
    liquidity := if fromA > fromB then fromB else fromA;
  }

  /** The pool never asks for more than the deposit, and one of the two deposits it takes to the last unit. */
  lemma OneSideIsTakenWhole(a: u64, b: u64, s: u128, pa: u128, pb: u128) returns (tokenA: u64, tokenB: u64)
    requires pa < s < pb && b * TWO_128 / (s - pa) < TWO_128
    ensures Asks(a, b, s, pa, pb, tokenA, tokenB)
    ensures tokenA <= a && tokenB <= b
    ensures tokenA == a || tokenB == b
  {
    var fromA, fromB, liquidity := LiquidityIsSmaller(a, b, s, pa, pb);
    tokenA := DemandA(a, s, pb, liquidity);
    tokenB := DemandB(b, pa, s, liquidity);
  }

  /** Token A's demand, the deposit itself when its own liquidity was the smaller one. */
  lemma DemandA(a: u64, s: u128, pb: u128, liquidity: u128) returns (tokenA: u64)
    requires 0 < s < pb && liquidity <= a * (s * pb) / (pb - s)
    ensures DeltaAUp(s, pb, liquidity) == Value(Some(tokenA)) && tokenA <= a
    ensures s * pb > 0 && liquidity * (pb - s) >= 0 && tokenA == DivCeil(liquidity * (pb - s), s * pb)
    ensures liquidity == a * (s * pb) / (pb - s) ==> tokenA == a
  {
    UnitA(s, pb);
    CeilOfPart(a, s * pb, pb - s, liquidity);
    tokenA := DivCeil(liquidity * (pb - s), s * pb);
    if liquidity == a * (s * pb) / (pb - s) {
      CeilOfWhole(a, s * pb, pb - s, liquidity);
    }
  }

  lemma DemandB(b: u64, pa: u128, s: u128, liquidity: u128) returns (tokenB: u64)
    requires pa < s && liquidity <= b * TWO_128 / (s - pa)
    ensures DeltaBUp(pa, s, liquidity) == Some(tokenB) && tokenB <= b
    ensures liquidity * (s - pa) >= 0 && tokenB == DivCeil(liquidity * (s - pa), TWO_128)
    ensures liquidity == b * TWO_128 / (s - pa) ==> tokenB == b
  {
    CeilOfPart(b, TWO_128, s - pa, liquidity);
    tokenB := DivCeil(liquidity * (s - pa), TWO_128);
    if liquidity == b * TWO_128 / (s - pa) {
      CeilOfWhole(b, TWO_128, s - pa, liquidity);
    }
  }

  // ---- What the other side loses ----

  /** How far a price is from balancing the two liquidities; zero at the real solution. */
  function Gap(a: nat, worth: nat, s: nat, pa: nat, pb: nat): int {
    (a * pb) * (s * (s - pa)) - worth * (pb - s)
  }

  /** The two floors of the quotients, with the divisors multiplied back. */
  lemma FloorsScaled(a: nat, worth: nat, ratio: nat, whole: nat, pb: nat)
    requires a > 0 && pb > 0
    requires ratio * a <= worth < ratio * a + a
    requires whole * pb <= ratio < whole * pb + pb
    ensures worth - a * pb < (a * pb) * whole <= worth
    ensures (a * pb) * ratio <= worth * pb < (a * pb) * (ratio + 1)
  {
    WholeScaled(a, worth, ratio, whole * pb, pb);
    Regroup(whole, pb, a);
    RatioScaled(a, worth, ratio, pb);
  }

  lemma Regroup(x: int, y: int, z: int)
    ensures (x * y) * z == (z * y) * x == x * (z * y)
  {
  }

  lemma WholeScaled(a: nat, worth: nat, ratio: nat, whole: nat, pb: nat)
    requires a > 0 && ratio * a <= worth < ratio * a + a && whole <= ratio < whole + pb
    ensures worth - a * pb < whole * a <= worth
  {
    MulOrder(whole, ratio, a);
    MulOrder(ratio + 1, whole + pb, a);
    Distribute(ratio, 1, a);
    Distribute(whole, pb, a);
  }

  lemma RatioScaled(a: nat, worth: nat, ratio: nat, pb: nat)
    requires pb > 0 && ratio * a <= worth < ratio * a + a
    ensures (a * pb) * ratio <= worth * pb < (a * pb) * (ratio + 1)
  {
    assert (a * pb) * ratio == (ratio * a) * pb;
    assert (a * pb) * (ratio + 1) == (ratio * a + a) * pb;
    MulOrder(ratio * a, worth, pb);
    MulOrder(worth, ratio * a + a, pb);
  }

  /** The quadratic, multiplied through. */
  lemma QuadraticScaled(p: nat, t: nat, pa: nat, whole: nat)
    ensures p * (t * t + t * (whole - pa)) == p * (t * (t - pa)) + (p * whole) * t
  {
    assert t * t + t * (whole - pa) == t * (t - pa) + whole * t;
    assert p * (t * (t - pa) + whole * t) == p * (t * (t - pa)) + p * (whole * t);
    assert p * (whole * t) == (p * whole) * t;
  }

  /** The floor price overshoots the balance by less than one step of the floored slope. */
  lemma GapBelow(p: nat, worth: nat, s: nat, pa: nat, pb: nat, whole: nat, ratio: nat)
    requires p * (s * s + s * (whole - pa)) <= p * ratio <= worth * pb
    requires worth - p < p * whole
    ensures p * (s * (s - pa)) - worth * (pb - s) <= p * s
  {
    QuadraticScaled(p, s, pa, whole);
    if s > 0 {
      MulOrder(worth - p, p * whole, s);
    }
    assert (worth - p) * s == worth * s - p * s;
    assert worth * (pb - s) == worth * pb - worth * s;
  }

  /** And its successor is above it. */
  lemma GapAbove(p: nat, worth: nat, s: nat, pa: nat, pb: nat, whole: nat, ratio: nat)
    requires p * ((s + 1) * (s + 1) + (s + 1) * (whole - pa)) >= p * (ratio + 1) > worth * pb
    requires p * whole <= worth
    ensures worth * (pb - s) - p * (s * (s - pa)) < p * (2 * s + 1 - pa) + worth
  {
    QuadraticScaled(p, s + 1, pa, whole);
    MulOrder(p * whole, worth, s + 1);
    assert (s + 1) * (s + 1 - pa) == s * (s - pa) + (2 * s + 1 - pa);
    assert p * (s * (s - pa) + (2 * s + 1 - pa)) == p * (s * (s - pa)) + p * (2 * s + 1 - pa);
    assert worth * (s + 1) == worth * s + worth;
    assert worth * (pb - s) == worth * pb - worth * s;
  }

  /** The floor price balances the two sides up to one step of the price, either way. */
  lemma FloorPriceBalances(a: u64, b: u64, pa: u128, pb: u128, s: nat)
    requires a > 0 && pb > 0 && IsFloorPrice(s, Slope(a, b, pa, pb), Ratio(a, b))
    ensures Gap(a, b * TWO_128, s, pa, pb) <= (a * pb) * s
    ensures -Gap(a, b * TWO_128, s, pa, pb) < (a * pb) * (2 * s + 1 - pa) + b * TWO_128
  {
    var worth, ratio := b * TWO_128, Ratio(a, b);
    var whole := ratio / pb;
    DivMeans(worth, a);
    DivMeans(ratio, pb);
    DivAtLeast(ratio, pb, 0);
    FloorsScaled(a, worth, ratio, whole, pb);
    ProductBound(1, 1, a, pb);
    var p := a * pb;
    assert AtMost(s, whole - pa, ratio) && !AtMost(s + 1, whole - pa, ratio);
    ScaledAtMost(p, s, whole - pa, ratio);
    ScaledAtMost(p, s + 1, whole - pa, ratio);
    GapBelow(p, worth, s, pa, pb, whole, ratio);
    GapAbove(p, worth, s, pa, pb, whole, ratio);
  }

  lemma ScaledAtMost(p: nat, t: nat, slope: int, ratio: nat)
    requires p > 0
    ensures if AtMost(t, slope, ratio) then p * (t * t + t * slope) <= p * ratio
            else p * (t * t + t * slope) >= p * (ratio + 1)
  {
    MulOrder(t * t + t * slope, ratio, p);
    MulOrder(ratio + 1, t * t + t * slope, p);
  }

  /** What is left of one deposit when the liquidity comes from the other one. */
  lemma LeftOver(amount: nat, unit: nat, width: nat, worth': nat, width': nat, liquidity: nat)
    requires unit > 0 && width > 0 && width' > 0 && liquidity == worth' / width'
    requires DivCeil(liquidity * width, unit) <= amount
    ensures (amount - DivCeil(liquidity * width, unit)) * unit * width'
          < (amount * unit) * width' - worth' * width + width * width'
  {
    var taken := DivCeil(liquidity * width, unit);
    DivCeilMeans(liquidity * width, unit, taken);
    MulOrder(liquidity * width, taken * unit, width');
    DivMeans(worth', width');
    WorthBelow(worth', liquidity, width, width');
    LeftWorth(amount, taken, unit, width');
  }

  lemma WorthBelow(worth': nat, liquidity: nat, width: nat, width': nat)
    requires width > 0 && worth' < liquidity * width' + width'
    ensures worth' * width < (liquidity * width) * width' + width * width'
  {
    MulOrder(worth', liquidity * width' + width', width);
    Distribute(liquidity * width', width', width);
    Swap(liquidity, width', width);
  }

  lemma Swap(x: int, y: int, z: int)
    ensures (x * y) * z == (x * z) * y
  {
  }

  lemma LeftWorth(amount: int, taken: int, unit: int, width': int)
    ensures (amount - taken) * unit * width' == (amount * unit) * width' - (taken * unit) * width'
  {
    Distribute(amount, -taken, unit);
    Distribute(amount * unit, -taken * unit, width');
  }

  lemma GapParts(a: int, s: int, pb: int, width: int)
    ensures (a * (s * pb)) * width == (a * pb) * (s * width)
    ensures (a * pb) * s == a * (s * pb)
  {
    assert (a * (s * pb)) * width == ((a * pb) * s) * width;
  }

  lemma LeftOfA(a: u64, b: u64, s: u128, pa: u128, pb: u128, liquidity: u128, tokenA: u64)
    requires pa < s < pb && liquidity == b * TWO_128 / (s - pa)
    requires s * pb > 0 && liquidity * (pb - s) >= 0
    requires tokenA == DivCeil(liquidity * (pb - s), s * pb) <= a
    requires Gap(a, b * TWO_128, s, pa, pb) <= (a * pb) * s
    ensures (a - tokenA) * (s - pa) < a + (s - pa)
  {
    var unit, width, width' := s * pb, pb - s, s - pa;
    UnitA(s, pb);
    LeftOver(a, unit, width, b * TWO_128, width', liquidity);
    GapParts(a, s, pb, width');
    MulOrder(width, unit, width');
    Distribute(a, width', unit);
    assert (a - tokenA) * unit * width' == (a - tokenA) * width' * unit;
    MulOrder((a - tokenA) * width', a + width', unit);
  }

  lemma LeftOfB(a: u64, b: u64, s: u128, pa: u128, pb: u128, liquidity: u128, tokenB: u64)
    requires pa < s < pb && liquidity == a * (s * pb) / (pb - s)
    requires liquidity * (s - pa) >= 0 && tokenB == DivCeil(liquidity * (s - pa), TWO_128) <= b
    requires -Gap(a, b * TWO_128, s, pa, pb) < (a * pb) * (2 * s + 1 - pa) + b * TWO_128
    ensures (b - tokenB) * TWO_128 * (pb - s)
          < (a * pb) * (2 * s + 1 - pa) + b * TWO_128 + (s - pa) * (pb - s)
  {
    LeftOver(b, TWO_128, s - pa, a * (s * pb), pb - s, liquidity);
    GapParts(a, s, pb, s - pa);
  }

  // ---- Opening at the computed price ----

  /** Which prices from the lower bound on the floor price reaches. */
  lemma FloorPriceReachesIff(a: u64, b: u64, pa: u128, pb: u128, s: nat, t: nat)
    requires a > 0 && pb > 0 && pa <= t && IsFloorPrice(s, Slope(a, b, pa, pb), Ratio(a, b))
    ensures t <= s <==> t * (t - pa + Ratio(a, b) / pb) <= Ratio(a, b)
  {
    var slope, ratio := Slope(a, b, pa, pb), Ratio(a, b);
    DivAtLeast(ratio, pb, 0);
    assert t * t + t * slope == t * (t + slope);
    if !AtMost(t, slope, ratio) && t <= s {
      Overshoots(t, s, slope, ratio);
    }
  }

  /** The computed price is the lower bound itself exactly for small deposit ratios. */
  lemma PriceAtLowerBoundIff(a: u64, b: u64, pa: u128, pb: u128, s: nat)
    requires a > 0 && pa < pb && IsFloorPrice(s, Slope(a, b, pa, pb), Ratio(a, b))
    ensures s == pa <==> (pa + 1) * (Ratio(a, b) / pb + 1) > Ratio(a, b)
  {
    FloorPriceInRange(a, b, pa, pb, s);
    FloorPriceReachesIff(a, b, pa, pb, s, pa + 1);
  }

  lemma QuotientFitsIff(b: nat, width: nat)
    requires width > 0
    ensures b * TWO_128 / width < TWO_128 <==> b < width
  {
    DivAtLeast(b * TWO_128, width, TWO_128);
  }

  /** What the inputs must meet: nothing wraps, and the price is further above the lower bound than `b`. */
  predicate Opens(a: u64, b: u64, pa: u128, pb: u128)
    requires a > 0 && pb > 0
  {
    && Discriminant(a, b, pa, pb) < TWO_256
    && (pa + b + 1) * (Ratio(a, b) / pb + b + 1) <= Ratio(a, b)
  }

  /**
   At the price that was returned the liquidity comes out exactly for such inputs. Otherwise the
   price is at or below the lower bound, which panics, or token B's liquidity does not fit 128 bits.
   */
  lemma OpensIff(a: u64, b: u64, pa: u128, pb: u128, s: u128)
    requires a > 0 && b > 0 && pa < pb
    requires CalculateConcentratedInitialSqrtPrice(a, b, pa, pb) == Value(Some(s))
    ensures (exists liquidity :: LiquidityForAdding(a, b, s, pa, pb) == Value(Some(liquidity))) <==> Opens(a, b, pa, pb)
    ensures Opens(a, b, pa, pb) ==> pa < s < pb && b * TWO_128 / (s - pa) < TWO_128
  {
    ConcentratedPriceExact(a, b, pa, pb);
    if Discriminant(a, b, pa, pb) < TWO_256 {
      FloorPriceInRange(a, b, pa, pb, s);
      FloorPriceReachesIff(a, b, pa, pb, s, pa + b + 1);
      LiquidityComesOutIff(a, b, s, pa, pb);
    } else {
      ReturnedPriceInRangeIff(a, b, pa, pb, s);
    }
  }

  lemma LiquidityComesOutIff(a: u64, b: u64, s: u128, pa: u128, pb: u128)
    requires s < pb
    ensures (exists liquidity :: LiquidityForAdding(a, b, s, pa, pb) == Value(Some(liquidity))) <==> pa + b < s
    ensures pa + b < s ==> b * TWO_128 / (s - pa) < TWO_128
  {
    LiquidityExistsIff(a, b, s, pa, pb);
    if pa < s {
      QuotientFitsIff(b, s - pa);
      if b < s - pa {
        assert LiquidityForAdding(a, b, s, pa, pb) == Value(Some(LiquidityForAdding(a, b, s, pa, pb).value.value));
      }
    }
  }

  /** A deposit and a range for which that happens: the price comes out, and opening the pool there panics. */
  lemma OpeningAtLowerBoundPanics()
    ensures var a, b, pa, pb := 0x100_0000_0000, 1, 0x400_0000_0000_0000_0000_0000, 0x800_0000_0000_0000_0000_0000;
      && CalculateConcentratedInitialSqrtPrice(a, b, pa, pb) == Value(Some(pa))
      && LiquidityForAdding(a, b, pa, pa, pb).Panic?
  {
    var a, b, pa, pb := 0x100_0000_0000, 1, 0x400_0000_0000_0000_0000_0000, 0x800_0000_0000_0000_0000_0000;
    var ratio := 0x100_0000_0000_0000_0000_0000;
    DivUnique(b * TWO_128, a, ratio);
    DivUnique(ratio, pb, 0);
    ReturnedPriceIsRight(a, b, pa, pb);
    var s := CalculateConcentratedInitialSqrtPrice(a, b, pa, pb).value.value;
    PriceAtLowerBoundIff(a, b, pa, pb, s);
  }

  /** With the program's own price limits as range nothing panics; the liquidity may still not fit. */
  lemma DefaultRangeNeverPanics(a: u64, b: u64)
    requires a > 0 && b > 0
    ensures var price := CalculateConcentratedInitialSqrtPrice(a, b, MIN_SQRT_PRICE, MAX_SQRT_PRICE);
      && price.Value? && price.value.Some?
      && MIN_SQRT_PRICE < price.value.value < MAX_SQRT_PRICE
      && LiquidityForAdding(a, b, price.value.value, MIN_SQRT_PRICE, MAX_SQRT_PRICE).Value?
  {
    ReturnedPriceIsRight(a, b, MIN_SQRT_PRICE, MAX_SQRT_PRICE);
    var s := CalculateConcentratedInitialSqrtPrice(a, b, MIN_SQRT_PRICE, MAX_SQRT_PRICE).value.value;
    PriceAtLowerBoundIff(a, b, MIN_SQRT_PRICE, MAX_SQRT_PRICE, s);
    var ratio := Ratio(a, b);
    DivAtLeast(b * TWO_128, a, 0x1_0000_0000_0000_0000);
    DivMeans(ratio, MAX_SQRT_PRICE);
    DivAtLeast(ratio, MAX_SQRT_PRICE, 0);
    LiquidityExistsIff(a, b, s, MIN_SQRT_PRICE, MAX_SQRT_PRICE);
  }

  /** There, the largest deposits do not open: the price is found, and the liquidity does not fit. */
  lemma LargestDepositsDoNotOpen()
    ensures var price := CalculateConcentratedInitialSqrtPrice(U64_MAX, U64_MAX, MIN_SQRT_PRICE, MAX_SQRT_PRICE);
      && price.Value? && price.value.Some?
      && LiquidityForAdding(U64_MAX, U64_MAX, price.value.value, MIN_SQRT_PRICE, MAX_SQRT_PRICE) == Value(None)
  {
    var b := U64_MAX;
    DefaultRangeNeverPanics(b, b);
    var s := CalculateConcentratedInitialSqrtPrice(b, b, MIN_SQRT_PRICE, MAX_SQRT_PRICE).value.value;
    DivUnique(b * TWO_128, b, TWO_128);
    DivUnique(TWO_128, MAX_SQRT_PRICE, 4295048016);
    OpensIff(b, b, MIN_SQRT_PRICE, MAX_SQRT_PRICE, s);
  }

  /**
   Opening a pool at the computed price: it never asks for more than the deposit, takes one side whole,
   and leaves of the other no more than one step of the price is worth.
   */
  lemma ConcentratedCoveredByDeposit(a: u64, b: u64, pa: u128, pb: u128, s: u128, liquidity: u128)
    returns (tokenA: u64, tokenB: u64)
    requires a > 0 && b > 0 && pa < pb
    requires CalculateConcentratedInitialSqrtPrice(a, b, pa, pb) == Value(Some(s))
    requires LiquidityForAdding(a, b, s, pa, pb) == Value(Some(liquidity))
    ensures pa < s < pb && Asks(a, b, s, pa, pb, tokenA, tokenB)
    ensures tokenA <= a && tokenB <= b && (tokenA == a || tokenB == b)
    ensures (a - tokenA) * (s - pa) < a + (s - pa)
    ensures (b - tokenB) * TWO_128 * (pb - s)
          < (a * pb) * (2 * s + 1 - pa) + b * TWO_128 + (s - pa) * (pb - s)
  {
    OpensIff(a, b, pa, pb, s);
    ConcentratedPriceExact(a, b, pa, pb);
    FloorPriceBalances(a, b, pa, pb, s);
    tokenA, tokenB := DemandsOfBalanced(a, b, pa, pb, s);
  }

  lemma DemandsOfBalanced(a: u64, b: u64, pa: u128, pb: u128, s: u128) returns (tokenA: u64, tokenB: u64)
    requires a > 0 && b > 0 && pa < s < pb && b * TWO_128 / (s - pa) < TWO_128
    requires Gap(a, b * TWO_128, s, pa, pb) <= (a * pb) * s
    requires -Gap(a, b * TWO_128, s, pa, pb) < (a * pb) * (2 * s + 1 - pa) + b * TWO_128
    ensures Asks(a, b, s, pa, pb, tokenA, tokenB)
    ensures tokenA <= a && tokenB <= b && (tokenA == a || tokenB == b)
    ensures (a - tokenA) * (s - pa) < a + (s - pa)
    ensures (b - tokenB) * TWO_128 * (pb - s)
          < (a * pb) * (2 * s + 1 - pa) + b * TWO_128 + (s - pa) * (pb - s)
  {
    var fromA, fromB, liquidity := LiquidityIsSmaller(a, b, s, pa, pb);
    tokenA := DemandA(a, s, pb, liquidity);
    tokenB := DemandB(b, pa, s, liquidity);
    if liquidity == fromB {
      LeftOfA(a, b, s, pa, pb, liquidity, tokenA);
      BoundPositive(a, b, pa, pb, s);
    } else {
      LeftOfB(a, b, s, pa, pb, liquidity, tokenB);
    }
  }

  lemma BoundPositive(a: nat, b: nat, pa: nat, pb: nat, s: nat)
    requires b > 0 && pa < s < pb
    ensures 0 < (a * pb) * (2 * s + 1 - pa) + b * TWO_128 + (s - pa) * (pb - s)
  {
    ProductBound(a, pb, a, pb);
    ProductBound(a * pb, 2 * s + 1 - pa, a * pb, 2 * s + 1 - pa);
    ProductBound(s - pa, pb - s, s - pa, pb - s);
  }
}
