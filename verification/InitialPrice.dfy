/**
 The starting price of a liquidity pool, computed from the two deposits.
 Prices are square roots scaled by 2^64; all arithmetic is on 256-bit words whose `+`, `-` and `*` wrap.
 */
module InitialPrice {
  import opened Outcomes
  import opened Arithmetic
  import opened FloorRoot

  const MIN_SQRT_PRICE: u128 := 4295048016
  const MAX_SQRT_PRICE: u128 := 79226673521066979257578248091

  const TWO_192: nat := 0x1_0000_0000_0000_0000_0000_0000_0000_0000_0000_0000_0000_0000

  function WrapAdd(x: int, y: int): u256 {
    (x + y) % TWO_256
  }

  function WrapSub(x: int, y: int): u256 {
    (x - y) % TWO_256
  }

  function WrapMul(x: int, y: int): u256 {
    (x * y) % TWO_256
  }

  function ToU128(x: nat): Option<u128> {
    if x < TWO_128 then Some(x) else None
  }

  // ---- Concentrated liquidity ----

  function CalculateConcentratedInitialSqrtPrice(
    tokenA: u64, tokenB: u64, minSqrtPrice: u128, maxSqrtPrice: u128): (price: Outcome<Option<u128>>)
  {
    if tokenA == 0 || tokenB == 0 then Value(None)
    else
      var a, b, pa, pb := tokenA, tokenB * TWO_128, minSqrtPrice, maxSqrtPrice;
      if b / a > WrapMul(pa, pb) then
        if pb == 0 then Panic
        else
          var delta := WrapSub(b / a / pb, pa);
          var sqrtValue := Isqrt(WrapAdd(WrapMul(delta, delta), WrapMul(4, b) / a));
          Value(ToU128(WrapSub(sqrtValue, delta) / 2))
      else if pb == 0 then Panic
      else
        var delta := WrapSub(pa, b / a / pb);
        var sqrtValue := Isqrt(WrapAdd(WrapMul(delta, delta), WrapMul(4, b) / a));
        Value(ToU128(WrapAdd(sqrtValue, delta) / 2))
  }

  /** The deposit ratio `b << 128 / a`. */
  function Ratio(a: u64, b: u64): nat
    requires a > 0
  {
    b * TWO_128 / a
  }

  /** The linear coefficient of the price equation; negative in the second branch. */
  function Slope(a: u64, b: u64, pa: u128, pb: u128): int
    requires a > 0 && pb > 0
  {
    Ratio(a, b) / pb - pa
  }

  /** What is under the root, without wrap-around. */
  function Discriminant(a: u64, b: u64, pa: u128, pb: u128): nat
    requires a > 0 && pb > 0
  {
    var k := Slope(a, b, pa, pb);
    SquareNonNegative(k);
    k * k + (4 * (b * TWO_128)) / a
  }

  /** `t` does not overshoot the quadratic `t^2 + t * slope = ratio`. */
  predicate AtMost(t: nat, slope: int, ratio: nat) {
    t * t + t * slope <= ratio
  }

  /** `s` is the floor of the positive solution of the price equation. */
  ghost predicate IsFloorPrice(s: nat, slope: int, ratio: nat) {
    AtMost(s, slope, ratio) && forall t: nat :: AtMost(t, slope, ratio) ==> t <= s
  }

  // ---- One signed root formula for both branches ----

  lemma AbsRoot(u: int, n: nat)
    ensures u * u <= n <==> u <= Isqrt(n) && -u <= Isqrt(n)
  {
    if u >= 0 {
      RootBounds(n, u);
    } else {
      RootBounds(n, -u);
      assert u * u == (-u) * (-u);
    }
  }

  lemma CompleteTheSquare(t: nat, slope: int)
    ensures (2 * t + slope) * (2 * t + slope) == slope * slope + 4 * (t * t + t * slope)
  {
  }

  /** The floor lost inside `4 * b / a` never matters: squares of `2t + slope` move in steps of 4. */
  lemma AtMostIffRoot(t: nat, slope: int, ratio: nat, disc: nat)
    requires slope * slope + 4 * ratio <= disc <= slope * slope + 4 * ratio + 3
    ensures AtMost(t, slope, ratio) <==> 2 * t + slope <= Isqrt(disc) && -(2 * t + slope) <= Isqrt(disc)
  {
    CompleteTheSquare(t, slope);
    AbsRoot(2 * t + slope, disc);
  }

  lemma SignedRoot(slope: int, ratio: nat, disc: nat) returns (s: nat)
    requires slope * slope + 4 * ratio <= disc <= slope * slope + 4 * ratio + 3
    ensures Isqrt(disc) >= slope && Isqrt(disc) >= -slope
    ensures s == (Isqrt(disc) - slope) / 2 && IsFloorPrice(s, slope, ratio)
  {
    AbsRoot(slope, disc);
    s := (Isqrt(disc) - slope) / 2;
    AtMostIffRoot(s, slope, ratio, disc);
    forall t: nat | AtMost(t, slope, ratio)
      ensures t <= s
    {
      AtMostIffRoot(t, slope, ratio, disc);
    }
  }

  // ---- The words behind the formula ----

  /** The deposit ratio and the constant term of the discriminant fit with room to spare. */
  lemma RatioBounds(a: u64, b: u64)
    requires a > 0
    ensures Ratio(a, b) < TWO_192
    ensures b > 0 ==> Ratio(a, b) > 0
    ensures 4 * Ratio(a, b) <= (4 * (b * TWO_128)) / a <= 4 * Ratio(a, b) + 3
  {
    var x := b * TWO_128;
    DivMeans(x, a);
    DivAtLeast(x, a, TWO_192);
    MulOrder(1, a, TWO_192);
    DivAtLeast(x, a, 1);
    FourTimesFloor(x, a);
  }

  lemma FourTimesFloor(x: nat, a: nat)
    requires a > 0
    ensures 4 * (x / a) <= (4 * x) / a <= 4 * (x / a) + 3
  {
    var q := x / a;
    DivMeans(x, a);
    DivAtLeast(4 * x, a, 4 * q);
    DivAtLeast(4 * x, a, 4 * q + 4);
    assert 4 * q * a == 4 * (q * a);
    assert (4 * q + 4) * a == 4 * (q * a) + 4 * a;
  }

  lemma ProductFits(x: u128, y: u128)
    ensures 0 <= x * y < TWO_256
    ensures WrapMul(x, y) == x * y
  {
    ProductBound(x, y, TWO_128 - 1, TWO_128 - 1);
    ModSmall(x * y, TWO_256);
  }

  /** The word under the root is the discriminant modulo 2^256. */
  lemma DiscriminantWord(delta: u256, constant: u256)
    ensures WrapAdd(WrapMul(delta, delta), constant) == (delta * delta + constant) % TWO_256
  {
    ModOfMod(delta * delta, constant, TWO_256);
  }

  lemma RootFits(disc: nat)
    requires disc < TWO_256
    ensures Isqrt(disc) < TWO_128
  {
    RootBounds(disc, TWO_128);
  }

  /** First branch: the words are the signed formula, modulo 2^256. */
  lemma UpperBranch(a: u64, b: u64, pa: u128, pb: u128)
    requires a > 0 && b > 0 && pb > 0 && Ratio(a, b) > pa * pb
    ensures 0 <= Slope(a, b, pa, pb) < TWO_192
    ensures CalculateConcentratedInitialSqrtPrice(a, b, pa, pb)
         == Value(ToU128(WrapSub(Isqrt(Discriminant(a, b, pa, pb) % TWO_256), Slope(a, b, pa, pb)) / 2))
  {
    RatioBounds(a, b);
    ProductFits(pa, pb);
    DivAtLeast(Ratio(a, b), pb, pa);
    DivAtLeast(Ratio(a, b), pb, TWO_192);
    MulOrder(1, pb, TWO_192);
    var delta := Slope(a, b, pa, pb);
    ModSmall(delta, TWO_256);
    ModSmall(4 * (b * TWO_128), TWO_256);
    DiscriminantWord(delta, (4 * (b * TWO_128)) / a);
  }

  /** Second branch: likewise, with the slope's sign turned round. */
  lemma LowerBranch(a: u64, b: u64, pa: u128, pb: u128)
    requires a > 0 && b > 0 && pb > 0 && Ratio(a, b) <= pa * pb
    ensures 0 <= -Slope(a, b, pa, pb) < TWO_128
    ensures CalculateConcentratedInitialSqrtPrice(a, b, pa, pb)
         == Value(ToU128(WrapAdd(Isqrt(Discriminant(a, b, pa, pb) % TWO_256), -Slope(a, b, pa, pb)) / 2))
  {
    RatioBounds(a, b);
    ProductFits(pa, pb);
    DivAtLeast(Ratio(a, b), pb, pa + 1);
    DivAtLeast(Ratio(a, b), pb, 0);
    Distribute(pa, 1, pb);
    var delta := -Slope(a, b, pa, pb);
    ModSmall(delta, TWO_256);
    ModSmall(4 * (b * TWO_128), TWO_256);
    assert delta * delta == Slope(a, b, pa, pb) * Slope(a, b, pa, pb);
    DiscriminantWord(delta, (4 * (b * TWO_128)) / a);
  }

  // ---- What the concentrated price is ----

  /** In the first branch a wrapped discriminant makes the subtraction wrap too, so no price comes out. */
  lemma UpperWrapped(slope: nat, constant: nat)
    requires slope < TWO_192 && constant < TWO_256
    requires slope * slope + constant >= TWO_256
    ensures ToU128(WrapSub(Isqrt((slope * slope + constant) % TWO_256), slope) / 2) == None
  {
    var disc := slope * slope + constant;
    var word := disc % TWO_256;
    if slope * slope < TWO_256 {
      ModWrapped(disc, TWO_256);
    }
    assert word < slope * slope;
    RootBounds(word, slope);
    ModWrapped(Isqrt(word) - slope, TWO_256);
  }

  /** In the second branch it does not: a price comes out, and it is too low. */
  lemma LowerWrapped(delta: u128, constant: nat)
    requires constant < 4 * TWO_192
    requires delta * delta + constant >= TWO_256
    ensures var disc := delta * delta + constant;
      var price := ToU128(WrapAdd(Isqrt(disc % TWO_256), delta) / 2);
      price.Some? && price.value < (Isqrt(disc) + delta) / 2
  {
    var disc := delta * delta + constant;
    ProductBound(delta, delta, TWO_128 - 1, TWO_128 - 1);
    ModWrapped(disc, TWO_256);
    var word := disc % TWO_256;
    assert word < 4 * TWO_192;
    RootBounds(word, TWO_128 - 4);
    RootBounds(disc, TWO_128);
    ModSmall(Isqrt(word) + delta, TWO_256);
  }

  /**
   The whole behaviour. A discriminant that fits the word gives exactly the floor price; one that
   does not gives no price in the first branch and a price that is too low in the second.
   */
  lemma ConcentratedPriceExact(a: u64, b: u64, pa: u128, pb: u128)
    requires a > 0 && b > 0 && pb > 0
    ensures var price := CalculateConcentratedInitialSqrtPrice(a, b, pa, pb);
      var slope, ratio, disc := Slope(a, b, pa, pb), Ratio(a, b), Discriminant(a, b, pa, pb);
      && price.Value?
      && (disc < TWO_256 ==> price.value.Some? && IsFloorPrice(price.value.value, slope, ratio))
      && (disc >= TWO_256 && ratio > pa * pb ==> price.value == None)
      && (disc >= TWO_256 && ratio <= pa * pb ==>
            price.value.Some? && forall s: nat :: IsFloorPrice(s, slope, ratio) ==> price.value.value < s)
  {
    var s, constant := RootOfDiscriminant(a, b, pa, pb);
    if Ratio(a, b) > pa * pb {
      UpperBranch(a, b, pa, pb);
      UpperValue(Slope(a, b, pa, pb), constant, Discriminant(a, b, pa, pb));
    } else {
      LowerBranch(a, b, pa, pb);
      SquareOfNegative(Slope(a, b, pa, pb));
      LowerValue(-Slope(a, b, pa, pb), constant, Discriminant(a, b, pa, pb));
    }
  }

  /** The discriminant has the floor price for its root. */
  lemma RootOfDiscriminant(a: u64, b: u64, pa: u128, pb: u128) returns (s: nat, constant: nat)
    requires a > 0 && pb > 0
    ensures var slope, disc := Slope(a, b, pa, pb), Discriminant(a, b, pa, pb);
      && Isqrt(disc) >= slope && Isqrt(disc) >= -slope
      && s == (Isqrt(disc) - slope) / 2 && IsFloorPrice(s, slope, Ratio(a, b))
      && disc == slope * slope + constant && constant < 4 * TWO_192
  {
    RatioBounds(a, b);
    constant := (4 * (b * TWO_128)) / a;
    s := SignedRoot(Slope(a, b, pa, pb), Ratio(a, b), Discriminant(a, b, pa, pb));
  }

  lemma UpperValue(slope: nat, constant: nat, disc: nat)
    requires slope < TWO_192 && constant < 4 * TWO_192 && disc == slope * slope + constant && slope <= Isqrt(disc)
    ensures var price := ToU128(WrapSub(Isqrt(disc % TWO_256), slope) / 2);
      price == if disc < TWO_256 then Some((Isqrt(disc) - slope) / 2) else None
  {
    if disc < TWO_256 {
      RootFits(disc);
      ModSmall(disc, TWO_256);
      ModSmall(Isqrt(disc) - slope, TWO_256);
    } else {
      UpperWrapped(slope, constant);
    }
  }

  lemma LowerValue(delta: u128, constant: nat, disc: nat)
    requires constant < 4 * TWO_192 && disc == delta * delta + constant
    ensures var price := ToU128(WrapAdd(Isqrt(disc % TWO_256), delta) / 2);
      && price.Some?
      && (if disc < TWO_256 then price.value == (Isqrt(disc) + delta) / 2 else price.value < (Isqrt(disc) + delta) / 2)
  {
    if disc < TWO_256 {
      RootFits(disc);
      ModSmall(disc, TWO_256);
      ModSmall(Isqrt(disc) + delta, TWO_256);
    } else {
      LowerWrapped(delta, constant);
    }
  }

  lemma SquareOfNegative(x: int)
    ensures x * x == (-x) * (-x)
  {
  }

  /** The calculation returns the floor price exactly when the discriminant fits in 256 bits. */
  lemma CorrectIffDiscriminantFits(a: u64, b: u64, pa: u128, pb: u128)
    requires a > 0 && b > 0 && pb > 0
    ensures Discriminant(a, b, pa, pb) < TWO_256 <==>
      exists s: u128 :: CalculateConcentratedInitialSqrtPrice(a, b, pa, pb) == Value(Some(s))
                   && IsFloorPrice(s, Slope(a, b, pa, pb), Ratio(a, b))
  {
    ConcentratedPriceExact(a, b, pa, pb);
    var price := CalculateConcentratedInitialSqrtPrice(a, b, pa, pb);
    if Discriminant(a, b, pa, pb) < TWO_256 {
      var s: u128 := price.value.value;
      assert price == Value(Some(s));
    }
  }

  /** The remaining inputs: a zero deposit has no price, and a zero upper bound divides by zero. */
  lemma ConcentratedEdgeCases(a: u64, b: u64, pa: u128, pb: u128)
    ensures (a == 0 || b == 0) ==> CalculateConcentratedInitialSqrtPrice(a, b, pa, pb) == Value(None)
    ensures CalculateConcentratedInitialSqrtPrice(a, b, pa, pb).Panic? <==> a > 0 && b > 0 && pb == 0
  {
    if a > 0 && b > 0 {
      if pb > 0 {
        ConcentratedPriceExact(a, b, pa, pb);
      } else {
        RatioBounds(a, b);
        ProductFits(pa, pb);
      }
    }
  }

  /** A bound on the range that rules wrap-around out for every deposit. */
  lemma RangeRulesOutWrapping(a: u64, b: u64, pa: u128, pb: u128)
    requires a > 0
    requires 2 * pa < TWO_128 && pb >= 0x2_0000_0000_0000_0000
    ensures Discriminant(a, b, pa, pb) < TWO_256
  {
    RatioBounds(a, b);
    var ratio, slope := Ratio(a, b), Slope(a, b, pa, pb);
    var half := TWO_128 / 2;
    DivAtLeast(ratio, pb, half);
    DivAtLeast(ratio, pb, 0);
    ProductBound(half, 0x2_0000_0000_0000_0000, half, pb);
    if slope >= 0 {
      ProductBound(slope, slope, half, half);
    } else {
      ProductBound(-slope, -slope, half, half);
      assert slope * slope == (-slope) * (-slope);
    }
  }

  /** With the bounds in order, the floor price lies in the range. The returned price need not: see below. */
  lemma FloorPriceInRange(a: u64, b: u64, pa: u128, pb: u128, s: nat)
    requires a > 0 && pa < pb && IsFloorPrice(s, Slope(a, b, pa, pb), Ratio(a, b))
    ensures pa <= s < pb
  {
    var ratio, slope := Ratio(a, b), Slope(a, b, pa, pb);
    var whole := ratio / pb;
    DivMeans(ratio, pb);
    // The lower bound is still at most the price.
    Distribute(pa, slope, pa);
    assert pa * pa + pa * slope == pa * whole by { assert pa * whole == pa * (pa + slope); }
    ProductBound(pa, whole, pb, whole);
    assert AtMost(pa, slope, ratio);
    // The upper bound overshoots, and so does everything above it.
    assert pb * pb + pb * slope == pb * (pb - pa) + whole * pb;
    ProductBound(pb, 1, pb, pb - pa);
    if s >= pb {
      Overshoots(pb, s, slope, ratio);
    }
  }

  /** Above the lower bound's reach the quadratic only grows. */
  lemma Overshoots(t: nat, t': nat, slope: int, ratio: nat)
    requires t <= t' && 0 <= t + slope
    requires !AtMost(t, slope, ratio)
    ensures !AtMost(t', slope, ratio)
  {
    assert t' * t' + t' * slope == t' * (t' + slope);
    assert t * t + t * slope == t * (t + slope);
    ProductBound(t, t + slope, t', t' + slope);
  }

  // ---- How far the integer price is from the exact one ----

  lemma CastProduct(x: int, y: int)
    ensures (x * y) as real == x as real * y as real
  {
  }

  /** The sign of the quadratic says on which side of its positive root a positive point lies. */
  lemma SideOfRoot(t: real, x: real, m: real, y: real)
    requires t > 0.0 && x > 0.0 && y > 0.0 && x * x + x * m == y
    ensures t * t + t * m > y ==> t > x
    ensures t * t + t * m <= y ==> t <= x
  {
    var f := t * t + t * m - y;
    assert x * f == (t - x) * (x * t + y) by {
      assert x * f == x * (t * t) + x * (t * m) - x * y;
      assert x * (t * m) == t * (x * m) == t * (y - x * x);
    }
    assert x * t > 0.0;
    if f > 0.0 {
      assert x * f > 0.0;
    } else {
      assert x * f <= 0.0;
    }
  }

  /** Flooring the ratio first does not change the second floor, and loses less than one each time. */
  lemma RealQuotients(a: u64, b: u64, pb: u128, y: real, z: real)
    requires a > 0 && pb > 0
    requires y * a as real == (b * TWO_128) as real
    requires z * pb as real == y
    ensures Ratio(a, b) as real <= y < Ratio(a, b) as real + 1.0
    ensures (Ratio(a, b) / pb) as real <= z < (Ratio(a, b) / pb) as real + 1.0
  {
    var x, ratio := b * TWO_128, Ratio(a, b);
    DivMeans(x, a);
    CastProduct(ratio, a);
    RealFloor(x as real, a as real, ratio as real, y);
    var whole := ratio / pb;
    DivMeans(ratio, pb);
    CastProduct(whole, pb);
    RealFloor(y, pb as real, whole as real, z);
  }

  lemma RealFloor(x: real, d: real, q: real, y: real)
    requires d > 0.0 && y * d == x && q * d <= x < q * d + d
    ensures q <= y < q + 1.0
  {
    assert (y - q) * d == x - q * d;
    RealSign(y - q, d);
    assert (y - q - 1.0) * d == x - q * d - d;
    RealSign(y - q - 1.0, d);
  }

  lemma RealSign(p: real, d: real)
    requires d > 0.0
    ensures p * d < 0.0 <==> p < 0.0
  {
  }

  /** A positive solution of the documented equation `s^2 + s * (y / pb - pa) = y`, over the reals. */
  ghost predicate SolvesReal(x: real, a: u64, b: u64, pa: u128, pb: u128)
    requires a > 0 && pb > 0
  {
    var y := (b * TWO_128) as real / a as real;
    x > 0.0 && x * x + x * (y / pb as real - pa as real) == y
  }

  lemma BelowNextFloorPrice(a: u64, b: u64, pa: u128, pb: u128, s: nat, x: real)
    requires a > 0 && b > 0 && pa < pb && IsFloorPrice(s, Slope(a, b, pa, pb), Ratio(a, b))
    requires SolvesReal(x, a, b, pa, pb)
    ensures x < (s + 1) as real
  {
    var y := (b * TWO_128) as real / a as real;
    RealQuotients(a, b, pb, y, y / pb as real);
    NextPriceOvershoots(s, Slope(a, b, pa, pb), Ratio(a, b));
    BelowNextPrice(s + 1, Slope(a, b, pa, pb), y / pb as real - pa as real, Ratio(a, b), y, x);
  }

  lemma AbovePreviousFloorPrice(a: u64, b: u64, pa: u128, pb: u128, s: nat, x: real)
    requires a > 0 && b > 0 && pa < pb && IsFloorPrice(s, Slope(a, b, pa, pb), Ratio(a, b)) && s >= 2
    requires SolvesReal(x, a, b, pa, pb)
    ensures s as real - 1.0 <= x
  {
    var y := (b * TWO_128) as real / a as real;
    RealQuotients(a, b, pb, y, y / pb as real);
    RatioBounds(a, b);
    FloorPriceInRange(a, b, pa, pb, s);
    DivAtLeast(Ratio(a, b), pb, 0);
    NextPriceOvershoots(s, Slope(a, b, pa, pb), Ratio(a, b));
    AbovePreviousPrice(s, Slope(a, b, pa, pb), y / pb as real - pa as real, Ratio(a, b), y, x);
  }

  /**
   The documented equation has real coefficients; the code floors `y` and `y / pb` first. The floor
   price is still within one unit of the real solution.
   */
  lemma WithinOneOfRealSolution(a: u64, b: u64, pa: u128, pb: u128, s: nat, x: real)
    requires a > 0 && b > 0 && pa < pb && IsFloorPrice(s, Slope(a, b, pa, pb), Ratio(a, b))
    requires SolvesReal(x, a, b, pa, pb)
    ensures s as real - 1.0 <= x < s as real + 1.0
  {
    BelowNextFloorPrice(a, b, pa, pb, s, x);
    if s >= 2 {
      AbovePreviousFloorPrice(a, b, pa, pb, s, x);
    }
  }

  lemma NextPriceOvershoots(s: nat, slope: int, ratio: nat)
    requires IsFloorPrice(s, slope, ratio)
    ensures AtMost(s, slope, ratio) && !AtMost(s + 1, slope, ratio)
  {
  }

  lemma BelowNextPrice(t: nat, slope: int, m: real, ratio: nat, y: real, x: real)
    requires t > 0 && !AtMost(t, slope, ratio)
    requires slope as real <= m && 0.0 < y < ratio as real + 1.0
    requires x > 0.0 && x * x + x * m == y
    ensures x < t as real
  {
    CastProduct(t, t);
    CastProduct(t, slope);
    RealOvershoot(t as real, slope as real, m, ratio as real, y);
    SideOfRoot(t as real, x, m, y);
  }

  lemma AbovePreviousPrice(s: nat, slope: int, m: real, ratio: nat, y: real, x: real)
    requires s >= 2 && AtMost(s, slope, ratio) && s + slope >= 0
    requires m <= slope as real + 1.0 && 0.0 < ratio as real <= y
    requires x > 0.0 && x * x + x * m == y
    ensures s as real - 1.0 <= x
  {
    CastProduct(s, s);
    CastProduct(s, slope);
    RealUndershoot(s as real, slope as real, m, ratio as real, y);
    SideOfRoot(s as real - 1.0, x, m, y);
  }

  lemma RealOvershoot(t: real, slope: real, m: real, ratio: real, y: real)
    requires t > 0.0 && slope <= m && t * t + t * slope >= ratio + 1.0 > y
    ensures t * t + t * m > y
  {
    assert t * m - t * slope == t * (m - slope) >= 0.0;
  }

  lemma RealDistribute(p: real, q: real, r: real)
    ensures p * (q - r) == p * q - p * r
  {
  }

  lemma RealUndershoot(s: real, slope: real, m: real, ratio: real, y: real)
    requires s >= 1.0 && m <= slope + 1.0 && s + slope >= 0.0 && s * s + s * slope <= ratio <= y
    ensures (s - 1.0) * (s - 1.0) + (s - 1.0) * m <= y
  {
    var p, gap := s - 1.0, slope + 1.0 - m;
    assert p * gap >= 0.0;
    RealDistribute(p, slope + 1.0, m);
    assert p * p + p * (slope + 1.0) == p * (p + (slope + 1.0)) == p * (s + slope);
    assert p * (s + slope) == s * (s + slope) - (s + slope);
    assert s * (s + slope) == s * s + s * slope;
  }

  // ---- The price that is returned ----

  /** What is left of a wrapped discriminant has a smaller root than `delta`. */
  lemma WrappedWord(disc: nat, delta: u128, constant: nat) returns (word: nat)
    requires disc == delta * delta + constant && disc >= TWO_256
    requires constant < 4 * TWO_192
    ensures word == disc % TWO_256 && Isqrt(word) < delta
  {
    ProductBound(delta, delta, TWO_128 - 1, TWO_128 - 1);
    ModWrapped(disc, TWO_256);
    word := disc - TWO_256;
    RootBounds(word, delta);
  }

  lemma HalfSumBelow(root: nat, delta: u128, pa: nat)
    requires root < delta <= pa
    ensures var price := ToU128(WrapAdd(root, delta) / 2); price.Some? && price.value < pa
  {
    ModSmall(root + delta, TWO_256);
  }

  lemma LowerParts(a: u64, b: u64, pa: u128, pb: u128) returns (delta: u128, constant: nat)
    requires a > 0 && b > 0 && pb > 0 && Slope(a, b, pa, pb) <= 0
    ensures delta == -Slope(a, b, pa, pb) && delta <= pa && constant < 4 * TWO_192
    ensures Discriminant(a, b, pa, pb) == delta * delta + constant
  {
    RatioBounds(a, b);
    DivAtLeast(Ratio(a, b), pb, 0);
    var slope := Slope(a, b, pa, pb);
    delta, constant := -slope, (4 * (b * TWO_128)) / a;
    assert slope * slope == delta * delta;
  }

  /** A returned price lies in the range exactly when the discriminant fits; otherwise it is below it, whatever the range. */
  lemma ReturnedPriceInRangeIff(a: u64, b: u64, pa: u128, pb: u128, s: u128)
    requires a > 0 && b > 0 && pa < pb
    requires CalculateConcentratedInitialSqrtPrice(a, b, pa, pb) == Value(Some(s))
    ensures if Discriminant(a, b, pa, pb) < TWO_256 then pa <= s < pb else s < pa
  {
    ConcentratedPriceExact(a, b, pa, pb);
    if Discriminant(a, b, pa, pb) < TWO_256 {
      FloorPriceInRange(a, b, pa, pb, s);
    } else {
      LowerBranch(a, b, pa, pb);
      var delta, constant := LowerParts(a, b, pa, pb);
      var word := WrappedWord(Discriminant(a, b, pa, pb), delta, constant);
      HalfSumBelow(Isqrt(word), delta, pa);
    }
  }

  /** A range and a deposit for which the second branch wraps: the returned price is far below the range. */
  lemma SecondBranchWraps()
    ensures var a, b, pa, pb := 1, 3, TWO_128 - 3, TWO_128 - 1;
      && Ratio(a, b) <= pa * pb && Discriminant(a, b, pa, pb) >= TWO_256
      && CalculateConcentratedInitialSqrtPrice(a, b, pa, pb) == Value(Some(TWO_128 / 2))
  {
    var pb := TWO_128 - 1;
    DivUnique(3 * TWO_128, 1, 3 * TWO_128);
    DivUnique(3 * TWO_128, pb, 3);
    DivUnique(4 * (3 * TWO_128), 1, 4 * (3 * TWO_128));
    LowerBranch(1, 3, TWO_128 - 3, pb);
    assert Discriminant(1, 3, TWO_128 - 3, pb) == TWO_256 + 36;
    ModWrapped(TWO_256 + 36, TWO_256);
    RootUnique(36, Isqrt(36), 6);
    ModSmall(TWO_128, TWO_256);
  }

  /** A range and a deposit for which the first branch wraps: no price is returned, though there is one. */
  lemma FirstBranchWraps()
    ensures var a, b, pa, pb := 1, U64_MAX, 0, 0x2_0000_0000;
      && Ratio(a, b) > pa * pb && Discriminant(a, b, pa, pb) >= TWO_256
      && CalculateConcentratedInitialSqrtPrice(a, b, pa, pb) == Value(None)
      && exists s: u128 :: IsFloorPrice(s, Slope(a, b, pa, pb), Ratio(a, b))
  {
    var a, b, pa, pb := 1, U64_MAX, 0, 0x2_0000_0000;
    var whole := U64_MAX * 0x8000_0000_0000_0000_0000_0000;
    DivUnique(b * TWO_128, 1, b * TWO_128);
    DivUnique(b * TWO_128, pb, whole);
    DivUnique(4 * (b * TWO_128), 1, 4 * (b * TWO_128));
    assert Slope(a, b, pa, pb) == whole;
    RatioBounds(a, b);
    var s := SignedRoot(whole, Ratio(a, b), Discriminant(a, b, pa, pb));
    FloorPriceInRange(a, b, pa, pb, s);
    ConcentratedPriceExact(a, b, pa, pb);
  }

  /**
   What is returned when the discriminant fits, as it does for every deposit once the range keeps to
   the bounds below: the floor price, in the range, and within one unit of the real solution.
   */
  lemma ReturnedPriceIsRight(a: u64, b: u64, pa: u128, pb: u128)
    requires a > 0 && b > 0 && pa < pb
    requires Discriminant(a, b, pa, pb) < TWO_256 || (2 * pa < TWO_128 && pb >= 0x2_0000_0000_0000_0000)
    ensures var price := CalculateConcentratedInitialSqrtPrice(a, b, pa, pb);
      && price.Value? && price.value.Some?
      && pa <= price.value.value < pb
      && IsFloorPrice(price.value.value, Slope(a, b, pa, pb), Ratio(a, b))
      && forall x: real | SolvesReal(x, a, b, pa, pb) ::
           price.value.value as real - 1.0 <= x < price.value.value as real + 1.0
  {
    if 2 * pa < TWO_128 && pb >= 0x2_0000_0000_0000_0000 {
      RangeRulesOutWrapping(a, b, pa, pb);
    }
    ConcentratedPriceExact(a, b, pa, pb);
    var s := CalculateConcentratedInitialSqrtPrice(a, b, pa, pb).value.value;
    FloorPriceInRange(a, b, pa, pb, s);
    forall x: real | SolvesReal(x, a, b, pa, pb)
      ensures s as real - 1.0 <= x < s as real + 1.0
    {
      WithinOneOfRealSolution(a, b, pa, pb, s, x);
    }
  }

  // ---- Compounding liquidity ----

  function DivCeil(x: nat, y: nat): nat
    requires y > 0
  {
    DivAtLeast(x + y - 1, y, 0);
    (x + y - 1) / y
  }

  function CalculateCompoundingInitialSqrtPriceAndLiquidity(
    tokenA: u64, tokenB: u64): (result: Outcome<Option<(u128, u128)>>)
  {
    if tokenA == 0 then Panic
    else
      match ToU128(Isqrt(DivCeil(tokenB * TWO_128, tokenA)))
      case None => Value(None)
      case Some(sqrtPrice1) =>
        if sqrtPrice1 < MIN_SQRT_PRICE || sqrtPrice1 > MAX_SQRT_PRICE then Value(None)
        else
          match ToU128(Isqrt(tokenB * TWO_128 / tokenA))
          case None => Value(None)
          case Some(sqrtPrice2) =>
            match ToU128(sqrtPrice2 * tokenA)
            case None => Value(None)
            case Some(liquidity) => Value(Some((sqrtPrice1, liquidity)))
  }

  /** What the pool asks for when it is opened: both amounts rounded up, then cast to 64 bits. */
  function GetInitialTokenA(sqrtPrice: u128, liquidity: u128): Outcome<Option<u64>> {
    if sqrtPrice == 0 then Panic
    else
      var amount := DivCeil(liquidity, sqrtPrice);
      Value(if amount <= U64_MAX then Some(amount) else None)
  }

  function GetInitialTokenB(sqrtPrice: u128, liquidity: u128): Outcome<Option<u64>> {
    if liquidity * sqrtPrice >= TWO_256 then Value(None)
    else
      var amount := DivCeil(liquidity * sqrtPrice, TWO_128);
      Value(if amount <= U64_MAX then Some(amount) else None)
  }

  lemma DivCeilMeans(x: nat, y: nat, q: nat)
    requires y > 0
    ensures DivCeil(x, y) <= q <==> x <= q * y
  {
    DivAtLeast(x + y - 1, y, q + 1);
    Distribute(q, 1, y);
  }

  lemma CeilOverFloor(x: nat, y: nat)
    requires y > 0
    ensures x / y <= DivCeil(x, y) <= x / y + 1
  {
    DivMeans(x, y);
    DivCeilMeans(x, y, x / y + 1);
    Distribute(x / y, 1, y);
    DivMonotone(x, x + y - 1, y);
  }

  /** The two roundings of the price, as facts about the deposits alone. */
  lemma CompoundingRoots(a: u64, b: u64, s1: nat, s2: nat)
    requires a > 0
    requires s1 == Isqrt(DivCeil(b * TWO_128, a)) && s2 == Isqrt(b * TWO_128 / a)
    ensures s2 <= s1 <= s2 + 1
    ensures (s2 * s1) * a <= b * TWO_128 < ((s2 + 1) * (s2 + 1)) * a
  {
    var x := b * TWO_128;
    CeilOverFloor(x, a);
    AdjacentRoots(x / a, DivCeil(x, a));
    DivAtLeast(x, a, (s2 + 1) * (s2 + 1));
    DivAtLeast(x, a, s2 * s1);
  }

  /** Roots of neighbouring numbers are neighbours, and their product is at most the smaller number. */
  lemma AdjacentRoots(down: nat, up: nat)
    requires down <= up <= down + 1
    ensures var s2, s1 := Isqrt(down), Isqrt(up);
      s2 <= s1 <= s2 + 1 && s2 * s1 <= down < (s2 + 1) * (s2 + 1)
  {
    var s2 := Isqrt(down);
    RootMonotone(down, up);
    RootBounds(up, s2 + 2);
    assert (s2 + 2) * (s2 + 2) == (s2 + 1) * (s2 + 1) + 2 * s2 + 3;
    assert (s2 + 1) * (s2 + 1) == s2 * s2 + 2 * s2 + 1;
    RootBounds(up, s2 + 1);
    assert s2 * (s2 + 1) == s2 * s2 + s2;
  }

  /** The liquidity product never overflows: it is the geometric mean of the deposits, and leaves 64 bits of room. */
  lemma LiquidityFits(a: u64, b: u64, s2: nat)
    requires a > 0 && s2 == Isqrt(b * TWO_128 / a)
    ensures s2 <= s2 * a <= U64_MAX * 0x1_0000_0000_0000_0000
  {
    DivMeans(b * TWO_128, a);
    DivAtLeast(b * TWO_128, a, 0);
    ProductBound(s2 * s2, a, b * TWO_128 / a, a);
    LiquidityStaysBelow(a, b, s2);
    ProductBound(s2, 1, s2, a);
  }

  lemma LiquidityStaysBelow(a: u64, b: u64, s2: nat)
    requires (s2 * s2) * a <= b * TWO_128
    ensures s2 * a <= U64_MAX * 0x1_0000_0000_0000_0000
  {
    var l, top := s2 * a, U64_MAX * 0x1_0000_0000_0000_0000;
    assert l * l == ((s2 * s2) * a) * a;
    ProductBound((s2 * s2) * a, a, b * TWO_128, a);
    ProductBound(b * TWO_128, a, U64_MAX * TWO_128, U64_MAX);
    SquareLess(l, top + 1);
  }

  /** A result is refused only because the price is outside the allowed range. */
  lemma CompoundingSucceedsIff(a: u64, b: u64)
    ensures var result := CalculateCompoundingInitialSqrtPriceAndLiquidity(a, b);
      if a == 0 then result == Panic
      else
        && result.Value?
        && (result.value.Some? <==>
              4295048016 <= Isqrt(DivCeil(b * TWO_128, a)) <= 79226673521066979257578248091)
        && (result.value.Some? ==>
              result.value.value == (Isqrt(DivCeil(b * TWO_128, a)), Isqrt(b * TWO_128 / a) * a))
  {
    if a > 0 {
      var s1, s2 := Isqrt(DivCeil(b * TWO_128, a)), Isqrt(b * TWO_128 / a);
      CompoundingRoots(a, b, s1, s2);
      LiquidityFits(a, b, s2);
    }
  }

  /**
   The liquidity a deposit buys never asks for more than the deposit, although the price is rounded
   up and the liquidity down; one more step of the lower price would already exceed token B.
   */
  lemma CompoundingCoveredByDeposit(a: u64, b: u64, s1: u128, liquidity: u128)
    requires CalculateCompoundingInitialSqrtPriceAndLiquidity(a, b) == Value(Some((s1, liquidity)))
    ensures liquidity <= s1 * a && liquidity * s1 <= b * TWO_128
    ensures exists s2: nat :: liquidity == s2 * a && s2 <= s1 <= s2 + 1
                         && b * TWO_128 < a * ((s2 + 1) * (s2 + 1))
    ensures var tokenA := GetInitialTokenA(s1, liquidity);
      tokenA.Value? && tokenA.value.Some? && tokenA.value.value <= a
    ensures var tokenB := GetInitialTokenB(s1, liquidity);
      tokenB.Value? && tokenB.value.Some? && tokenB.value.value <= b
  {
    CompoundingSucceedsIff(a, b);
    var s2 := Isqrt(b * TWO_128 / a);
    CompoundingRoots(a, b, s1, s2);
    DemandWithinDeposit(a, b, s1, s2);
  }

  lemma DemandWithinDeposit(a: u64, b: u64, s1: u128, s2: nat)
    requires 0 < s1 && s2 <= s1 && s2 * a < TWO_128
    requires (s2 * s1) * a <= b * TWO_128 < ((s2 + 1) * (s2 + 1)) * a
    ensures s2 * a <= s1 * a && (s2 * a) * s1 <= b * TWO_128 < a * ((s2 + 1) * (s2 + 1))
    ensures DivCeil(s2 * a, s1) <= a && DivCeil((s2 * a) * s1, TWO_128) <= b
  {
    ProductBound(s2, a, s1, a);
    assert (s2 * a) * s1 == (s2 * s1) * a;
    DivCeilMeans(s2 * a, s1, a);
    assert a * s1 == s1 * a;
    DivCeilMeans((s2 * a) * s1, TWO_128, b);
  }

  /** Of token B at most one unit is not taken, and of token A no more than a step of the price is worth. */
  lemma CompoundingLeavesLittle(a: u64, b: u64, s1: u128, liquidity: u128, tokenA: u64, tokenB: u64)
    requires CalculateCompoundingInitialSqrtPriceAndLiquidity(a, b) == Value(Some((s1, liquidity)))
    requires GetInitialTokenA(s1, liquidity) == Value(Some(tokenA))
    requires GetInitialTokenB(s1, liquidity) == Value(Some(tokenB))
    ensures b <= tokenB + 1
    ensures (a - tokenA) * s1 <= a
  {
    CompoundingSucceedsIff(a, b);
    var s2 := Isqrt(b * TWO_128 / a);
    CompoundingRoots(a, b, s1, s2);
    RoundingLeaves(a, b, s1, s2, liquidity);
  }

  lemma RoundingLeaves(a: u64, b: u64, s1: nat, s2: nat, liquidity: nat)
    requires 0 < s1 && s2 <= s1 <= s2 + 1 && liquidity == s2 * a
    requires (s2 * s1) * a <= b * TWO_128 < ((s2 + 1) * (s2 + 1)) * a
    ensures b <= DivCeil(liquidity * s1, TWO_128) + 1
    ensures (a - DivCeil(liquidity, s1)) * s1 <= a
  {
    var tokenA, tokenB := DivCeil(liquidity, s1), DivCeil(liquidity * s1, TWO_128);
    DivCeilMeans(liquidity, s1, tokenA);
    DivCeilMeans(liquidity * s1, TWO_128, tokenB);
    LeavesOfA(a, s1, s2, tokenA);
    ProductBound(s2, s2, s2, s1);
    ProductBound(s2 * s2, a, s2 * s1, a);
    LiquidityStaysBelow(a, b, s2);
    LeavesOfB(a, b, s1, s2, tokenB);
  }

  lemma LeavesOfB(a: u64, b: u64, s1: nat, s2: nat, tokenB: nat)
    requires s2 <= s1 && (s2 * a) * s1 <= tokenB * TWO_128
    requires b * TWO_128 < ((s2 + 1) * (s2 + 1)) * a
    requires s2 * a <= U64_MAX * 0x1_0000_0000_0000_0000
    ensures b <= tokenB + 1
  {
    NextSquareTimes(s2, a);
    ProductBound(s2 * a, s2, s2 * a, s1);
  }

  lemma NextSquareTimes(s: nat, a: nat)
    ensures ((s + 1) * (s + 1)) * a == (s * a) * s + 2 * (s * a) + a
    ensures s * a >= 0
  {
  }

  lemma LeavesOfA(a: nat, s1: nat, s2: nat, tokenA: nat)
    requires s1 <= s2 + 1 && s2 * a <= tokenA * s1
    ensures (a - tokenA) * s1 <= a
  {
    ProductBound(s1, a, s2 + 1, a);
    assert (a - tokenA) * s1 == s1 * a - tokenA * s1 && (s2 + 1) * a == s2 * a + a;
  }

  /** What the pool asks for are the least amounts that pay for the liquidity at the price. */
  lemma InitialTokensMean(sqrtPrice: u128, liquidity: u128, tokenA: u64, tokenB: u64)
    requires GetInitialTokenA(sqrtPrice, liquidity) == Value(Some(tokenA))
    requires GetInitialTokenB(sqrtPrice, liquidity) == Value(Some(tokenB))
    ensures liquidity <= tokenA * sqrtPrice < liquidity + sqrtPrice
    ensures liquidity * sqrtPrice <= tokenB * TWO_128 < liquidity * sqrtPrice + TWO_128
  {
    ProductBound(liquidity, sqrtPrice, liquidity, sqrtPrice);
    LeastMultiple(liquidity, sqrtPrice);
    LeastMultiple(liquidity * sqrtPrice, TWO_128);
  }

  lemma LeastMultiple(x: nat, y: nat)
    requires y > 0
    ensures x <= DivCeil(x, y) * y < x + y
  {
    DivCeilMeans(x, y, DivCeil(x, y));
    DivMeans(x + y - 1, y);
  }
}
