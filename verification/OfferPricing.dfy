/**
 What a buyer receives: the stepwise price of the active vector, the fee, and the conversion
 between tokens of different precision. All divisions round down.
 */
module OfferPricing {
  import opened Outcomes
  import opened Arithmetic
  import opened OfferVectors

  const SECONDS_IN_YEAR := 31_536_000
  const APR_SCALE := 1_000_000
  const FACTOR_DEN: nat := APR_SCALE * SECONDS_IN_YEAR
  const PRICE_DECIMALS := 9
  const MAX_BASIS_POINTS := 10000

  // ---- The price of a vector at a time ----

  /** Linear growth, rounded down. */
  function LinearPrice(apr: nat, basePrice: nat, elapsed: nat): nat {
    (basePrice * (FACTOR_DEN + apr * elapsed)) / FACTOR_DEN
  }

  /** The end of the interval that `elapsed` falls in. */
  function StepEnd(elapsed: nat, duration: nat): nat
    requires duration > 0
  {
    (elapsed / duration + 1) * duration
  }

  /** Every checked operation that can fail on the way panics. */
  function CalculatePrice(
    apr: u64, basePrice: u64, baseTime: u64, priceFixDuration: u64, currentTime: u64): Outcome<u64>
  {
    if baseTime > currentTime then Value(basePrice)
    else if priceFixDuration == 0 then Panic
    else
      var elapsed := currentTime - baseTime;
      var currentStep := elapsed / priceFixDuration;
      var stepEndTime := StepEnd(elapsed, priceFixDuration);
      if currentStep + 1 > U64_MAX || stepEndTime > U64_MAX then Panic
      else
        var factorNum := FACTOR_DEN + apr * stepEndTime;
        if factorNum >= TWO_128 || basePrice * factorNum >= TWO_128 then Panic
        else
          var price := LinearPrice(apr, basePrice, stepEndTime);
          if price > U64_MAX then Panic else Value(price)
  }

  lemma LinearPriceMonotone(apr: nat, basePrice: nat, e: nat, e': nat)
    requires e <= e'
    ensures basePrice * (FACTOR_DEN + apr * e) <= basePrice * (FACTOR_DEN + apr * e')
    ensures basePrice <= LinearPrice(apr, basePrice, e) <= LinearPrice(apr, basePrice, e')
  {
    ProductBound(apr, e, apr, e');
    ProductBound(basePrice, FACTOR_DEN + apr * e, basePrice, FACTOR_DEN + apr * e');
    DivMonotone(basePrice * (FACTOR_DEN + apr * e), basePrice * (FACTOR_DEN + apr * e'), FACTOR_DEN);
    ProductBound(basePrice, FACTOR_DEN, basePrice, FACTOR_DEN + apr * e);
    DivAtLeast(basePrice * (FACTOR_DEN + apr * e), FACTOR_DEN, basePrice);
  }

  /** The end of the interval lies after `elapsed`, by no more than one duration. */
  lemma StepEndAhead(elapsed: nat, duration: nat)
    requires duration > 0
    ensures elapsed < StepEnd(elapsed, duration) <= elapsed + duration
    ensures StepEnd(elapsed, duration) % duration == 0
  {
    DivMeans(elapsed, duration);
    Distribute(elapsed / duration, 1, duration);
    DivUnique(StepEnd(elapsed, duration), duration, elapsed / duration + 1);
  }

  lemma StepEndMonotone(e: nat, e': nat, duration: nat)
    requires duration > 0 && e <= e'
    ensures e / duration <= e' / duration
    ensures StepEnd(e, duration) <= StepEnd(e', duration)
  {
    DivMonotone(e, e', duration);
    ProductBound(e / duration + 1, duration, e' / duration + 1, duration);
  }

  /** Prices within one interval are the same, and so is whether there is one. */
  lemma ConstantOnInterval(apr: u64, basePrice: u64, baseTime: u64, duration: u64, t: u64, t': u64)
    requires duration > 0 && baseTime <= t && baseTime <= t'
    requires (t - baseTime) / duration == (t' - baseTime) / duration
    ensures CalculatePrice(apr, basePrice, baseTime, duration, t)
         == CalculatePrice(apr, basePrice, baseTime, duration, t')
  {
  }

  /** From the base time on, the price is the linear price at the end of the interval. */
  lemma PriceIsLinearAtStepEnd(apr: u64, basePrice: u64, baseTime: u64, duration: u64, t: u64)
    requires duration > 0 && baseTime <= t
    ensures var price := CalculatePrice(apr, basePrice, baseTime, duration, t);
      var end := StepEnd(t - baseTime, duration);
      if end <= U64_MAX && basePrice * (FACTOR_DEN + apr * end) < TWO_128
         && LinearPrice(apr, basePrice, end) <= U64_MAX
      then price == Value(LinearPrice(apr, basePrice, end))
      else price == Panic
  {
    var elapsed := t - baseTime;
    var end := StepEnd(elapsed, duration);
    if end <= U64_MAX {
      StepCountFits(elapsed, duration);
      ProductBound(apr, end, U64_MAX, U64_MAX);
    }
  }

  lemma StepCountFits(elapsed: nat, duration: nat)
    requires duration > 0
    ensures elapsed / duration + 1 <= StepEnd(elapsed, duration)
  {
    DivAtLeast(elapsed, duration, 0);
    ProductBound(elapsed / duration + 1, 1, elapsed / duration + 1, duration);
  }

  /** The price is at least the base price, and between the linear prices now and one duration ahead. */
  lemma PriceSandwich(apr: u64, basePrice: u64, baseTime: u64, duration: u64, t: u64, price: u64)
    requires CalculatePrice(apr, basePrice, baseTime, duration, t) == Value(price)
    ensures basePrice <= price
    ensures t >= baseTime ==> LinearPrice(apr, basePrice, t - baseTime) <= price
    ensures t >= baseTime ==> price <= LinearPrice(apr, basePrice, t - baseTime + duration)
  {
    if t >= baseTime {
      var elapsed := t - baseTime;
      PriceIsLinearAtStepEnd(apr, basePrice, baseTime, duration, t);
      StepEndAhead(elapsed, duration);
      LinearPriceMonotone(apr, basePrice, elapsed, StepEnd(elapsed, duration));
      LinearPriceMonotone(apr, basePrice, StepEnd(elapsed, duration), elapsed + duration);
    }
  }

  /** Prices never fall, across the base time too; and a price that exists later exists earlier. */
  lemma PriceMonotone(apr: u64, basePrice: u64, baseTime: u64, duration: u64, t: u64, t': u64)
    requires t <= t' && CalculatePrice(apr, basePrice, baseTime, duration, t').Value?
    ensures var price := CalculatePrice(apr, basePrice, baseTime, duration, t);
      price.Value? && price.value <= CalculatePrice(apr, basePrice, baseTime, duration, t').value
  {
    if t < baseTime {
      PriceSandwich(apr, basePrice, baseTime, duration, t', CalculatePrice(apr, basePrice, baseTime, duration, t').value);
    } else {
      PriceIsLinearAtStepEnd(apr, basePrice, baseTime, duration, t);
      PriceIsLinearAtStepEnd(apr, basePrice, baseTime, duration, t');
      StepEndMonotone(t - baseTime, t' - baseTime, duration);
      LinearPriceMonotone(apr, basePrice, StepEnd(t - baseTime, duration), StepEnd(t' - baseTime, duration));
    }
  }

  // ---- Fees and conversion ----

  /** The fee rounds down, and its cast to 64 bits truncates. */
  function Fee(amount: u64, feeBasisPoints: u16): u64 {
    (amount * feeBasisPoints / MAX_BASIS_POINTS) % 0x1_0000_0000_0000_0000
  }

  /** What is left after the fee; the subtraction panics when the fee is larger. */
  function Net(amount: u64, feeBasisPoints: u16): Outcome<u64> {
    var fee := Fee(amount, feeBasisPoints);
    if fee > amount then Panic else Value(amount - fee)
  }

  /** The conversion in exact arithmetic, rounded down. */
  function TokenOut(tokenIn: nat, price: nat, inScale: nat, outScale: nat): nat
    requires price > 0 && inScale > 0
  {
    ProductPositive(price, inScale);
    WorthIsNat(tokenIn, outScale);
    DivAtLeast(tokenIn * Pow10(PRICE_DECIMALS) * outScale, price * inScale, 0);
    (tokenIn * Pow10(PRICE_DECIMALS) * outScale) / (price * inScale)
  }

  lemma WorthIsNat(tokenIn: nat, outScale: nat)
    ensures tokenIn * Pow10(PRICE_DECIMALS) * outScale >= 0
  {
    var k := tokenIn * Pow10(PRICE_DECIMALS);
    ProductBound(k, outScale, k, outScale);
  }

  lemma ProductPositive(x: nat, y: nat)
    requires x > 0 && y > 0
    ensures x * y > 0
  {
  }

  /** The powers of ten and all products are checked in 128 bits; a zero price divides by zero. */
  function CalculateTokenOut(
    tokenInAmount: u64, price: u64, tokenInDecimals: nat, tokenOutDecimals: nat): Outcome<u64>
  {
    var inScale, outScale := Pow10(tokenInDecimals), Pow10(tokenOutDecimals);
    var scaled := tokenInAmount * Pow10(PRICE_DECIMALS);
    if scaled >= TWO_128 || outScale >= TWO_128 || scaled * outScale >= TWO_128 then Panic
    else if inScale >= TWO_128 || price * inScale >= TWO_128 || price == 0 then Panic
    else
      var tokenOut := TokenOut(tokenInAmount, price, inScale, outScale);
      if tokenOut > U64_MAX then Panic else Value(tokenOut)
  }

  /** What a buyer receives for a payment at a price. */
  function Purchase(
    amount: u64, feeBasisPoints: u16, price: u64, tokenInDecimals: nat, tokenOutDecimals: nat): Outcome<u64>
  {
    var net := Net(amount, feeBasisPoints);
    if net.Panic? then Panic else CalculateTokenOut(net.value, price, tokenInDecimals, tokenOutDecimals)
  }

  /** The fee never exceeds the payment, whatever the payment, exactly up to 100%. */
  lemma FeeNeverPanicsIff(feeBasisPoints: u16)
    ensures (forall amount: u64 :: Net(amount, feeBasisPoints).Value?) <==> feeBasisPoints <= MAX_BASIS_POINTS
  {
    if feeBasisPoints <= MAX_BASIS_POINTS {
      forall amount: u64
        ensures Net(amount, feeBasisPoints).Value?
      {
        NetExact(amount, feeBasisPoints);
      }
    } else {
      DivUnique(MAX_BASIS_POINTS * feeBasisPoints, MAX_BASIS_POINTS, feeBasisPoints);
      ModSmall(feeBasisPoints, 0x1_0000_0000_0000_0000);
      assert Net(MAX_BASIS_POINTS, feeBasisPoints).Panic?;
    }
  }

  /** The net payment without the word size. */
  function ExactNet(amount: nat, feeBasisPoints: nat): int {
    amount - amount * feeBasisPoints / MAX_BASIS_POINTS
  }

  /** The net payment is the fee's complement, rounded up. */
  lemma NetMeans(amount: nat, feeBasisPoints: nat)
    requires feeBasisPoints <= MAX_BASIS_POINTS
    ensures var net, rest := ExactNet(amount, feeBasisPoints), amount * (MAX_BASIS_POINTS - feeBasisPoints);
      0 <= net <= amount && rest <= net * MAX_BASIS_POINTS < rest + MAX_BASIS_POINTS
  {
    DivMeans(amount * feeBasisPoints, MAX_BASIS_POINTS);
    ProductBound(amount, feeBasisPoints, amount, MAX_BASIS_POINTS);
    DivAtLeast(amount * feeBasisPoints, MAX_BASIS_POINTS, 0);
    assert amount * (MAX_BASIS_POINTS - feeBasisPoints) == amount * MAX_BASIS_POINTS - amount * feeBasisPoints;
  }

  lemma NetExact(amount: u64, feeBasisPoints: u16)
    requires feeBasisPoints <= MAX_BASIS_POINTS
    ensures Net(amount, feeBasisPoints) == Value(ExactNet(amount, feeBasisPoints))
  {
    NetMeans(amount, feeBasisPoints);
    DivAtLeast(amount * feeBasisPoints, MAX_BASIS_POINTS, 0);
    ModSmall(amount * feeBasisPoints / MAX_BASIS_POINTS, 0x1_0000_0000_0000_0000);
  }

  /** Dearer tokens, fewer of them; a larger payment, at least as many. */
  lemma TokenOutMonotone(t: nat, t': nat, price: nat, price': nat, inScale: nat, outScale: nat)
    requires t <= t' && 0 < price <= price' && inScale > 0
    ensures TokenOut(t, price', inScale, outScale) <= TokenOut(t', price, inScale, outScale)
  {
    var n, n' := t * Pow10(PRICE_DECIMALS) * outScale, t' * Pow10(PRICE_DECIMALS) * outScale;
    ProductBound(t, Pow10(PRICE_DECIMALS), t', Pow10(PRICE_DECIMALS));
    ProductBound(t * Pow10(PRICE_DECIMALS), outScale, t' * Pow10(PRICE_DECIMALS), outScale);
    ProductPositive(price, inScale);
    ProductPositive(price', inScale);
    var d, d' := price * inScale, price' * inScale;
    ProductBound(price, inScale, price', inScale);
    var out := n / d';
    DivMeans(n, d');
    DivAtLeast(n, d', 0);
    ProductBound(out, d, out, d');
    DivAtLeast(n', d, out);
  }

  function PriceOf(v: OfferVector, time: u64): Outcome<u64> {
    CalculatePrice(v.apr, v.basePrice, v.baseTime, v.priceFixDuration, time)
  }

  /** What taking an offer at a time must give the buyer; without an active vector it panics. */
  function TakeOffer(
    vectors: seq<OfferVector>, feeBasisPoints: u16, amount: u64, time: u64, inDecimals: nat, outDecimals: nat)
    : Outcome<u64>
  {
    match FindActive(vectors, time)
    case None => Panic
    case Some(v) =>
      match PriceOf(v, time)
      case Panic => Panic
      case Value(price) => Purchase(amount, feeBasisPoints, price, inDecimals, outDecimals)
  }

  /** While the same vector stays active, waiting never buys more. */
  lemma WaitingNeverBuysMore(
    vectors: seq<OfferVector>, fee: u16, amount: u64, t: u64, t': u64, inDecimals: nat, outDecimals: nat)
    requires t <= t' && FindActive(vectors, t) == FindActive(vectors, t')
    requires TakeOffer(vectors, fee, amount, t', inDecimals, outDecimals).Value?
    ensures PriceOf(FindActive(vectors, t).value, t).Value?
    ensures var now := TakeOffer(vectors, fee, amount, t, inDecimals, outDecimals);
      now.Value? ==> TakeOffer(vectors, fee, amount, t', inDecimals, outDecimals).value <= now.value
  {
    var v := FindActive(vectors, t).value;
    PriceMonotone(v.apr, v.basePrice, v.baseTime, v.priceFixDuration, t, t');
    if TakeOffer(vectors, fee, amount, t, inDecimals, outDecimals).Value? {
      var net := Net(amount, fee).value;
      TokenOutMonotone(net, net, PriceOf(v, t).value, PriceOf(v, t').value, Pow10(inDecimals), Pow10(outDecimals));
    }
  }

  /** Nor does it matter when in an interval a purchase is made. */
  lemma SameWithinInterval(
    vectors: seq<OfferVector>, fee: u16, amount: u64, t: u64, t': u64, inDecimals: nat, outDecimals: nat)
    requires FindActive(vectors, t).Some? && FindActive(vectors, t) == FindActive(vectors, t')
    requires var v := FindActive(vectors, t).value;
      && v.priceFixDuration > 0 && v.baseTime <= t && v.baseTime <= t'
      && (t - v.baseTime) / v.priceFixDuration == (t' - v.baseTime) / v.priceFixDuration
    ensures TakeOffer(vectors, fee, amount, t, inDecimals, outDecimals)
         == TakeOffer(vectors, fee, amount, t', inDecimals, outDecimals)
  {
    var v := FindActive(vectors, t).value;
    ConstantOnInterval(v.apr, v.basePrice, v.baseTime, v.priceFixDuration, t, t');
  }

  /** Buyers cannot tell the cleaned array from the log of everything ever added. */
  lemma CleaningInvisibleToBuyers(
    start: nat, steps: seq<Step>, fee: u16, amount: u64, time: u64, inDecimals: nat, outDecimals: nat)
    requires EnabledRun(Fresh(start), steps) && time >= Run(Fresh(start), steps).now
    ensures var s := Run(Fresh(start), steps);
      TakeOffer(s.slots, fee, amount, time, inDecimals, outDecimals)
        == TakeOffer(s.log, fee, amount, time, inDecimals, outDecimals)
  {
    EveryRunRefinesLog(start, steps, time);
  }

  lemma TokenOutMeans(tokenIn: nat, price: nat, inScale: nat, outScale: nat)
    requires price > 0 && inScale > 0
    ensures var out, worth := TokenOut(tokenIn, price, inScale, outScale), tokenIn * Pow10(PRICE_DECIMALS) * outScale;
      out * (price * inScale) <= worth < (out + 1) * (price * inScale)
  {
    ProductPositive(price, inScale);
    DivMeans(tokenIn * Pow10(PRICE_DECIMALS) * outScale, price * inScale);
    Distribute(TokenOut(tokenIn, price, inScale, outScale), 1, price * inScale);
  }

  lemma Pow10Of38()
    ensures Pow10(38) == 100_000_000_000_000_000_000_000_000_000_000_000_000
    ensures Pow10(39) == 10 * Pow10(38)
  {
    assert Pow10(4) == 10_000;
    Pow10Sum(4, 4);
    Pow10Sum(8, 8);
    Pow10Sum(16, 3);
    Pow10Sum(19, 19);
  }

  /** A power of ten fits 128 bits exactly up to 38 decimals. */
  lemma ScaleFitsIff(decimals: nat)
    ensures Pow10(decimals) < TWO_128 <==> decimals <= 38
  {
    Pow10Of38();
    if decimals <= 38 {
      Pow10Monotone(decimals, 38);
    } else {
      Pow10Monotone(39, decimals);
    }
  }

  /** The factors that have to fit for a conversion. */
  predicate FactorsFit(tokenIn: u64, price: u64, inDecimals: nat, outDecimals: nat) {
    && price > 0 && inDecimals <= 38 && outDecimals <= 38
    && tokenIn * Pow10(PRICE_DECIMALS) * Pow10(outDecimals) < TWO_128
    && price * Pow10(inDecimals) < TWO_128
  }

  /** The checks along the way say no more than that. */
  lemma ChecksAreFactors(tokenIn: u64, price: u64, inDecimals: nat, outDecimals: nat)
    ensures var scaled, inScale, outScale := tokenIn * Pow10(PRICE_DECIMALS), Pow10(inDecimals), Pow10(outDecimals);
      FactorsFit(tokenIn, price, inDecimals, outDecimals) <==>
        && scaled < TWO_128 && outScale < TWO_128 && scaled * outScale < TWO_128
        && inScale < TWO_128 && price * inScale < TWO_128 && price > 0
  {
    ScaleFitsIff(inDecimals);
    ScaleFitsIff(outDecimals);
    ProductBound(tokenIn * Pow10(PRICE_DECIMALS), 1, tokenIn * Pow10(PRICE_DECIMALS), Pow10(outDecimals));
  }

  /** The conversion fails exactly when a factor does not fit, and is otherwise the exact one. */
  lemma TokenOutExact(tokenIn: u64, price: u64, inDecimals: nat, outDecimals: nat)
    ensures var tokenOut := CalculateTokenOut(tokenIn, price, inDecimals, outDecimals);
      if FactorsFit(tokenIn, price, inDecimals, outDecimals)
         && TokenOut(tokenIn, price, Pow10(inDecimals), Pow10(outDecimals)) <= U64_MAX
      then tokenOut == Value(TokenOut(tokenIn, price, Pow10(inDecimals), Pow10(outDecimals)))
      else tokenOut == Panic
  {
    ChecksAreFactors(tokenIn, price, inDecimals, outDecimals);
  }

  /** A purchase that goes through is the exact conversion of the net payment. */
  lemma PurchaseConverts(amount: u64, fee: u16, price: u64, inDecimals: nat, outDecimals: nat, net: u64, out: u64)
    requires Net(amount, fee) == Value(net)
    requires Purchase(amount, fee, price, inDecimals, outDecimals) == Value(out)
    ensures price > 0 && out == TokenOut(net, price, Pow10(inDecimals), Pow10(outDecimals))
  {
    TokenOutExact(net, price, inDecimals, outDecimals);
  }

  lemma ConversionWorth(net: nat, price: nat, inScale: nat, outScale: nat, out: nat)
    requires price > 0 && inScale > 0 && out == TokenOut(net, price, inScale, outScale)
    ensures out * (price * inScale) <= net * Pow10(PRICE_DECIMALS) * outScale
    ensures net * Pow10(PRICE_DECIMALS) * outScale < (out + 1) * (price * inScale)
  {
    TokenOutMeans(net, price, inScale, outScale);
  }

  lemma NetAtMost(amount: u64, fee: u16, net: u64)
    requires Net(amount, fee) == Value(net)
    ensures net <= amount
  {
  }

  /** No purchase is worth more, at its price, than the net payment; and it falls short by less than one unit. */
  lemma PurchaseWorthAtMostPayment(
    amount: u64, fee: u16, price: u64, inDecimals: nat, outDecimals: nat, net: u64, out: u64)
    requires Net(amount, fee) == Value(net)
    requires Purchase(amount, fee, price, inDecimals, outDecimals) == Value(out)
    ensures net <= amount
    ensures out * (price * Pow10(inDecimals)) <= net * Pow10(PRICE_DECIMALS) * Pow10(outDecimals)
    ensures net * Pow10(PRICE_DECIMALS) * Pow10(outDecimals) < (out + 1) * (price * Pow10(inDecimals))
  {
    NetAtMost(amount, fee, net);
    PurchaseConverts(amount, fee, price, inDecimals, outDecimals, net, out);
    ConversionWorth(net, price, Pow10(inDecimals), Pow10(outDecimals), out);
  }

  // ---- Splitting a purchase ----

  function Sum(xs: seq<nat>): (total: nat) {
    if xs == [] then 0 else xs[0] + Sum(xs[1..])
  }

  /** The net payments of the parts, and what each buys. */
  function Nets(parts: seq<nat>, fee: nat): (nets: seq<nat>)
    requires fee <= MAX_BASIS_POINTS
    ensures |nets| == |parts|
  {
    if parts == [] then [] else NetMeans(parts[0], fee); [ExactNet(parts[0], fee)] + Nets(parts[1..], fee)
  }

  function Outs(nets: seq<nat>, price: nat, inScale: nat, outScale: nat): (outs: seq<nat>)
    requires price > 0 && inScale > 0
    ensures |outs| == |nets|
  {
    if nets == [] then [] else [TokenOut(nets[0], price, inScale, outScale)] + Outs(nets[1..], price, inScale, outScale)
  }

  /** Rounded-up net payments of the parts exceed the whole's by less than one unit a part. */
  lemma {:induction false} SplitNets(parts: seq<nat>, fee: nat)
    requires parts != [] && fee <= MAX_BASIS_POINTS
    ensures ExactNet(Sum(parts), fee) <= Sum(Nets(parts, fee)) <= ExactNet(Sum(parts), fee) + |parts| - 1
  {
    if |parts| == 1 {
      assert parts[1..] == [];
      assert Nets(parts, fee)[1..] == [];
    } else {
      SplitNets(parts[1..], fee);
      assert Nets(parts, fee)[1..] == Nets(parts[1..], fee);
      NetOfSum(parts[0], Sum(parts[1..]), fee);
    }
  }

  lemma NetOfSum(x: nat, y: nat, fee: nat)
    requires fee <= MAX_BASIS_POINTS
    ensures ExactNet(x + y, fee) <= ExactNet(x, fee) + ExactNet(y, fee) <= ExactNet(x + y, fee) + 1
  {
    NetMeans(x, fee);
    NetMeans(y, fee);
    NetMeans(x + y, fee);
    Distribute(x, y, MAX_BASIS_POINTS - fee);
  }

  /** Rounded-down conversions of the parts fall short of the whole's by less than one unit a part. */
  lemma {:induction false} SplitOuts(nets: seq<nat>, price: nat, inScale: nat, outScale: nat)
    requires nets != [] && price > 0 && inScale > 0
    ensures var whole := TokenOut(Sum(nets), price, inScale, outScale);
      Sum(Outs(nets, price, inScale, outScale)) <= whole <= Sum(Outs(nets, price, inScale, outScale)) + |nets| - 1
  {
    var outs := Outs(nets, price, inScale, outScale);
    if |nets| == 1 {
      assert nets[1..] == [];
      assert outs[1..] == [];
    } else {
      SplitOuts(nets[1..], price, inScale, outScale);
      assert outs[1..] == Outs(nets[1..], price, inScale, outScale);
      OutOfSum(nets[0], Sum(nets[1..]), price, inScale, outScale);
    }
  }

  lemma OutOfSum(x: nat, y: nat, price: nat, inScale: nat, outScale: nat)
    requires price > 0 && inScale > 0
    ensures var whole := TokenOut(x + y, price, inScale, outScale);
      var split := TokenOut(x, price, inScale, outScale) + TokenOut(y, price, inScale, outScale);
      split <= whole <= split + 1
  {
    var k, d := Pow10(PRICE_DECIMALS), price * inScale;
    ProductPositive(price, inScale);
    Distribute(x, y, k);
    Distribute(x * k, y * k, outScale);
    FloorOfSum(x * k * outScale, y * k * outScale, d);
  }

  lemma FloorOfSum(x: nat, y: nat, d: nat)
    requires d > 0
    ensures x / d + y / d <= (x + y) / d <= x / d + y / d + 1
  {
    var q := x / d + y / d;
    DivMeans(x, d);
    DivMeans(y, d);
    Distribute(x / d, y / d, d);
    Distribute(q, 2, d);
    DivAtLeast(x + y, d, q);
    DivAtLeast(x + y, d, q + 2);
  }

  /**
   Splitting a payment into parts cannot buy more than the whole payment with one more net unit for
   every extra part, and loses less than one output unit for every extra part.
   */
  lemma SplittingBounds(parts: seq<u64>, fee: u16, price: u64, inDecimals: nat, outDecimals: nat, outs: seq<nat>)
    requires parts != [] && fee <= MAX_BASIS_POINTS && price > 0 && |outs| == |parts|
    requires forall i | 0 <= i < |parts| :: Purchase(parts[i], fee, price, inDecimals, outDecimals) == Value(outs[i])
    ensures var inScale, outScale := Pow10(inDecimals), Pow10(outDecimals);
      var net := ExactNet(Sum(parts), fee);
      && net >= 0
      && Sum(outs) <= TokenOut(net + |parts| - 1, price, inScale, outScale)
      && TokenOut(net, price, inScale, outScale) <= Sum(outs) + |parts| - 1
  {
    PurchasesAreOuts(parts, fee, price, inDecimals, outDecimals, outs);
    SplitExact(parts, fee, price, Pow10(inDecimals), Pow10(outDecimals));
  }

  lemma SplitExact(parts: seq<nat>, fee: nat, price: nat, inScale: nat, outScale: nat)
    requires parts != [] && fee <= MAX_BASIS_POINTS && price > 0 && inScale > 0
    ensures var net := ExactNet(Sum(parts), fee);
      var outs := Outs(Nets(parts, fee), price, inScale, outScale);
      && net >= 0
      && Sum(outs) <= TokenOut(net + |parts| - 1, price, inScale, outScale)
      && TokenOut(net, price, inScale, outScale) <= Sum(outs) + |parts| - 1
  {
    var nets := Nets(parts, fee);
    SplitNets(parts, fee);
    SplitOuts(nets, price, inScale, outScale);
    NetMeans(Sum(parts), fee);
    var net := ExactNet(Sum(parts), fee);
    TokenOutMonotone(Sum(nets), net + |parts| - 1, price, price, inScale, outScale);
    TokenOutMonotone(net, Sum(nets), price, price, inScale, outScale);
  }

  lemma {:induction false} PurchasesAreOuts(
    parts: seq<u64>, fee: u16, price: u64, inDecimals: nat, outDecimals: nat, outs: seq<nat>)
    requires fee <= MAX_BASIS_POINTS && price > 0 && |outs| == |parts|
    requires forall i | 0 <= i < |parts| :: Purchase(parts[i], fee, price, inDecimals, outDecimals) == Value(outs[i])
    ensures outs == Outs(Nets(parts, fee), price, Pow10(inDecimals), Pow10(outDecimals))
  {
    if parts != [] {
      PurchaseIsOut(parts[0], fee, price, inDecimals, outDecimals);
      assert forall i | 0 <= i < |parts| - 1 :: parts[1..][i] == parts[i + 1] && outs[1..][i] == outs[i + 1];
      PurchasesAreOuts(parts[1..], fee, price, inDecimals, outDecimals, outs[1..]);
      assert Nets(parts, fee)[1..] == Nets(parts[1..], fee);
      assert outs == [outs[0]] + outs[1..];
    }
  }

  lemma PurchaseIsOut(amount: u64, fee: u16, price: u64, inDecimals: nat, outDecimals: nat)
    requires fee <= MAX_BASIS_POINTS && price > 0
    requires Purchase(amount, fee, price, inDecimals, outDecimals).Value?
    ensures ExactNet(amount, fee) >= 0
    ensures Purchase(amount, fee, price, inDecimals, outDecimals).value
         == TokenOut(ExactNet(amount, fee), price, Pow10(inDecimals), Pow10(outDecimals))
  {
    NetMeans(amount, fee);
    NetExact(amount, fee);
  }
}
