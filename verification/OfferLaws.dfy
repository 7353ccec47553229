/** What a buyer can check of prices and purchases, in plain numbers. */
module OfferLaws {
  import opened Outcomes
  import opened Arithmetic
  import opened OfferVectors
  import opened OfferPricing

  // ---- The price ----

  /** `end` is the next multiple of the duration after the elapsed time. */
  predicate NextMultiple(end: nat, elapsed: nat, duration: nat) {
    duration > 0 && end % duration == 0 && elapsed < end <= elapsed + duration
  }

  lemma NextMultipleIsStepEnd(end: nat, elapsed: nat, duration: nat)
    requires NextMultiple(end, elapsed, duration)
    ensures StepEnd(elapsed, duration) == end
  {
    var k := end / duration;
    DivMeans(end, duration);
    assert end == k * duration;
    Distribute(k, -1, duration);
    DivUnique(elapsed, duration, k - 1);
  }

  lemma GrowthMeans(apr: nat, basePrice: nat, elapsed: nat)
    ensures var price, worth := LinearPrice(apr, basePrice, elapsed), basePrice * (31_536_000_000_000 + apr * elapsed);
      price * 31_536_000_000_000 <= worth < (price + 1) * 31_536_000_000_000
    ensures basePrice * (31_536_000_000_000 + apr * elapsed) >= 0
  {
    ProductBound(apr, elapsed, apr, elapsed);
    ProductBound(basePrice, 31_536_000_000_000 + apr * elapsed, basePrice, 31_536_000_000_000 + apr * elapsed);
    DivMeans(basePrice * (31_536_000_000_000 + apr * elapsed), 31_536_000_000_000);
  }

  /**
   From the base time on, the price is the base price grown by `apr` millionths a year up to the end of
   the interval, rounded down.
   */
  lemma PriceExact(apr: u64, basePrice: u64, baseTime: u64, duration: u64, t: u64, price: u64, end: nat)
    requires CalculatePrice(apr, basePrice, baseTime, duration, t) == Value(price)
    requires baseTime <= t && NextMultiple(end, t - baseTime, duration)
    ensures price * 31_536_000_000_000 <= basePrice * (31_536_000_000_000 + apr * end)
    ensures basePrice * (31_536_000_000_000 + apr * end) < (price + 1) * 31_536_000_000_000
  {
    NextMultipleIsStepEnd(end, t - baseTime, duration);
    PriceIsLinearAtStepEnd(apr, basePrice, baseTime, duration, t);
    GrowthMeans(apr, basePrice, end);
  }

  /** Before the base time it is the base price. */
  lemma PriceBeforeBase(apr: u64, basePrice: u64, baseTime: u64, duration: u64, t: u64)
    requires t < baseTime
    ensures CalculatePrice(apr, basePrice, baseTime, duration, t) == Value(basePrice)
  {
  }

  /** There is a price exactly when the end of the interval, the product and the quotient fit their words. */
  lemma PriceExistsIff(apr: u64, basePrice: u64, baseTime: u64, duration: u64, t: u64, end: nat)
    requires baseTime <= t && NextMultiple(end, t - baseTime, duration)
    ensures var worth := basePrice * (31_536_000_000_000 + apr * end);
      CalculatePrice(apr, basePrice, baseTime, duration, t).Value? <==>
        && end < 0x1_0000_0000_0000_0000
        && worth < 0x1_0000_0000_0000_0000_0000_0000_0000_0000
        && worth < 0x1_0000_0000_0000_0000 * 31_536_000_000_000
  {
    NextMultipleIsStepEnd(end, t - baseTime, duration);
    PriceIsLinearAtStepEnd(apr, basePrice, baseTime, duration, t);
    GrowthMeans(apr, basePrice, end);
    DivAtLeast(basePrice * (31_536_000_000_000 + apr * end), 31_536_000_000_000, 0x1_0000_0000_0000_0000);
  }

  lemma NoDurationNoPrice(apr: u64, basePrice: u64, baseTime: u64, t: u64)
    requires baseTime <= t
    ensures CalculatePrice(apr, basePrice, baseTime, 0, t) == Panic
  {
  }

  // ---- The net payment ----

  /** What is left after the fee: the rest of the payment in units of a ten-thousandth, rounded up. */
  predicate IsNet(net: nat, amount: nat, fee: nat) {
    fee <= 10_000 && amount * (10_000 - fee) <= net * 10_000 < amount * (10_000 - fee) + 10_000
  }

  lemma NetIff(amount: u64, fee: u16, net: nat)
    requires fee <= 10_000
    ensures Net(amount, fee).Value?
    ensures Net(amount, fee).value == net <==> IsNet(net, amount, fee)
  {
    NetExact(amount, fee);
    NetMeans(amount, fee);
  }

  // ---- What a buyer receives ----

  lemma NinePlaces()
    ensures Pow10(PRICE_DECIMALS) == 1_000_000_000
  {
    assert Pow10(4) == 10_000;
    Pow10Sum(4, 5);
  }

  lemma WorthMeans(net: nat, outDecimals: nat)
    ensures net * Pow10(PRICE_DECIMALS) * Pow10(outDecimals) == net * 1_000_000_000 * Pow10(outDecimals) >= 0
  {
    NinePlaces();
    ProductBound(net * 1_000_000_000, Pow10(outDecimals), net * 1_000_000_000, Pow10(outDecimals));
  }

  /** The conversion goes through exactly when its factors and its result fit. */
  lemma ConversionSucceedsIff(net: u64, price: u64, inDecimals: nat, outDecimals: nat)
    ensures var worth, unit := net * 1_000_000_000 * Pow10(outDecimals), price * Pow10(inDecimals);
      CalculateTokenOut(net, price, inDecimals, outDecimals).Value? <==>
        && price > 0 && inDecimals <= 38 && outDecimals <= 38
        && worth < 0x1_0000_0000_0000_0000_0000_0000_0000_0000
        && unit < 0x1_0000_0000_0000_0000_0000_0000_0000_0000
        && worth < 0x1_0000_0000_0000_0000 * unit
  {
    TokenOutExact(net, price, inDecimals, outDecimals);
    WorthMeans(net, outDecimals);
    if price > 0 {
      ConversionFitsIff(net, price, inDecimals, outDecimals);
    }
  }

  /** It gives the worth of the net payment in units of the price, rounded down. */
  lemma ConversionGives(net: u64, price: u64, inDecimals: nat, outDecimals: nat, out: u64)
    requires CalculateTokenOut(net, price, inDecimals, outDecimals) == Value(out)
    ensures out * (price * Pow10(inDecimals)) <= net * 1_000_000_000 * Pow10(outDecimals)
    ensures net * 1_000_000_000 * Pow10(outDecimals) < (out + 1) * (price * Pow10(inDecimals))
  {
    TokenOutExact(net, price, inDecimals, outDecimals);
    WorthMeans(net, outDecimals);
    ConversionWorth(net, price, Pow10(inDecimals), Pow10(outDecimals), out);
  }

  lemma ConversionFitsIff(net: nat, price: nat, inDecimals: nat, outDecimals: nat)
    requires price > 0
    ensures TokenOut(net, price, Pow10(inDecimals), Pow10(outDecimals)) <= U64_MAX
       <==> net * 1_000_000_000 * Pow10(outDecimals) < 0x1_0000_0000_0000_0000 * (price * Pow10(inDecimals))
  {
    WorthMeans(net, outDecimals);
    ProductPositive(price, Pow10(inDecimals));
    DivAtLeast(net * 1_000_000_000 * Pow10(outDecimals), price * Pow10(inDecimals), 0x1_0000_0000_0000_0000);
  }

  /** `v` is the vector in force: it has started, and every other one that has started is older. */
  ghost predicate InForce(v: OfferVector, vectors: seq<OfferVector>, time: nat) {
    && v in vectors && 0 < v.startTime <= time
    && forall w | w in vectors && w != v && 0 < w.startTime <= time :: w.startTime < v.startTime
  }

  /** With a vector in force, a purchase is the conversion of the net payment at that vector's price. */
  lemma TakeOfferConverts(
    vectors: seq<OfferVector>, fee: u16, amount: u64, time: u64, inDecimals: nat, outDecimals: nat,
    v: OfferVector, price: u64, net: u64)
    requires InForce(v, vectors, time) && IsNet(net, amount, fee)
    requires CalculatePrice(v.apr, v.basePrice, v.baseTime, v.priceFixDuration, time) == Value(price)
    ensures TakeOffer(vectors, fee, amount, time, inDecimals, outDecimals)
         == CalculateTokenOut(net, price, inDecimals, outDecimals)
  {
    ActiveUnique(vectors, time, v);
    NetIff(amount, fee, net);
  }

  /** Without a vector that has started, or without a price of the one in force, a purchase panics. */
  lemma TakeOfferPanics(
    vectors: seq<OfferVector>, fee: u16, amount: u64, time: u64, inDecimals: nat, outDecimals: nat)
    requires (forall w | w in vectors :: !(0 < w.startTime <= time))
          || exists v :: InForce(v, vectors, time)
                      && CalculatePrice(v.apr, v.basePrice, v.baseTime, v.priceFixDuration, time) == Panic
    ensures TakeOffer(vectors, fee, amount, time, inDecimals, outDecimals) == Panic
  {
    FindActiveIsActive(vectors, time);
    if v :| InForce(v, vectors, time) && CalculatePrice(v.apr, v.basePrice, v.baseTime, v.priceFixDuration, time) == Panic {
      ActiveUnique(vectors, time, v);
    }
  }
}
