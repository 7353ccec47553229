/** Facts about products, floors and remainders that the price models share. */
module Arithmetic {

  lemma MulOrder(x: int, y: int, z: int)
    requires z > 0
    ensures x <= y <==> x * z <= y * z
    ensures x < y <==> x * z < y * z
  {
  }

  lemma SquareNonNegative(x: int)
    ensures x * x >= 0
  {
  }

  lemma Distribute(x: int, y: int, z: int)
    ensures (x + y) * z == x * z + y * z
  {
  }

  /** A product of naturals grows with its factors. */
  lemma ProductBound(x: nat, y: nat, xMax: nat, yMax: nat)
    requires x <= xMax && y <= yMax
    ensures 0 <= x * y <= xMax * yMax
  {
    assert 0 <= x * y <= xMax * y <= xMax * yMax;
  }

  /** What a floor division means. */
  lemma DivMeans(x: int, y: int)
    requires y > 0
    ensures x / y * y <= x < x / y * y + y
  {
  }

  /** A floor is at least `q` exactly when `q` whole divisors fit. */
  lemma DivAtLeast(x: int, y: int, q: int)
    requires y > 0
    ensures q * y <= x <==> q <= x / y
  {
    DivMeans(x, y);
    MulOrder(q, x / y, y);
    MulOrder(x / y + 1, q, y);
    Distribute(x / y, 1, y);
  }

  lemma DivMonotone(x: int, x': int, y: int)
    requires y > 0 && x <= x'
    ensures x / y <= x' / y
  {
    DivMeans(x, y);
    DivAtLeast(x', y, x / y);
  }

  /** The quotient is the only number with its defining property. */
  lemma DivUnique(x: int, y: int, q: int)
    requires y > 0 && q * y <= x < q * y + y
    ensures x / y == q && x % y == x - q * y
  {
    Distribute(q, 1, y);
    DivAtLeast(x, y, q);
    DivAtLeast(x, y, q + 1);
  }

  lemma ModOfMod(x: int, y: int, m: int)
    requires m > 0
    ensures (x % m + y) % m == (x + y) % m
  {
    var q, q' := x / m, (x + y) / m;
    DivMeans(x + y, m);
    Distribute(q', -q, m);
    DivUnique(x % m + y, m, q' - q);
  }

  lemma ModSmall(x: int, m: int)
    requires 0 <= x < m
    ensures x % m == x
  {
    DivUnique(x, m, 0);
  }

  /** One turn around the word, from above and from below. */
  lemma ModWrapped(x: int, m: int)
    requires m > 0
    ensures m <= x < m + m ==> x % m == x - m
    ensures -m <= x < 0 ==> x % m == x + m
  {
    if m <= x < m + m {
      DivUnique(x, m, 1);
    } else if -m <= x < 0 {
      DivUnique(x, m, -1);
    }
  }

  // ---- Powers of ten ----

  function Pow10(k: nat): (p: nat)
    ensures p > 0
  {
    if k == 0 then 1 else 10 * Pow10(k - 1)
  }

  lemma {:induction false} Pow10Sum(j: nat, k: nat)
    ensures Pow10(j + k) == Pow10(j) * Pow10(k)
  {
    if j > 0 {
      Pow10Sum(j - 1, k);
      assert Pow10(j + k) == 10 * Pow10(j + k - 1);
      TenTimes(Pow10(j - 1), Pow10(k));
    }
  }

  lemma TenTimes(x: nat, y: nat)
    ensures 10 * (x * y) == (10 * x) * y
  {
  }

  lemma {:induction false} Pow10Monotone(j: nat, k: nat)
    requires j <= k
    ensures Pow10(j) <= Pow10(k)
    decreases k
  {
    if j < k {
      Pow10Monotone(j, k - 1);
    }
  }
}
