/** The integer square root and the digit-by-digit algorithm that computes it on 256-bit words. */
module FloorRoot {
  import opened Outcomes

  lemma SquareLess(x: nat, y: nat)
    requires x * x < y * y
    ensures x < y
  {
    if x >= y {
      SquareMono(y, x);
    }
  }

  lemma SquareMono(x: nat, y: nat)
    requires x <= y
    ensures x * x <= y * y
  {
    assert x * x <= y * x <= y * y;
  }

  /** `r` is the floor of the square root of `n`. */
  predicate IsRoot(r: nat, n: nat) {
    r * r <= n < (r + 1) * (r + 1)
  }

  lemma RootExists(n: nat)
    ensures exists r: nat :: r <= n && IsRoot(r, n)
  {
    var r: nat := 0;
    while (r + 1) * (r + 1) <= n
      invariant r * r <= n && r <= n
      decreases n - r
    {
      r := r + 1;
      assert r <= r * r;
    }
    assert IsRoot(r, n);
  }

  /** The floor root is the only number with its defining property. */
  lemma RootUnique(n: nat, q: nat, r: nat)
    requires IsRoot(q, n) && IsRoot(r, n)
    ensures q == r
  {
    SquareLess(r, q + 1);
    SquareLess(q, r + 1);
  }

  /** The floor of the square root. */
  function Isqrt(n: nat): (r: nat)
    ensures IsRoot(r, n)
  {
    RootExists(n);
    assert forall q: nat, r: nat | IsRoot(q, n) && IsRoot(r, n) :: q == r by {
      forall q: nat, r: nat | IsRoot(q, n) && IsRoot(r, n) ensures q == r {
        RootUnique(n, q, r);
      }
    }
    var r: nat :| 0 <= r <= n && IsRoot(r, n);
    r
  }

  /** Comparing with the root is comparing squares. */
  lemma RootBounds(n: nat, x: nat)
    ensures x <= Isqrt(n) <==> x * x <= n
  {
    var r := Isqrt(n);
    if x <= r {
      SquareMono(x, r);
    } else {
      SquareMono(r + 1, x);
    }
  }

  lemma RootMonotone(m: nat, n: nat)
    requires m <= n
    ensures Isqrt(m) <= Isqrt(n)
  {
    RootBounds(n, Isqrt(m));
  }

  // ---- 256-bit words ----

  function Pow2(k: nat): (p: nat)
    ensures p > 0
  {
    if k == 0 then 1 else 2 * Pow2(k - 1)
  }

  /** The number of significant bits. */
  function BitLength(n: nat): nat {
    if n == 0 then 0 else 1 + BitLength(n / 2)
  }

  lemma Pow2Monotone(j: nat, k: nat)
    requires j <= k
    ensures Pow2(j) <= Pow2(k)
  {
    if j < k {
      Pow2Monotone(j, k - 1);
    }
  }

  lemma BitLengthBounds(n: nat)
    requires n > 0
    ensures BitLength(n) > 0 && Pow2(BitLength(n) - 1) <= n < Pow2(BitLength(n))
  {
    if n > 1 {
      BitLengthBounds(n / 2);
    }
  }

  lemma {:induction false} Pow2Square(k: nat)
    ensures Pow2(2 * k) == Pow2(k) * Pow2(k)
  {
    if k > 0 {
      Pow2Square(k - 1);
      var h := Pow2(k - 1);
      assert Pow2(2 * k - 1) == 2 * Pow2(2 * k - 2);
      assert (2 * h) * (2 * h) == 4 * (h * h);
    }
  }

  lemma Pow2Step(k: nat)
    ensures Pow2(k + 1) == 2 * Pow2(k) && Pow2(k + 2) == 4 * Pow2(k)
  {
  }

  lemma Pow2Of64()
    ensures Pow2(64) == 0x1_0000_0000_0000_0000
  {
    assert Pow2(4) == 16;
    Pow2Square(4);
    Pow2Square(8);
    Pow2Square(16);
    Pow2Square(32);
  }

  lemma FourSquared(t: nat, u: nat)
    requires 4 * t == u
    ensures 16 * (t * t) == u * u
  {
  }

  /** Powers of two at the word sizes. */
  lemma Pow2Of256()
    ensures Pow2(128) == TWO_128
    ensures Pow2(256) == TWO_256
    ensures Pow2(127) == 2 * Pow2(126) && Pow2(128) == 4 * Pow2(126)
    ensures 16 * (Pow2(126) * Pow2(126)) == TWO_256
  {
    Pow2Of64();
    Pow2Square(64);
    Pow2Square(128);
    Pow2Step(126);
    FourSquared(Pow2(126), Pow2(128));
  }

  lemma WordBits(n: u256)
    ensures BitLength(n) <= 256
  {
    if BitLength(n) > 256 {
      BitLengthBounds(n);
      Pow2Of256();
      Pow2Monotone(256, BitLength(n) - 1);
    }
  }

  function LeadingZeros(n: u256): (z: nat)
    ensures n == 0 ==> z == 256
    ensures n > 0 ==> z < 256 && Pow2(255 - z) <= n < Pow2(256 - z)
  {
    WordBits(n);
    if n > 0 then BitLengthBounds(n); 256 - BitLength(n) else 256
  }

  function CheckedShiftLeftOne(shift: nat): Option<u256> {
    if Pow2(shift) < TWO_256 then Some(Pow2(shift)) else None
  }

  /** Refused when a non-zero bit would be shifted out. */
  function CheckedShiftRightOne(x: u256): Option<u256> {
    if x % 2 == 0 then Some(x / 2) else None
  }

  function CheckedAdd(x: u256, y: u256): Option<u256> {
    if x + y < TWO_256 then Some(x + y) else None
  }

  function CheckedSub(x: u256, y: u256): Option<u256> {
    if y <= x then Some(x - y) else None
  }

  /**
   The state between two iterations, for a partial root `r` and the next digit's weight `2^k`:
   `bit` is the square of that weight, `result` the cross term, `n` what is left of the radicand.
   */
  ghost predicate Digits(radicand: nat, bit: nat, n: int, result: nat, r: nat, k: nat) {
    var p := Pow2(k);
    && bit == p * p
    && result == 2 * (r * p)
    && n == radicand - r * r
    && r * r <= radicand < (r + 2 * p) * (r + 2 * p)
    && k <= 127
    && (r > 0 ==> k <= 126)
  }

  /** The trial value never leaves the word. */
  lemma TrialFits(radicand: u256, bit: nat, n: int, result: nat, r: nat, k: nat)
    requires Digits(radicand, bit, n, result, r, k)
    ensures bit + result < TWO_256 && result < TWO_256 && bit < TWO_256
  {
    Pow2Of256();
    var p, top := Pow2(k), Pow2(126);
    if r == 0 {
      Pow2Monotone(k, 127);
      FirstTrialFits(p, top, TWO_256);
    } else {
      Pow2Monotone(k, 126);
      LaterTrialFits(radicand, r, p, top, TWO_256);
    }
  }

  lemma FirstTrialFits(p: nat, top: nat, word: nat)
    requires p <= 2 * top && 16 * (top * top) == word > 0
    ensures p * p < word
  {
    SquareMono(p, 2 * top);
    assert (2 * top) * (2 * top) == 4 * (top * top);
  }

  lemma LaterTrialFits(radicand: nat, r: nat, p: nat, top: nat, word: nat)
    requires p <= top && r * r <= radicand < word == 16 * (top * top)
    ensures 0 <= r * p && p * p + 2 * (r * p) < word
  {
    SquareMono(p, top);
    assert (4 * top) * (4 * top) == 16 * (top * top);
    SquareLess(r, 4 * top);
    CrossTerm(r, p, top);
  }

  lemma CrossTerm(r: nat, p: nat, top: nat)
    requires r <= 4 * top && p <= top
    ensures 0 <= r * p <= 4 * (top * top)
  {
    assert r * p <= (4 * top) * p <= (4 * top) * top;
  }

  /** Taking the trial digit exactly when it fits keeps the invariant. */
  lemma DigitStep(radicand: u256, bit: nat, n: int, result: nat, r: nat, k: nat)
    requires Digits(radicand, bit, n, result, r, k)
    ensures var p := Pow2(k);
      var taken := n >= result + bit;
      var r' := if taken then r + p else r;
      var n' := if taken then n - (result + bit) else n;
      var result' := if taken then result / 2 + bit else result / 2;
      if k > 0 then Digits(radicand, bit / 4, n', result', r', k - 1) && bit / 4 > 0
      else bit / 4 == 0 && result' == r' && IsRoot(r', radicand)
  {
    var p := Pow2(k);
    TrialDigit(radicand, r, p);
    if n >= result + bit {
      NextDigits(radicand, n - (result + bit), result / 2 + bit, r + p, k);
    } else {
      NextDigits(radicand, n, result / 2, r, k);
    }
  }

  lemma NextDigits(radicand: nat, n: int, result: nat, r: nat, k: nat)
    requires n == radicand - r * r
    requires result == r * Pow2(k)
    requires r * r <= radicand < (r + Pow2(k)) * (r + Pow2(k))
    requires k <= 127
    ensures var bit := Pow2(k) * Pow2(k);
      if k > 0 then Digits(radicand, bit / 4, n, result, r, k - 1) && bit / 4 > 0
      else bit / 4 == 0 && result == r && IsRoot(r, radicand)
  {
    if k > 0 {
      HalfWeight(r, Pow2(k - 1));
    }
  }

  /** Whether the digit is taken decides which half of the interval holds the root. */
  lemma TrialDigit(radicand: nat, r: nat, p: nat)
    requires r * r <= radicand < (r + 2 * p) * (r + 2 * p)
    ensures (r + p) * (r + p) == r * r + 2 * (r * p) + p * p
    ensures (r + p) * p == r * p + p * p
    ensures var r' := if radicand - r * r >= 2 * (r * p) + p * p then r + p else r;
      r' * r' <= radicand < (r' + p) * (r' + p)
  {
    SquareOfSum(r, p);
    assert (r + p) + p == r + 2 * p;
  }

  lemma SquareOfSum(x: nat, y: nat)
    ensures (x + y) * (x + y) == x * x + 2 * (x * y) + y * y
  {
  }

  lemma HalfWeight(x: nat, h: nat)
    requires h > 0
    ensures x * (2 * h) == 2 * (x * h) && (2 * h) * (2 * h) == 4 * (h * h) && h * h > 0
  {
  }

  /** The loop invariant: digits are still to come, or `result` is the root. */
  ghost predicate Progress(radicand: nat, bit: nat, n: int, result: nat, r: nat, k: nat) {
    if bit != 0 then Digits(radicand, bit, n, result, r, k) else result == Isqrt(radicand)
  }

  /** One iteration: no checked operation fails and the invariant is kept. */
  lemma Iteration(radicand: u256, bit: nat, n: int, result: nat, r: nat, k: nat) returns (r': nat, k': nat)
    requires bit != 0 && Progress(radicand, bit, n, result, r, k)
    ensures n >= 0 && bit + result < TWO_256 && result % 2 == 0
    ensures if n >= result + bit then Progress(radicand, bit / 4, n - (result + bit), result / 2 + bit, r', k')
            else Progress(radicand, bit / 4, n, result / 2, r', k')
  {
    TrialFits(radicand, bit, n, result, r, k);
    DigitStep(radicand, bit, n, result, r, k);
    r' := if n >= result + bit then r + Pow2(k) else r;
    k' := if k > 0 then k - 1 else 0;
    if k == 0 {
      RootUnique(radicand, r', Isqrt(radicand));
    }
  }

  /** The floor root of every 256-bit word; none of the checked operations fails. */
  method SqrtU256(radicand: u256) returns (root: Option<u256>)
    ensures root == Some(Isqrt(radicand))
  {
    if radicand == 0 {
      return Some(0);
    }
    // The largest power of 4 that is at most the radicand.
    var maxShift := LeadingZeros(0) - 1;
    var shift := maxShift - LeadingZeros(radicand);
    shift := shift - shift % 2;
    ghost var k: nat, r: nat := shift / 2, 0;
    StartingDigits(radicand, shift);
    var bit: nat := CheckedShiftLeftOne(shift).value;
    var n: nat, result: nat := radicand, 0;
    while bit != 0
      invariant Progress(radicand, bit, n, result, r, k)
      decreases bit
    {
      r, k := Iteration(radicand, bit, n, result, r, k);
      var resultWithBit := CheckedAdd(result, bit).value;
      if n >= resultWithBit {
        n := CheckedSub(n, resultWithBit).value;
        result := CheckedAdd(CheckedShiftRightOne(result).value, bit).value;
      } else {
        result := CheckedShiftRightOne(result).value;
      }
      bit := bit / 4;
    }
    return Some(result);
  }

  lemma StartingDigits(radicand: u256, shift: nat)
    requires radicand > 0
    requires shift == var s := 255 - LeadingZeros(radicand); s - s % 2
    ensures Digits(radicand, Pow2(shift), radicand, 0, 0, shift / 2)
    ensures Pow2(shift) < TWO_256
  {
    var k := shift / 2;
    StartingBit(radicand, shift);
    Pow2Square(k);
    HalfWeight(0, Pow2(k));
  }

  /** The starting bit is the largest power of four that is at most the radicand. */
  lemma StartingBit(radicand: u256, shift: nat)
    requires radicand > 0
    requires shift == var s := 255 - LeadingZeros(radicand); s - s % 2
    ensures shift == 2 * (shift / 2) <= 254 && Pow2(shift) <= radicand < 4 * Pow2(shift)
  {
    var s := 255 - LeadingZeros(radicand);
    Pow2Monotone(s + 1, shift + 2);
    Pow2Monotone(shift, s);
    Pow2Step(shift);
  }
}
