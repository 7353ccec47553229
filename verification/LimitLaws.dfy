/** What limit strings are worth, digit by digit. */
module LimitLaws {
  import opened Outcomes
  import opened Arithmetic
  import opened LimitFormatting

  // ---- Numerals ----

  /** A digit is worth its distance from the character 0. */
  lemma DigitMeans(c: char)
    requires '0' <= c <= '9'
    ensures AllDigits([c]) && ParseDigits([c]) == c as int - 48
  {
    assert [c][..0] == [];
  }

  lemma ShiftOne(x: nat, y: nat, p: nat, d: nat)
    ensures 10 * (x * p + y) + d == x * (10 * p) + (10 * y + d)
  {
  }

  /** Digits written behind others move these up by as many places. */
  lemma {:induction false} ParseConcat(s: string, t: string)
    requires AllDigits(s) && AllDigits(t)
    ensures AllDigits(s + t) && ParseDigits(s + t) == ParseDigits(s) * Pow10(|t|) + ParseDigits(t)
  {
    if t == [] {
      assert s + t == s;
    } else {
      var n := |t| - 1;
      assert (s + t)[..|s| + n] == s + t[..n];
      ParseConcat(s, t[..n]);
      ShiftOne(ParseDigits(s), ParseDigits(t[..n]), Pow10(n), DigitValue(t[n]));
    }
  }

  // ---- What a limit is worth ----

  /** A limit is worth its whole part in the smallest unit, and its fraction. */
  lemma LimitMeans(whole: string, fraction: string)
    requires IsNumeral(whole) && AllDigits(fraction)
    ensures AllDigits(StripDots(whole + "." + fraction))
    ensures LimitValue(whole + "." + fraction) == ParseDigits(whole) * Pow10(|fraction|) + ParseDigits(fraction)
  {
    DigitsHaveNoDots(whole);
    DigitsHaveNoDots(fraction);
    StripOneDot(whole, fraction);
    ParseConcat(whole, fraction);
  }

  lemma {:induction false} ParseFits(s: string)
    requires AllDigits(s)
    ensures ParseDigits(s) < Pow10(|s|)
  {
    if s != [] {
      ParseFits(s[..|s| - 1]);
    }
  }

  /** A printed number is its quotient, without spare zeros, a dot, and its remainder in as many digits as asked for. */
  lemma FormatMeans(n: nat, decimals: nat) returns (whole: string, fraction: string)
    ensures FormatNumber(n, decimals) == whole + "." + fraction
    ensures IsNumeral(whole) && AllDigits(fraction) && |fraction| == decimals
    ensures ParseDigits(whole) == n / Pow10(decimals) && ParseDigits(fraction) == n % Pow10(decimals)
    ensures whole[0] != '0' || |whole| == 1
  {
    whole, fraction := FormatParts(n, decimals);
    PaddedNumeral(n, decimals + 1);
    SplitDigits(whole, fraction);
    ParseFits(fraction);
    DivUnique(n, Pow10(decimals), ParseDigits(whole));
    NoSpareZero(n, decimals, whole, fraction);
  }

  lemma SplitDigits(whole: string, fraction: string)
    requires whole != [] && AllDigits(whole + fraction)
    ensures IsNumeral(whole) && AllDigits(fraction)
    ensures ParseDigits(whole + fraction) == ParseDigits(whole) * Pow10(|fraction|) + ParseDigits(fraction)
  {
    forall c | c in whole
      ensures IsDigit(c)
    {
      assert c in whole + fraction;
    }
    forall c | c in fraction
      ensures IsDigit(c)
    {
      assert c in whole + fraction;
    }
    ParseConcat(whole, fraction);
  }

  lemma NoSpareZero(n: nat, decimals: nat, whole: string, fraction: string)
    requires whole != [] && whole + fraction == PadStart(ToString(n), decimals + 1) && |fraction| == decimals
    ensures whole[0] != '0' || |whole| == 1
  {
    NumeralStart(n);
    if |whole| > 1 {
      assert (whole + fraction)[0] == whole[0];
    }
  }

  /** A negative number keeps its sign, behind the zeros that fill it up. */
  lemma NegativePrints(num: int, decimals: nat)
    requires num < 0
    ensures exists k: nat :: StripDots(FormatNumber(num, decimals)) == Zeros(k) + "-" + ToDecimal(-num)
  {
    var whole, fraction := FormatParts(num, decimals);
    var str := "-" + ToDecimal(-num);
    if |str| >= decimals + 1 {
      assert Zeros(0) + "-" + ToDecimal(-num) == str;
    } else {
      assert Zeros(decimals + 1 - |str|) + "-" + ToDecimal(-num) == Zeros(decimals + 1 - |str|) + str;
    }
  }

  // ---- Zero limits ----

  lemma {:induction false} StrippedCharacters(s: string)
    ensures forall c :: c in StripDots(s) <==> c in s && c != '.'
  {
    if s != [] {
      StrippedCharacters(s[1..]);
      assert s == [s[0]] + s[1..];
    }
  }

  /** A zero limit is made of dots and zeros, at least one of them a zero; a malformed one can be, too. */
  lemma ZeroLimitIff(value: string)
    ensures IsZeroLimit(value) <==> '0' in value && forall c | c in value :: c == '0' || c == '.'
  {
    StrippedCharacters(value);
    var stripped := StripDots(value);
    if stripped != [] {
      assert stripped[0] in stripped;
    }
  }

  /** The decimals of a limit are what stands behind its dot, when it has exactly one. */
  lemma DecimalsIff(limit: string, decimals: nat)
    ensures GetDecimalsFromLimit(limit) == Some(decimals) <==>
      exists k :: OnlyDotAt(limit, k) && |limit| - k - 1 == decimals
  {
    CheckIff(limit, decimals);
    if whole, fraction :| DotBetween(limit, whole, fraction) && |fraction| == decimals {
      assert limit[|whole|] == '.' && limit[..|whole|] == whole && limit[|whole| + 1..] == fraction;
      assert OnlyDotAt(limit, |whole|);
    }
    if k :| OnlyDotAt(limit, k) && |limit| - k - 1 == decimals {
      assert limit == limit[..k] + "." + limit[k + 1..];
      assert DotBetween(limit, limit[..k], limit[k + 1..]);
    }
  }

  predicate OnlyDotAt(s: string, k: int) {
    0 <= k < |s| && s[k] == '.' && '.' !in s[..k] && '.' !in s[k + 1..]
  }
}
