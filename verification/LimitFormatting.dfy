/** Token limits as decimal strings: the printer, the validators, and reading a limit back. */
module LimitFormatting {
  import opened Outcomes

  // ---- Digits ----

  predicate IsDigit(c: char) {
    '0' <= c <= '9'
  }

  function DigitChar(d: nat): (c: char)
    requires d < 10
    ensures IsDigit(c) && DigitValue(c) == d
  {
    ('0' as nat + d) as char
  }

  function DigitValue(c: char): (d: nat)
    requires IsDigit(c)
    ensures d < 10
  {
    c as nat - '0' as nat
  }

  predicate AllDigits(s: string) {
    forall c | c in s :: IsDigit(c)
  }

  /** The decimal numeral, without leading zeros. */
  function ToDecimal(n: nat): (s: string)
    ensures s != [] && AllDigits(s)
  {
    if n < 10 then [DigitChar(n)] else ToDecimal(n / 10) + [DigitChar(n % 10)]
  }

  /** The value of a string of digits; the empty string is zero. */
  function ParseDigits(s: string): nat
    requires AllDigits(s)
  {
    if s == [] then 0 else 10 * ParseDigits(s[..|s| - 1]) + DigitValue(s[|s| - 1])
  }

  function Zeros(k: nat): (s: string)
    ensures |s| == k && AllDigits(s)
  {
    seq(k, _ => '0')
  }

  // ---- Strings ----

  /** The parts between dots. */
  function SplitDots(s: string): (parts: seq<string>)
    ensures |parts| > 0
  {
    if s == [] then [""]
    else
      var rest := SplitDots(s[1..]);
      if s[0] == '.' then [""] + rest else [[s[0]] + rest[0]] + rest[1..]
  }

  function StripDots(s: string): string {
    if s == [] then [] else if s[0] == '.' then StripDots(s[1..]) else [s[0]] + StripDots(s[1..])
  }

  function PadStart(s: string, length: nat): string {
    if |s| >= length then s else Zeros(length - |s|) + s
  }

  // ---- The functions on limits ----

  function ToString(num: int): string {
    if num < 0 then "-" + ToDecimal(-num) else ToDecimal(num)
  }

  function FormatNumber(num: int, decimals: nat): string {
    var str := ToString(num);
    if decimals == 0 then str + "."
    else
      var padded := PadStart(str, decimals + 1);
      var splitIndex := |padded| - decimals;
      padded[..splitIndex] + "." + padded[splitIndex..]
  }

  predicate CheckNumberFormatting(formatted: string, decimals: nat) {
    var parts := SplitDots(formatted);
    |parts| == 2 && |parts[1]| == decimals
  }

  function GetDecimalsFromLimit(limit: string): Option<nat> {
    var parts := SplitDots(limit);
    if |parts| == 2 then Some(|parts[1]|) else None
  }

  /** One or more zeros, dots aside. */
  predicate IsZeroLimit(value: string) {
    var normalized := StripDots(value);
    normalized != [] && forall c | c in normalized :: c == '0'
  }

  predicate IsNumeral(s: string) {
    s != [] && AllDigits(s)
  }

  predicate IsValidLimit(value: string, decimals: nat) {
    if decimals == 0 then
      IsNumeral(value) || (value != [] && value[|value| - 1] == '.' && IsNumeral(value[..|value| - 1]))
    else
      var parts := SplitDots(value);
      |parts| == 2 && |parts[1]| == decimals && IsNumeral(parts[0]) && IsNumeral(parts[1])
  }

  /** What a limit is worth, in the smallest unit; only digits are left when the dots are gone. */
  function LimitValue(value: string): nat
    requires AllDigits(StripDots(value))
  {
    ParseDigits(StripDots(value))
  }

  // ---- Splitting and stripping ----

  predicate NoDots(s: string) {
    '.' !in s
  }

  lemma {:induction false} SplitWithoutDots(s: string)
    requires NoDots(s)
    ensures SplitDots(s) == [s] && StripDots(s) == s
  {
    if s != [] {
      assert s == [s[0]] + s[1..];
      SplitWithoutDots(s[1..]);
    }
  }

  lemma {:induction false} StripOneDot(whole: string, fraction: string)
    requires NoDots(whole) && NoDots(fraction)
    ensures StripDots(whole + "." + fraction) == whole + fraction
  {
    var s := whole + "." + fraction;
    if whole == [] {
      assert s[1..] == fraction;
      SplitWithoutDots(fraction);
    } else {
      assert s[1..] == whole[1..] + "." + fraction;
      StripOneDot(whole[1..], fraction);
      assert [whole[0]] + (whole[1..] + fraction) == whole + fraction;
    }
  }

  /** One dot, two parts. */
  lemma {:induction false} SplitOneDot(whole: string, fraction: string)
    requires NoDots(whole) && NoDots(fraction)
    ensures SplitDots(whole + "." + fraction) == [whole, fraction]
  {
    var s := whole + "." + fraction;
    if whole == [] {
      assert s[1..] == fraction;
      SplitWithoutDots(fraction);
    } else {
      assert s[1..] == whole[1..] + "." + fraction;
      SplitOneDot(whole[1..], fraction);
      assert [whole[0]] + whole[1..] == whole;
    }
  }

  /** Two parts, one dot. */
  lemma {:induction false} TwoPartsOneDot(s: string)
    requires |SplitDots(s)| == 2
    ensures var parts := SplitDots(s);
      NoDots(parts[0]) && NoDots(parts[1]) && s == parts[0] + "." + parts[1]
  {
    var rest := SplitDots(s[1..]);
    if s[0] == '.' {
      OnePartNoDots(s[1..]);
    } else {
      TwoPartsOneDot(s[1..]);
    }
    assert s == [s[0]] + s[1..];
  }

  lemma {:induction false} OnePartNoDots(s: string)
    requires |SplitDots(s)| == 1
    ensures NoDots(s) && SplitDots(s) == [s]
  {
    if s != [] {
      OnePartNoDots(s[1..]);
      assert s == [s[0]] + s[1..];
    }
  }

  // ---- Numerals ----

  lemma {:induction false} ParseToDecimal(n: nat)
    ensures ParseDigits(ToDecimal(n)) == n
  {
    var s := ToDecimal(n);
    if n < 10 {
      assert s[..0] == [];
    } else {
      ParseToDecimal(n / 10);
      assert s[..|s| - 1] == ToDecimal(n / 10);
    }
  }

  lemma {:induction false} ParseLeadingZeros(k: nat, s: string)
    requires AllDigits(s)
    ensures AllDigits(Zeros(k) + s) && ParseDigits(Zeros(k) + s) == ParseDigits(s)
  {
    var z := Zeros(k) + s;
    if s == [] {
      ParseZeros(k);
      assert z == Zeros(k);
    } else {
      var n := |s| - 1;
      assert z[..|z| - 1] == Zeros(k) + s[..n];
      ParseLeadingZeros(k, s[..n]);
    }
  }

  lemma {:induction false} ParseZeros(k: nat)
    ensures ParseDigits(Zeros(k)) == 0
  {
    if k > 0 {
      assert Zeros(k)[..k - 1] == Zeros(k - 1);
      ParseZeros(k - 1);
    }
  }

  /** One more digit behind a number that is not zero. */
  lemma DigitBehind(n: nat, d: nat)
    requires n > 0 && d < 10
    ensures ToDecimal(10 * n + d) == ToDecimal(n) + [DigitChar(d)]
  {
  }

  /** A numeral without a leading zero is the one its value prints as. */
  lemma {:induction false} CanonicalNumeral(s: string)
    requires IsNumeral(s) && (s[0] != '0' || |s| == 1)
    ensures ToDecimal(ParseDigits(s)) == s
    ensures s[0] != '0' ==> ParseDigits(s) > 0
  {
    var n := |s| - 1;
    if n == 0 {
      OneDigit(s[0]);
      assert s == [s[0]];
    } else {
      CanonicalNumeral(s[..n]);
      DigitBehind(ParseDigits(s[..n]), DigitValue(s[n]));
      assert s == s[..n] + [s[n]];
    }
  }

  lemma OneDigit(c: char)
    requires IsDigit(c)
    ensures ParseDigits([c]) == DigitValue(c) && ToDecimal(DigitValue(c)) == [c]
    ensures c != '0' ==> DigitValue(c) > 0
  {
    assert [c][..0] == [];
  }

  lemma OneMoreZero(k: nat, s: string)
    ensures Zeros(1) + (Zeros(k) + s) == Zeros(k + 1) + s
  {
  }

  /** Any numeral is its value's numeral behind some zeros. */
  lemma {:induction false} NumeralIsPadded(s: string)
    requires IsNumeral(s)
    ensures |ToDecimal(ParseDigits(s))| <= |s|
    ensures s == Zeros(|s| - |ToDecimal(ParseDigits(s))|) + ToDecimal(ParseDigits(s))
  {
    if s[0] != '0' || |s| == 1 {
      CanonicalNumeral(s);
    } else {
      NumeralIsPadded(s[1..]);
      ZeroInFront(s[1..], ToDecimal(ParseDigits(s[1..])));
      assert s == Zeros(1) + s[1..];
    }
  }

  lemma ZeroInFront(rest: string, numeral: string)
    requires AllDigits(rest) && |numeral| <= |rest| && rest == Zeros(|rest| - |numeral|) + numeral
    ensures AllDigits(Zeros(1) + rest) && ParseDigits(Zeros(1) + rest) == ParseDigits(rest)
    ensures Zeros(1) + rest == Zeros(1 + |rest| - |numeral|) + numeral
  {
    ParseLeadingZeros(1, rest);
    OneMoreZero(|rest| - |numeral|, numeral);
  }

  // ---- What the printer promises ----

  lemma DigitsHaveNoDots(s: string)
    requires AllDigits(s)
    ensures NoDots(s)
  {
  }

  /** The printed limit: the padded numeral with a dot before its last `decimals` characters. */
  lemma FormatParts(num: int, decimals: nat) returns (whole: string, fraction: string)
    ensures FormatNumber(num, decimals) == whole + "." + fraction
    ensures whole + fraction == PadStart(ToString(num), decimals + 1)
    ensures whole != [] && |fraction| == decimals
    ensures NoDots(whole) && NoDots(fraction)
    ensures SplitDots(FormatNumber(num, decimals)) == [whole, fraction]
    ensures StripDots(FormatNumber(num, decimals)) == whole + fraction
  {
    var padded := PadStart(ToString(num), decimals + 1);
    PaddedHasNoDots(num, decimals + 1);
    var splitIndex := |padded| - decimals;
    whole, fraction := padded[..splitIndex], padded[splitIndex..];
    SplitOneDot(whole, fraction);
    StripOneDot(whole, fraction);
    assert decimals == 0 ==> whole == ToString(num) && whole + "." + fraction == whole + ".";
  }

  lemma PaddedHasNoDots(num: int, length: nat)
    ensures NoDots(PadStart(ToString(num), length)) && |PadStart(ToString(num), length)| >= length
    ensures length <= 1 ==> PadStart(ToString(num), length) == ToString(num)
  {
  }

  lemma PaddedNumeral(n: nat, length: nat)
    ensures var padded := PadStart(ToDecimal(n), length);
      AllDigits(padded) && ParseDigits(padded) == n
  {
    ParseToDecimal(n);
    if |ToDecimal(n)| < length {
      ParseLeadingZeros(length - |ToDecimal(n)|, ToDecimal(n));
    }
  }

  /** Printing always gives one dot with the right number of decimals behind it. */
  lemma FormatHasDecimals(num: int, decimals: nat)
    ensures CheckNumberFormatting(FormatNumber(num, decimals), decimals)
    ensures GetDecimalsFromLimit(FormatNumber(num, decimals)) == Some(decimals)
  {
    var whole, fraction := FormatParts(num, decimals);
  }

  /** Reading back what was printed gives the number. */
  lemma FormatRoundTrip(n: nat, decimals: nat)
    ensures AllDigits(StripDots(FormatNumber(n, decimals)))
    ensures LimitValue(FormatNumber(n, decimals)) == n
  {
    var whole, fraction := FormatParts(n, decimals);
    PaddedNumeral(n, decimals + 1);
  }

  /** What is printed is a valid limit exactly when the number is not negative. */
  lemma FormatValidIff(num: int, decimals: nat)
    ensures IsValidLimit(FormatNumber(num, decimals), decimals) <==> num >= 0
  {
    var whole, fraction := FormatParts(num, decimals);
    var s := FormatNumber(num, decimals);
    if decimals == 0 {
      assert fraction == [] && s[|s| - 1] == '.' && s[..|s| - 1] == whole == ToString(num) by {
        assert whole + [] == whole;
      }
      assert '.' in s;
    }
    if num >= 0 {
      PaddedNumeral(num, decimals + 1);
      assert forall c | c in whole :: c in whole + fraction;
      assert forall c | c in fraction :: c in whole + fraction;
    } else {
      MinusSurvives(num, decimals + 1);
      assert '-' in whole + fraction;
      assert !IsDigit('-');
    }
  }

  lemma MinusSurvives(num: int, length: nat)
    requires num < 0
    ensures '-' in PadStart(ToString(num), length)
  {
  }

  /** What is printed is a zero limit exactly when the number is zero. */
  lemma FormatZeroIff(num: int, decimals: nat)
    ensures IsZeroLimit(FormatNumber(num, decimals)) <==> num == 0
  {
    var whole, fraction := FormatParts(num, decimals);
    var padded := PadStart(ToString(num), decimals + 1);
    if num < 0 {
      MinusSurvives(num, decimals + 1);
    } else {
      PaddedNumeral(num, decimals + 1);
      ZeroValueIff(padded);
    }
  }

  lemma DigitZero(c: char)
    requires IsDigit(c)
    ensures DigitValue(c) == 0 <==> c == '0'
  {
  }

  /** A numeral is worth nothing exactly when it is all zeros. */
  lemma {:induction false} ZeroValueIff(s: string)
    requires AllDigits(s)
    ensures ParseDigits(s) == 0 <==> forall c | c in s :: c == '0'
  {
    if s != [] {
      var n := |s| - 1;
      ZeroValueIff(s[..n]);
      DigitZero(s[n]);
      assert s[n] in s;
      assert forall c :: c in s <==> c in s[..n] || c == s[n];
    }
  }

  // ---- What the validator promises ----

  /** A valid limit is a numeral, perhaps with a dot before its last `decimals` digits. */
  lemma ValidLimitParts(value: string, decimals: nat) returns (whole: string, fraction: string)
    requires IsValidLimit(value, decimals)
    ensures IsNumeral(whole) && AllDigits(fraction) && |fraction| == decimals
    ensures value == whole + "." + fraction || (decimals == 0 && value == whole)
    ensures StripDots(value) == whole + fraction && IsNumeral(StripDots(value))
  {
    if decimals == 0 {
      fraction := "";
      if IsNumeral(value) {
        whole := value;
        DigitsHaveNoDots(value);
        SplitWithoutDots(value);
        assert whole + fraction == value;
      } else {
        whole := value[..|value| - 1];
        DigitsHaveNoDots(whole);
        assert value == whole + "." + fraction;
        StripOneDot(whole, fraction);
      }
    } else {
      whole, fraction := SplitDots(value)[0], SplitDots(value)[1];
      TwoPartsOneDot(value);
      StripOneDot(whole, fraction);
    }
  }

  /** The structural check: exactly one dot, with `decimals` characters behind it. */
  lemma CheckIff(formatted: string, decimals: nat)
    ensures CheckNumberFormatting(formatted, decimals) <==> GetDecimalsFromLimit(formatted) == Some(decimals)
    ensures CheckNumberFormatting(formatted, decimals) <==>
      exists whole, fraction :: DotBetween(formatted, whole, fraction) && |fraction| == decimals
  {
    if CheckNumberFormatting(formatted, decimals) {
      TwoPartsOneDot(formatted);
      assert DotBetween(formatted, SplitDots(formatted)[0], SplitDots(formatted)[1]);
    }
    if whole, fraction :| DotBetween(formatted, whole, fraction) && |fraction| == decimals {
      SplitOneDot(whole, fraction);
    }
  }

  predicate DotBetween(s: string, whole: string, fraction: string) {
    NoDots(whole) && NoDots(fraction) && s == whole + "." + fraction
  }

  /** The validator accepts a numeral, a dot and `decimals` digits; without decimals the dot may be missing. */
  lemma ValidLimitIff(value: string, decimals: nat)
    ensures IsValidLimit(value, decimals) <==>
      exists whole, fraction :: IsNumeral(whole) && AllDigits(fraction) && |fraction| == decimals && IsLimitOf(value, whole, fraction)
  {
    if IsValidLimit(value, decimals) {
      var whole, fraction := ValidLimitParts(value, decimals);
      assert IsLimitOf(value, whole, fraction);
    }
    if whole, fraction :| IsNumeral(whole) && AllDigits(fraction) && |fraction| == decimals && IsLimitOf(value, whole, fraction) {
      DigitsHaveNoDots(whole);
      DigitsHaveNoDots(fraction);
      SplitOneDot(whole, fraction);
      if decimals == 0 && value != whole {
        assert value == whole + ".";
        assert value[..|value| - 1] == whole;
      }
    }
  }

  predicate IsLimitOf(value: string, whole: string, fraction: string) {
    value == whole + "." + fraction || (fraction == "" && value == whole)
  }

  /** A valid limit is a zero limit exactly when it is worth nothing. */
  lemma ValidZeroIff(value: string, decimals: nat)
    requires IsValidLimit(value, decimals)
    ensures AllDigits(StripDots(value))
    ensures IsZeroLimit(value) <==> LimitValue(value) == 0
  {
    var whole, fraction := ValidLimitParts(value, decimals);
    ZeroValueIff(StripDots(value));
  }

  /** Written as the printer writes: a dot, and no zero in front of the digits before it. */
  predicate IsCanonical(value: string, decimals: nat) {
    '.' in value && (|value| == decimals + 2 || (value != [] && value[0] != '0'))
  }

  /** Printing a valid limit's value gives the limit back exactly when it is canonical. */
  lemma PrintBackIff(value: string, decimals: nat)
    requires IsValidLimit(value, decimals)
    ensures AllDigits(StripDots(value))
    ensures FormatNumber(LimitValue(value), decimals) == value <==> IsCanonical(value, decimals)
  {
    var whole, fraction := ValidLimitParts(value, decimals);
    var digits := whole + fraction;
    var n := ParseDigits(digits);
    var whole', fraction' := FormatParts(n, decimals);
    DigitsHaveNoDots(whole);
    if value == whole + "." + fraction {
      assert FormatNumber(n, decimals) == value <==> whole' + fraction' == digits by {
        if whole' + fraction' == digits {
          assert whole' == digits[..|digits| - decimals] == whole;
          assert fraction' == digits[|digits| - decimals..] == fraction;
        }
      }
      PadBackIff(digits, decimals + 1);
      assert value[0] == digits[0];
      assert '.' in value;
    } else {
      assert '.' in FormatNumber(n, decimals) by { assert FormatNumber(n, decimals)[|whole'|] == '.'; }
    }
  }

  /** Padding a numeral's value to a length at most its own gives it back unless it has spare zeros. */
  lemma PadBackIff(digits: string, length: nat)
    requires IsNumeral(digits) && 0 < length <= |digits|
    ensures PadStart(ToDecimal(ParseDigits(digits)), length) == digits <==> |digits| == length || digits[0] != '0'
  {
    var numeral := ToDecimal(ParseDigits(digits));
    NumeralIsPadded(digits);
    if digits[0] != '0' {
      CanonicalNumeral(digits);
    } else if |digits| > length {
      NumeralStart(ParseDigits(digits));
      assert numeral != digits;
    }
  }

  /** Only zero itself prints with a leading zero. */
  lemma {:induction false} NumeralStart(n: nat)
    ensures ToDecimal(n)[0] == '0' ==> |ToDecimal(n)| == 1
  {
    if n >= 10 {
      NumeralStart(n / 10);
      if ToDecimal(n / 10) == "0" {
        ParseToDecimal(n / 10);
      }
    }
  }
}
