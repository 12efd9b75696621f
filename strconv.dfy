/**
  The decimal conversions the handlers use: `strconv.Itoa` (part of the
  author identity key) and `strconv.Atoi` (the `limit` parameter), on a
  64-bit `int`.
 */
module Strconv {
  import opened Shared

  const MinInt64 := -0x8000_0000_0000_0000
  const MaxInt64 := 0x7FFF_FFFF_FFFF_FFFF

  predicate IsDigit(c: char) {
    '0' <= c <= '9'
  }

  predicate AllDigits(s: string) {
    forall i :: 0 <= i < |s| ==> IsDigit(s[i])
  }

  function DigitChar(d: nat): char
    requires d < 10
  {
    ('0' as int + d) as char
  }

  /** Decimal digits of `n`, most significant first, without leading zeros. */
  function NatToDigits(n: nat): (s: string)
    ensures |s| >= 1 && AllDigits(s)
    ensures s[0] == '0' ==> n == 0
    decreases n
  {
    if n < 10 then [DigitChar(n)] else NatToDigits(n / 10) + [DigitChar(n % 10)]
  }

  /** The number a string of decimal digits denotes. */
  function DigitsToNat(s: string): nat
    requires AllDigits(s)
  {
    if |s| == 0 then 0 else DigitsToNat(s[..|s| - 1]) * 10 + (s[|s| - 1] as int - '0' as int)
  }

  function Itoa(n: int): (s: string)
    ensures |s| >= 1
  {
    if n < 0 then "-" + NatToDigits(-n) else NatToDigits(n)
  }

  /** An optional `+` or `-` followed by at least one decimal digit. Leading
      zeros are allowed; underscores are not. */
  predicate IsDecimalText(s: string) {
    || (|s| >= 1 && AllDigits(s))
    || (|s| >= 2 && (s[0] == '-' || s[0] == '+') && AllDigits(s[1..]))
  }

  /** Decimal text in the 64-bit range; anything else is a syntax or range
      error. */
  function Atoi(s: string): (r: Option<int>)
    ensures r.Some? ==> MinInt64 <= r.value <= MaxInt64
    ensures !IsDecimalText(s) ==> r.None?
  {
    var signed := |s| > 0 && (s[0] == '-' || s[0] == '+');
    var digits := if signed then s[1..] else s;
    if |digits| == 0 || !AllDigits(digits) then None
    else
      var magnitude: int := DigitsToNat(digits);
      var v := if signed && s[0] == '-' then -magnitude else magnitude;
      if MinInt64 <= v <= MaxInt64 then Some(v) else None
  }

  function Pow10(k: nat): nat {
    if k == 0 then 1 else 10 * Pow10(k - 1)
  }

  /** `k` digits denote less than 10^k. */
  lemma {:induction false} DigitsBound(s: string)
    requires AllDigits(s)
    ensures DigitsToNat(s) < Pow10(|s|)
  {
    if |s| > 0 {
      DigitsBound(s[..|s| - 1]);
    }
  }

  /** Decimal text of at most 18 digits always parses, to the number it
      denotes. */
  lemma ShortDecimalParses(s: string)
    requires IsDecimalText(s) && |s| <= 19 && (|s| == 19 ==> !IsDigit(s[0]))
    ensures Atoi(s).Some?
    ensures AllDigits(s) ==> Atoi(s) == Some(DigitsToNat(s))
    ensures s[0] == '-' ==> Atoi(s) == Some(-(DigitsToNat(s[1..]) as int))
    ensures s[0] == '+' ==> Atoi(s) == Some(DigitsToNat(s[1..]))
  {
    var digits := if s[0] == '-' || s[0] == '+' then s[1..] else s;
    ShortDigitsFit(digits);
  }

  /** At most 18 digits denote less than 10^18, inside the 64-bit range. */
  lemma ShortDigitsFit(digits: string)
    requires AllDigits(digits) && |digits| <= 18
    ensures DigitsToNat(digits) < 1_000_000_000_000_000_000
  {
    DigitsBound(digits);
    Pow10Monotone(|digits|, 18);
    Pow10Of18();
  }

  lemma Pow10Of18()
    ensures Pow10(18) == 1_000_000_000_000_000_000
  {
    assert Pow10(3) == 1_000;
    assert Pow10(6) == 1_000_000;
    assert Pow10(9) == 1_000_000_000;
    assert Pow10(12) == 1_000_000_000_000;
    assert Pow10(15) == 1_000_000_000_000_000;
  }

  lemma {:induction false} Pow10Monotone(j: nat, k: nat)
    requires j <= k
    ensures Pow10(j) <= Pow10(k)
    decreases k
  {
    if j < k {
      Pow10Monotone(j, k - 1);
    }
  }

  /** Text Itoa never prints is accepted too: a plus sign, leading zeros,
      minus zero. */
  lemma NonCanonicalAccepted()
    ensures Atoi("+5") == Some(5)
    ensures Atoi("007") == Some(7)
    ensures Atoi("-0") == Some(0)
  {
    assert "5"[..0] == "" && "0"[..0] == "";
    assert DigitsToNat("5") == 5 && DigitsToNat("0") == 0;
    assert "00"[..1] == "0" && DigitsToNat("00") == 0;
    assert "007"[..2] == "00" && DigitsToNat("007") == 7;
    assert "+5"[1..] == "5";
    assert "-0"[1..] == "0";
  }

  lemma {:induction false} DigitsRoundTrip(n: nat)
    ensures DigitsToNat(NatToDigits(n)) == n
    decreases n
  {
    if n >= 10 {
      var s := NatToDigits(n);
      assert s[..|s| - 1] == NatToDigits(n / 10);
      DigitsRoundTrip(n / 10);
    }
  }

  /** Parsing what Itoa prints gives the number back. */
  lemma AtoiItoa(n: int)
    requires MinInt64 <= n <= MaxInt64
    ensures Atoi(Itoa(n)) == Some(n)
  {
    var s := Itoa(n);
    if n < 0 {
      var digits := NatToDigits(-n);
      assert s[0] == '-' && s[1..] == digits;
      DigitsRoundTrip(-n);
      assert DigitsToNat(digits) == -n;
    } else {
      DigitsRoundTrip(n);
      assert IsDigit(s[0]) && AllDigits(s);
      assert DigitsToNat(s) == n;
    }
  }

  /** Different numbers print differently. */
  lemma ItoaInjective(a: int, b: int)
    requires Itoa(a) == Itoa(b)
    ensures a == b
  {
    var s := Itoa(a);
    if a < 0 {
      assert s[0] == '-';
      assert b < 0;
      assert s[1..] == NatToDigits(-a) == NatToDigits(-b);
      DigitsRoundTrip(-a);
      DigitsRoundTrip(-b);
    } else {
      assert IsDigit(s[0]);
      assert b >= 0;
      DigitsRoundTrip(a);
      DigitsRoundTrip(b);
    }
  }
}
