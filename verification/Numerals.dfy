/** Decimal numerals: `std::to_string` on sizes, and `array_index`, which reads them back. */
module Numerals {
  import opened Wrappers

  const ULLONG_MAX: nat := 0xFFFF_FFFF_FFFF_FFFF
  const SIZE_MAX: nat := 0xFFFF_FFFF_FFFF_FFFF

  const PARSE_ERROR_LEADING_ZERO: nat := 106
  const PARSE_ERROR_NOT_A_NUMBER: nat := 109
  const OUT_OF_RANGE_TOKEN: nat := 404
  const OUT_OF_RANGE_SIZE: nat := 410

  predicate IsDigit(c: char) { '0' <= c <= '9' }

  predicate AllDigits(s: string) { forall k :: 0 <= k < |s| ==> IsDigit(s[k]) }

  function Digit(d: nat): (c: char)
    requires d < 10
    ensures IsDigit(c) && DigitValue(c) == d
  {
    ('0' as int + d) as char
  }

  function DigitValue(c: char): (d: nat)
    requires IsDigit(c)
    ensures d < 10
  {
    c as int - '0' as int
  }

  /** The canonical decimal numeral of n. */
  function Numeral(n: nat): (s: string)
    ensures s != ""
  {
    if n < 10 then [Digit(n)] else Numeral(n / 10) + [Digit(n % 10)]
  }

  function Value(s: string): nat
    requires AllDigits(s)
  {
    if s == "" then 0 else 10 * Value(s[..|s| - 1]) + DigitValue(s[|s| - 1])
  }

  /** How many characters `strtoull` consumes: the leading digits. */
  function DigitCount(s: string): (n: nat)
    ensures n <= |s| && AllDigits(s[..n]) && (n < |s| ==> !IsDigit(s[n]))
  {
    if s == "" || !IsDigit(s[0]) then 0 else 1 + DigitCount(s[1..])
  }

  function ArrayIndex(s: string): Result<nat> {
    if |s| > 1 && s[0] == '0' then Err(PARSE_ERROR_LEADING_ZERO)
    else if |s| > 1 && !('1' <= s[0] <= '9') then Err(PARSE_ERROR_NOT_A_NUMBER)
    else
      var consumed := DigitCount(s);
      var res := Value(s[..consumed]);
      if consumed == 0 || res > ULLONG_MAX || consumed != |s| then Err(OUT_OF_RANGE_TOKEN)
      else if res >= SIZE_MAX then Err(OUT_OF_RANGE_SIZE)
      else Ok(res)
  }

  /** Section 4 of RFC 6901: "0", or digits without a leading zero. */
  predicate Canonical(s: string) {
    s != "" && AllDigits(s) && (|s| > 1 ==> s[0] != '0')
  }

  lemma {:induction false} NumeralIsCanonical(n: nat)
    ensures Canonical(Numeral(n)) && Value(Numeral(n)) == n
    ensures n > 0 ==> Numeral(n)[0] != '0'
  {
    if n < 10 {
      assert [Digit(n)][..0] == "";
    } else {
      NumeralIsCanonical(n / 10);
      var s := Numeral(n);
      assert s[..|s| - 1] == Numeral(n / 10);
    }
  }

  lemma {:induction false} CanonicalIsNumeral(s: string)
    requires Canonical(s)
    ensures s == Numeral(Value(s))
    ensures |s| > 1 ==> Value(s) >= 10
  {
    var init, d := s[..|s| - 1], DigitValue(s[|s| - 1]);
    assert s == init + [Digit(d)];
    if init == "" {
      assert Value(s) == d;
    } else {
      CanonicalIsNumeral(init);
      if |init| == 1 {
        assert Value(init) == DigitValue(init[0]) by { assert init[..0] == ""; }
      }
      assert Value(s) / 10 == Value(init) && Value(s) % 10 == d;
    }
  }

  lemma {:induction false} CountAll(s: string)
    requires AllDigits(s)
    ensures DigitCount(s) == |s|
  {
    if DigitCount(s) < |s| {
      assert false;
    }
  }

  /** `array_index` returns n exactly on the canonical numeral of n, for n below the largest size. */
  lemma ArrayIndexIff(s: string, n: nat)
    ensures ArrayIndex(s) == Ok(n) <==> s == Numeral(n) && n < SIZE_MAX
  {
    if ArrayIndex(s) == Ok(n) {
      assert s[..|s|] == s;
      CanonicalIsNumeral(s);
    }
    if s == Numeral(n) && n < SIZE_MAX {
      NumeralIsCanonical(n);
      CountAll(s);
      assert s[..|s|] == s;
      assert IsDigit(s[0]);
    }
  }

  /** The largest size itself is a numeral that no array can use. */
  lemma LargestSizeRejected(s: string)
    ensures ArrayIndex(s) == Err(OUT_OF_RANGE_SIZE) <==> s == Numeral(SIZE_MAX)
  {
    hide Numeral, Value, DigitCount;
    NumeralIsCanonical(SIZE_MAX);
    CountAll(Numeral(SIZE_MAX));
    assert s[..|s|] == s;
    if ArrayIndex(s) == Err(OUT_OF_RANGE_SIZE) {
      CanonicalIsNumeral(s);
    }
    if s == Numeral(SIZE_MAX) {
      assert IsDigit(s[0]);
    }
  }

  /** Which error a rejected token gets; every token that is none of these and no index gets 404. */
  lemma ArrayIndexErrors(s: string)
    ensures ArrayIndex(s) == Err(106) <==> |s| > 1 && s[0] == '0'
    ensures ArrayIndex(s) == Err(109) <==> |s| > 1 && !('0' <= s[0] <= '9')
    ensures ArrayIndex(s) == Err(410) <==> s == Numeral(0xFFFF_FFFF_FFFF_FFFF)
    ensures ArrayIndex(s).Err? ==> ArrayIndex(s).id in {106, 109, 404, 410}
  {
    hide Numeral, Value, DigitCount;
    LargestSizeRejected(s);
  }

  /** The numerals, digit by digit. */
  lemma NumeralDigits(n: nat)
    ensures Numeral(n) == (if n < 10 then "" else Numeral(n / 10)) + ["0123456789"[n % 10]]
  {
  }

  /** The indices that are accepted, with the limit of a 64-bit size. */
  lemma AcceptedIndices(s: string, n: nat)
    ensures ArrayIndex(s) == Ok(n) <==> s == Numeral(n) && n < 0xFFFF_FFFF_FFFF_FFFF
  {
    ArrayIndexIff(s, n);
  }
}
