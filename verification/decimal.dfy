/** Decimal numerals: Rust's `FromStr` for the integer types (`i64`, `u16`,
    `u64`) and `ToString` for integers. */
module Decimal {
  import opened Wrappers

  const I64Min: int := -0x8000_0000_0000_0000
  const I64Max: int := 0x7FFF_FFFF_FFFF_FFFF
  const U64Max: int := 0xFFFF_FFFF_FFFF_FFFF
  const U16Max: int := 0xFFFF

  predicate IsDigit(c: char) {
    '0' <= c <= '9'
  }

  predicate AllDigits(s: string) {
    forall i :: 0 <= i < |s| ==> IsDigit(s[i])
  }

  function DigitChar(d: nat): (c: char)
    requires d < 10
    ensures IsDigit(c)
  {
    ('0' as int + d) as char
  }

  function DigitValue(c: char): nat
    requires IsDigit(c)
  {
    c as int - '0' as int
  }

  /** The number a string of digits denotes (leading zeros allowed). */
  function DigitsValue(s: string): nat
    requires AllDigits(s)
  {
    if |s| == 0 then 0
    else DigitsValue(s[..|s| - 1]) * 10 + DigitValue(s[|s| - 1])
  }

  /** The shortest decimal rendering of `n`: digits only, no leading zero
      unless `n` is zero, and it denotes `n`. */
  function FormatNat(n: nat): (r: string)
    ensures |r| >= 1 && AllDigits(r)
    ensures DigitsValue(r) == n
    ensures |r| > 1 ==> r[0] != '0'
  {
    if n < 10 then [DigitChar(n)]
    else
      var r := FormatNat(n / 10) + [DigitChar(n % 10)];
      assert r[..|r| - 1] == FormatNat(n / 10);
      r
  }

  /** `i64::to_string` and friends: a `-` sign for negatives. */
  function FormatInt(n: int): string {
    if n < 0 then "-" + FormatNat(-n) else FormatNat(n)
  }

  /** Rust's integer `from_str` before the range check: an optional sign
      (`-` only for signed types), then one or more ASCII digits. */
  function ParseInt(s: string, signed: bool): (r: Option<int>)
    ensures r.Some? && !signed ==> r.value >= 0
  {
    if |s| == 0 then None
    else
      var neg := signed && s[0] == '-';
      var digits := if s[0] == '+' || neg then s[1..] else s;
      if |digits| == 0 || !AllDigits(digits) then None
      else if neg then var v: int := DigitsValue(digits); Some(-v)
      else Some(DigitsValue(digits))
  }

  function InRange(r: Option<int>, lo: int, hi: int): Option<int> {
    if r.Some? && lo <= r.value <= hi then r else None
  }

  /** `s.parse::<i64>()`. */
  function ParseI64(s: string): Option<int> {
    InRange(ParseInt(s, true), I64Min, I64Max)
  }

  /** `s.parse::<u16>()`. */
  function ParseU16(s: string): (r: Option<int>)
    ensures r.Some? ==> 0 <= r.value <= U16Max
  {
    InRange(ParseInt(s, false), 0, U16Max)
  }

  /** `s.parse::<u64>()`. */
  function ParseU64(s: string): Option<int> {
    InRange(ParseInt(s, false), 0, U64Max)
  }

  /** Parsing undoes formatting, for every integer. */
  lemma ParseFormatInt(n: int)
    ensures ParseInt(FormatInt(n), true) == Some(n)
  {
    if n < 0 {
      assert FormatInt(n)[1..] == FormatNat(-n);
    } else {
      assert FormatNat(n)[0] != '-';
    }
  }

  lemma ParseFormatNat(n: nat)
    ensures ParseInt(FormatNat(n), false) == Some(n)
    ensures ParseU64(FormatNat(n)) == (if n <= U64Max then Some(n) else None)
    ensures ParseU16(FormatNat(n)) == (if n <= U16Max then Some(n) else None)
  {
  }

  lemma ParseI64FormatInt(n: int)
    requires I64Min <= n <= I64Max
    ensures ParseI64(FormatInt(n)) == Some(n)
  {
    ParseFormatInt(n);
  }
}
