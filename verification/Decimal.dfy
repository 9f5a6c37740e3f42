/** 64-bit integers: overflow, and strconv.FormatInt and strconv.ParseInt in base ten. */
module Decimal {
  import opened Wrappers

  const MAX_INT64 := 0x7fff_ffff_ffff_ffff
  const MIN_INT64 := -0x8000_0000_0000_0000

  /** A 64-bit signed integer after overflow. */
  function Wrap64(n: int): int {
    (n + 0x8000_0000_0000_0000) % 0x1_0000_0000_0000_0000 - 0x8000_0000_0000_0000
  }

  function Digit(d: nat): char
    requires d < 10
  {
    ('0' as int + d) as char
  }

  predicate IsDigit(c: char) {
    48 <= c as int <= 57
  }

  predicate AllDigits(s: string) {
    forall i :: 0 <= i < |s| ==> IsDigit(s[i])
  }

  function FormatNat(n: nat): (s: string)
    ensures s != []
  {
    if n < 10 then [Digit(n)] else FormatNat(n / 10) + [Digit(n % 10)]
  }

  function ValueOf(s: string): nat
    requires AllDigits(s)
  {
    if s == [] then 0 else 10 * ValueOf(s[..|s| - 1]) + (s[|s| - 1] as int - 48)
  }

  function FormatInt(n: int): string {
    if n < 0 then "-" + FormatNat(-n) else FormatNat(n)
  }

  /** An optional sign and at least one digit, within 64 bits. */
  function ParseInt(s: string): Option<int> {
    if s == "" then None
    else if s[0] == '-' then
      if |s| > 1 && AllDigits(s[1..]) && 0 - ValueOf(s[1..]) >= MIN_INT64 then Some(0 - ValueOf(s[1..])) else None
    else
      var digits := if s[0] == '+' then s[1..] else s;
      if digits != "" && AllDigits(digits) && ValueOf(digits) <= MAX_INT64 then Some(ValueOf(digits)) else None
  }

  lemma {:induction false} ValueOfFormat(n: nat)
    ensures AllDigits(FormatNat(n)) && ValueOf(FormatNat(n)) == n
  {
    if n >= 10 {
      ValueOfFormat(n / 10);
      var s := FormatNat(n);
      assert s[..|s| - 1] == FormatNat(n / 10);
    }
  }

  /** Parsing undoes formatting on every 64-bit integer. */
  lemma ParseFormat(n: int)
    requires MIN_INT64 <= n <= MAX_INT64
    ensures ParseInt(FormatInt(n)) == Some(n)
  {
    var digits := FormatNat(if n < 0 then -n else n);
    ValueOfFormat(if n < 0 then -n else n);
    assert IsDigit(digits[0]);
    if n < 0 {
      assert FormatInt(n)[1..] == digits;
    }
  }

  /** What is parsed is one or more digits, leading zeros allowed, behind at most one sign,
      with a value within 64 bits; and nothing else is. */
  lemma ParsesExactly(s: string, digits: string)
    ensures digits != "" && AllDigits(digits) ==>
              && ParseInt(digits) == ParseInt("+" + digits) == (if ValueOf(digits) <= MAX_INT64 then Some(ValueOf(digits)) else None)
              && ParseInt("-" + digits) == if ValueOf(digits) <= MAX_INT64 + 1 then Some(0 - ValueOf(digits)) else None
    ensures ParseInt(s).Some? ==> s != "" && (AllDigits(s) || ((s[0] == '+' || s[0] == '-') && |s| > 1 && AllDigits(s[1..])))
  {
    hide ValueOf;
    assert ("+" + digits)[1..] == digits && ("-" + digits)[1..] == digits;
    assert digits != "" && AllDigits(digits) ==> IsDigit(digits[0]);
  }
}
