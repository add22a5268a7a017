/** Decimal numerals: how the service writes them and what `u64::from_str` accepts. */
module Decimal {
  import opened Prelude

  predicate IsDigit(c: char) { '0' <= c <= '9' }

  predicate AllDigits(s: string) { forall i :: 0 <= i < |s| ==> IsDigit(s[i]) }

  function DigitValue(c: char): (d: nat)
    requires IsDigit(c)
    ensures d <= 9
  {
    c as int - '0' as int
  }

  function Digit(d: nat): (c: char)
    requires d <= 9
    ensures IsDigit(c) && DigitValue(c) == d
  {
    ('0' as int + d) as char
  }

  function Value(s: string): nat
    requires AllDigits(s)
    decreases |s|
  {
    if s == "" then 0 else Value(s[..|s| - 1]) * 10 + DigitValue(s[|s| - 1])
  }

  function Numeral(n: nat): (s: string)
    ensures s != "" && AllDigits(s)
  {
    if n < 10 then [Digit(n)] else Numeral(n / 10) + [Digit(n % 10)]
  }

  /** One optional leading `+`, at least one digit, no overflow. */
  function ParseU64(s: string): (r: Option<nat>)
    ensures r.Some? ==> r.value <= U64_MAX
  {
    var digits := if s != "" && s[0] == '+' then s[1..] else s;
    if digits != "" && AllDigits(digits) && Value(digits) <= U64_MAX then Some(Value(digits)) else None
  }

  lemma {:induction false} ValueOfNumeral(n: nat)
    ensures Value(Numeral(n)) == n
  {
    if n >= 10 {
      ValueOfNumeral(n / 10);
      var s := Numeral(n);
      assert s[..|s| - 1] == Numeral(n / 10);
    } else {
      var s := Numeral(n);
      assert s[..|s| - 1] == "";
    }
  }

  lemma {:induction false} ParseNumeral(n: nat)
    ensures ParseU64(Numeral(n)) == if n <= 18_446_744_073_709_551_615 then Some(n) else None
  {
    ValueOfNumeral(n);
    assert IsDigit(Numeral(n)[0]);
  }

  function Pow10(k: nat): nat { if k == 0 then 1 else 10 * Pow10(k - 1) }

  lemma {:induction false} NumeralLength(n: nat, k: nat)
    requires k > 0 && n < Pow10(k)
    ensures |Numeral(n)| <= k
    decreases k
  {
    if n >= 10 {
      assert Pow10(1) == 10;
      NumeralLength(n / 10, k - 1);
    }
  }

  lemma {:induction false} U64NumeralLength(n: nat)
    requires n <= U64_MAX
    ensures |Numeral(n)| <= 20
  {
    assert Pow10(4) == 10_000 by { assert Pow10(2) == 100; }
    assert Pow10(8) == 100_000_000;
    assert Pow10(12) == 1_000_000_000_000;
    assert Pow10(16) == 10_000_000_000_000_000;
    assert Pow10(20) == 100_000_000_000_000_000_000;
    NumeralLength(n, 20);
  }

  /** A numeral is its leading digits followed by its last one, and digits are the characters from `0` on. */
  lemma {:induction false} DecimalNotation(n: nat, d: nat)
    requires d <= 9
    ensures Numeral(d) == ['0' + d as char]
    ensures n > 0 ==> Numeral(10 * n + d) == Numeral(n) + ['0' + d as char]
  {
    assert (10 * n + d) / 10 == n && (10 * n + d) % 10 == d;
  }

  /** The accepted texts with a sign, leading zeros, and the shortest refused ones. */
  lemma {:induction false} SignsAndZeros()
    ensures ParseU64("+007") == Some(7)
    ensures ParseU64("") == None && ParseU64("+") == None && ParseU64("-1") == None && ParseU64("++1") == None
  {
    SevenWithZeros();
    assert !IsDigit("-1"[0]) && "++1"[1..] == "+1" && !IsDigit("+1"[0]);
    hide Value;
  }

  lemma {:induction false} SevenWithZeros()
    ensures AllDigits("007") && Value("007") == 7 && "+007"[1..] == "007"
  {
    assert "007"[..2] == "00" && "00"[..1] == "0" && "0"[..0] == "";
    assert Value("0") == 0 && Value("00") == 0;
  }
}
