/** fmt's %d and strconv.ParseInt(s, 10, 64), which strconv.Atoi is on a 64-bit host. */
module Decimal {
  import opened Bytes

  const LIMIT: int := 0x8000_0000_0000_0000   // 2^63

  predicate IsDigit(c: char) {
    '0' <= c <= '9'
  }

  function Digit(d: nat): (c: char)
    requires d < 10
    ensures IsDigit(c) && c as int - '0' as int == d
  {
    (d + '0' as int) as char
  }

  function Digits(n: nat): (s: string)
    ensures s != [] && forall c :: c in s ==> IsDigit(c)
  {
    if n < 10 then [Digit(n)] else Digits(n / 10) + [Digit(n % 10)]
  }

  /** %d */
  function Itoa(n: int): string {
    if n < 0 then "-" + Digits(-n) else Digits(n)
  }

  function Value(s: string): nat
    requires forall c :: c in s ==> IsDigit(c)
  {
    if s == [] then 0
    else
      assert IsDigit(s[|s| - 1]) by { assert s[|s| - 1] in s; }
      Value(s[..|s| - 1]) * 10 + (s[|s| - 1] as int - '0' as int)
  }

  function ParseInt(s: string): (r: Option<int>)
    ensures r.Some? ==> -LIMIT <= r.value < LIMIT
  {
    var negative := s != [] && s[0] == '-';
    var digits := if s != [] && (s[0] == '-' || s[0] == '+') then s[1..] else s;
    if digits == [] || exists c :: c in digits && !IsDigit(c) then None
    else
      var v := Value(digits);
      if negative then (if v <= LIMIT then Some(-(v as int)) else None)
      else if v < LIMIT then Some(v as int) else None
  }

  lemma {:induction false} ValueOfDigits(n: nat)
    ensures Value(Digits(n)) == n
  {
    if n >= 10 {
      ValueOfDigits(n / 10);
      assert Digits(n)[..|Digits(n)| - 1] == Digits(n / 10);
    }
  }

  /** Every 64-bit integer survives printing and parsing. */
  lemma ParsePrinted(n: int)
    requires -LIMIT <= n < LIMIT
    ensures ParseInt(Itoa(n)) == Some(n)
  {
    if n < 0 {
      ValueOfDigits(-n);
      assert Itoa(n)[1..] == Digits(-n);
    } else {
      ValueOfDigits(n);
      assert Digits(n)[0] in Digits(n);
    }
  }

  lemma PrintedHasOnlyDigits(n: nat)
    ensures '-' !in Itoa(n) && '/' !in Itoa(n) && ' ' !in Itoa(n)
    ensures Itoa(n) != [] && IsDigit(Itoa(n)[0])
  {
    assert Itoa(n)[0] in Itoa(n);
  }
}
