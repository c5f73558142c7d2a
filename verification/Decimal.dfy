/** Decimal numerals: printing with "%lld" and reading back, for integers of any size. */
module Decimal {
  import opened Bytes

  predicate IsDigit(c: byte) {
    0x30 <= c <= 0x39
  }

  predicate AllDigits(s: bytes) {
    forall c <- s :: IsDigit(c)
  }

  function Digit(d: nat): (c: byte)
    requires d < 10
    ensures IsDigit(c)
  {
    [0x30, 0x31, 0x32, 0x33, 0x34, 0x35, 0x36, 0x37, 0x38, 0x39][d]
  }

  lemma DigitBack(d: nat)
    requires d < 10
    ensures DigitValue(Digit(d)) == d
  {}

  function DigitValue(c: byte): (d: nat)
    ensures d < 10
  {
    match c
    case 0x31 => 1
    case 0x32 => 2
    case 0x33 => 3
    case 0x34 => 4
    case 0x35 => 5
    case 0x36 => 6
    case 0x37 => 7
    case 0x38 => 8
    case 0x39 => 9
    case _ => 0
  }

  /** The digits of `n`, without leading zeros. */
  function OfNat(n: nat): (s: bytes)
    ensures s != [] && AllDigits(s)
    ensures n > 0 ==> s[0] != 0x30
    ensures n == 0 ==> s == [0x30]
  {
    if n < 10 then [Digit(n)] else OfNat(n / 10) + [Digit(n % 10)]
  }

  function OfInt(n: int): (s: bytes)
    ensures s != []
  {
    if n < 0 then [MINUS] + OfNat(-n) else OfNat(n)
  }

  /** What a string of digits stands for, however long it is. */
  function Value(s: bytes): nat {
    if s == [] then 0 else Value(s[..|s| - 1]) * 10 + DigitValue(s[|s| - 1])
  }

  lemma {:induction false} ValueOfNat(n: nat)
    ensures Value(OfNat(n)) == n
  {
    if n >= 10 {
      ValueOfNat(n / 10);
      ValueSnoc(OfNat(n / 10), Digit(n % 10));
      DigitBack(n % 10);
    } else {
      ValueSnoc([], Digit(n));
      DigitBack(n);
    }
  }

  lemma ValueSnoc(s: bytes, c: byte)
    ensures Value(s + [c]) == Value(s) * 10 + DigitValue(c)
  {
    assert (s + [c])[..|s|] == s;
  }

  lemma OfNatInjective(m: nat, n: nat)
    requires OfNat(m) == OfNat(n)
    ensures m == n
  {
    ValueOfNat(m);
    ValueOfNat(n);
  }

  /** The sign shows, and nothing else looks like it. */
  lemma OfIntHead(n: int)
    ensures OfInt(n)[0] == MINUS <==> n < 0
  {
    if n >= 0 {
      assert IsDigit(OfNat(n)[0]);
    }
  }

  lemma OfIntInjective(m: int, n: int)
    requires OfInt(m) == OfInt(n)
    ensures m == n
  {
    OfIntHead(m);
    OfIntHead(n);
    if m < 0 {
      assert OfInt(m)[1..] == OfNat(-m) && OfInt(n)[1..] == OfNat(-n);
      OfNatInjective(-m, -n);
    } else {
      OfNatInjective(m, n);
    }
  }
}
