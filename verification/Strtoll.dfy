/** The C library's strtoll(s, &end, 10) on 64-bit integers, as the daemon uses it. */
module Strtoll {
  import opened Bytes
  import opened Decimal

  const LLMAX: int := 0x7FFF_FFFF_FFFF_FFFF
  const LLMIN: int := -0x8000_0000_0000_0000

  /** isspace in the C locale */
  predicate IsSpace(c: byte) {
    c == SPACE || 0x09 <= c <= 0x0D
  }

  function Spaces(s: bytes): (n: nat)
    ensures n <= |s|
    ensures n < |s| ==> !IsSpace(s[n])
  {
    if s != [] && IsSpace(s[0]) then 1 + Spaces(s[1..]) else 0
  }

  function Digits(s: bytes): (n: nat)
    ensures n <= |s| && AllDigits(s[..n])
    ensures n < |s| ==> !IsDigit(s[n])
  {
    if s != [] && IsDigit(s[0]) then
      var n := Digits(s[1..]);
      assert s[..1 + n] == [s[0]] + s[1..][..n];
      1 + n
    else 0
  }

  /** Where the digits start, were there any: after blanks and one sign. */
  function Start(s: bytes): (n: nat)
    ensures n <= |s|
  {
    var n := Spaces(s);
    if n < |s| && (s[n] == PLUS || s[n] == MINUS) then n + 1 else n
  }

  function Negative(s: bytes): bool {
    var n := Spaces(s);
    n < |s| && s[n] == MINUS
  }

  /** How much of `s` is numeral; nothing when there is no digit. */
  function NumeralEnd(s: bytes): (n: nat)
    ensures n <= |s|
  {
    var d := Digits(s[Start(s)..]);
    if d == 0 then 0 else Start(s) + d
  }

  /** The numeral's value as an unbounded integer. */
  function Unbounded(s: bytes): int {
    var v: int := Decimal.Value(s[Start(s)..][..Digits(s[Start(s)..])]);
    if Negative(s) then -v else v
  }

  function Clamp(v: int): int {
    if v > LLMAX then LLMAX else if v < LLMIN then LLMIN else v
  }

  /** What strtoll returns: the value clamped to what a long long can hold. */
  function Value64(s: bytes): (v: int)
    ensures LLMIN <= v <= LLMAX
  {
    Clamp(Unbounded(s))
  }

  lemma {:induction false} DigitsOf(ds: bytes, rest: bytes)
    requires AllDigits(ds) && (rest == [] || !IsDigit(rest[0]))
    ensures Digits(ds + rest) == |ds|
    decreases ds
  {
    if ds == [] {
      assert ds + rest == rest;
    } else {
      assert (ds + rest)[1..] == ds[1..] + rest;
      DigitsOf(ds[1..], rest);
    }
  }

  /** A plain string of digits is read whole, whatever follows it. */
  lemma PlainNumeral(ds: bytes, rest: bytes)
    requires ds != [] && AllDigits(ds) && (rest == [] || !IsDigit(rest[0]))
    ensures Start(ds + rest) == 0 && NumeralEnd(ds + rest) == |ds| && Unbounded(ds + rest) == Decimal.Value(ds)
  {
    var s := ds + rest;
    assert IsDigit(ds[0]);
    assert s[0] == ds[0] && Spaces(s) == 0;
    DigitsOf(ds, rest);
    assert s[0..] == s && s[..|ds|] == ds;
  }

  /** Where the digits begin after blanks and a sign or none. */
  lemma SignedStart(blanks: bytes, sign: bytes, rest: bytes)
    requires (forall c <- blanks :: IsSpace(c)) && sign in {[], [PLUS], [MINUS]}
    requires sign == [] ==> rest == [] || (!IsSpace(rest[0]) && rest[0] != PLUS && rest[0] != MINUS)
    ensures var s := blanks + (sign + rest);
            && Start(s) == |blanks| + |sign| && s[Start(s)..] == rest && (Negative(s) <==> sign == [MINUS])
  {
    var t := sign + rest;
    var s := blanks + t;
    if sign != [] {
      assert t[0] == sign[0] && !IsSpace(t[0]);
    } else {
      assert t == rest;
    }
    BlanksSkipped(blanks, t);
    assert t != [] ==> s[|blanks|] == t[0];
    assert s[|blanks| + |sign|..] == rest;
  }

  /** Blanks, a sign or none, digits, and then something else. */
  lemma SignedNumeral(blanks: bytes, sign: bytes, ds: bytes, rest: bytes)
    requires (forall c <- blanks :: IsSpace(c)) && sign in {[], [PLUS], [MINUS]}
    requires ds != [] && AllDigits(ds) && (rest == [] || !IsDigit(rest[0]))
    ensures var s, v: int := blanks + (sign + (ds + rest)), Decimal.Value(ds);
            && NumeralEnd(s) == |blanks| + |sign| + |ds|
            && Unbounded(s) == if sign == [MINUS] then -v else v
  {
    var t := ds + rest;
    assert IsDigit(ds[0]) && t[0] == ds[0];
    SignedStart(blanks, sign, t);
    DigitsOf(ds, rest);
    assert t[..|ds|] == ds;
    ReadsTo(blanks + (sign + t), |blanks| + |sign|, t, ds);
  }

  lemma ReadsTo(s: bytes, start: nat, t: bytes, ds: bytes)
    requires Start(s) == start <= |s| && s[start..] == t && Digits(t) == |ds| > 0 && t[..|ds|] == ds
    ensures NumeralEnd(s) == start + |ds|
    ensures var v: int := Decimal.Value(ds); Unbounded(s) == if Negative(s) then -v else v
  {}

  lemma {:induction false} BlanksSkipped(blanks: bytes, t: bytes)
    requires (forall c <- blanks :: IsSpace(c)) && (t == [] || !IsSpace(t[0]))
    ensures Spaces(blanks + t) == |blanks|
    decreases blanks
  {
    if blanks == [] {
      assert blanks + t == t;
    } else {
      assert (blanks + t)[1..] == blanks[1..] + t && (blanks + t)[0] == blanks[0] && blanks[0] in blanks;
      BlanksSkipped(blanks[1..], t);
    }
  }

  /** Nothing else is a numeral: without a digit after blanks and one sign there is none. */
  lemma NoNumeral(blanks: bytes, sign: bytes, rest: bytes)
    requires (forall c <- blanks :: IsSpace(c)) && sign in {[], [PLUS], [MINUS]}
    requires rest == [] || !IsDigit(rest[0])
    requires sign == [] ==> rest == [] || (!IsSpace(rest[0]) && rest[0] != PLUS && rest[0] != MINUS)
    ensures NumeralEnd(blanks + (sign + rest)) == 0
  {
    SignedStart(blanks, sign, rest);
  }

  /** What "%lld" prints is read back. */
  lemma IntReadsBack(n: int)
    ensures NumeralEnd(OfInt(n)) == |OfInt(n)| && Unbounded(OfInt(n)) == n
  {
    var sign, ds := if n < 0 then [MINUS] else [], if n < 0 then OfNat(-n) else OfNat(n);
    ValueOfNat(if n < 0 then -n else n);
    SignedNumeral([], sign, ds, []);
    assert [] + (sign + (ds + [])) == OfInt(n);
  }

  /** Neither blank nor sign. */
  predicate Unmarked(s: bytes) {
    forall c <- s :: !IsSpace(c) && c != PLUS && c != MINUS
  }

  lemma UnmarkedNumeral(s: bytes)
    requires Unmarked(s)
    ensures AllDigits(s[..NumeralEnd(s)])
  {
    if s != [] {
      assert s[0] in s && Spaces(s) == 0;
    }
    assert Start(s) == 0 && s[0..] == s;
  }

  lemma DigitsAreUnmarked(s: bytes)
    requires AllDigits(s)
    ensures Unmarked(s)
  {
    forall c | c in s
      ensures !IsSpace(c) && c != PLUS && c != MINUS
    {
      var i :| 0 <= i < |s| && s[i] == c;
      assert IsDigit(s[i]);
    }
  }
}
