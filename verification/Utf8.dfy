/**
 UTF-8 as the daemon checks it, bit mask by bit mask (utf8_seq_len in src/core/jsonw.c),
 against the grammar of section 4 of RFC 3629 and against the encoding of scalar values.
 */
module Utf8 {
  import opened Bytes

  /** A C string in memory: some text and the NUL that ends it. */
  predicate Terminated(s: bytes) {
    s != [] && s[|s| - 1] == NUL
  }

  /** utf8_seq_len: every look ahead is inside `s`, because NUL is no continuation byte. */
  function SeqLen(s: bytes): (n: nat)
    requires Terminated(s)
    ensures n <= 4 && (n > 1 ==> n < |s|)
    ensures forall i :: 0 < i < n ==> s[i] != NUL
  {
    var c := s[0];
    if c < 0x80 then 1
    else if (c & 0xE0) == 0xC0 then
      if c < 0xC2 then 0
      else if (s[1] & 0xC0) != 0x80 then 0
      else 2
    else if (c & 0xF0) == 0xE0 then
      if (s[1] & 0xC0) != 0x80 || (s[2] & 0xC0) != 0x80 then 0
      else if c == 0xE0 && s[1] < 0xA0 then 0
      else if c == 0xED && s[1] >= 0xA0 then 0
      else 3
    else if (c & 0xF8) == 0xF0 then
      if (s[1] & 0xC0) != 0x80 || (s[2] & 0xC0) != 0x80 || (s[3] & 0xC0) != 0x80 then 0
      else if c == 0xF0 && s[1] < 0x90 then 0
      else if c > 0xF4 || (c == 0xF4 && s[1] >= 0x90) then 0
      else 4
    else 0
  }

  // --- Section 4 of RFC 3629 ----------------------------------------------------------

  predicate Tail(b: byte) {
    0x80 <= b <= 0xBF
  }

  /** How long the well-formed sequence at the start of `s` is; 0 when there is none. */
  function RfcLen(s: bytes): (n: nat)
    ensures n <= 4 && n <= |s|
  {
    if s == [] then 0
    else if s[0] <= 0x7F then 1
    else if |s| >= 2 && 0xC2 <= s[0] <= 0xDF && Tail(s[1]) then 2
    else if |s| >= 3 && Tail(s[2]) &&
            (|| (s[0] == 0xE0 && 0xA0 <= s[1] <= 0xBF)
             || (0xE1 <= s[0] <= 0xEC && Tail(s[1]))
             || (s[0] == 0xED && 0x80 <= s[1] <= 0x9F)
             || (0xEE <= s[0] <= 0xEF && Tail(s[1])))
    then 3
    else if |s| >= 4 && Tail(s[2]) && Tail(s[3]) &&
            (|| (s[0] == 0xF0 && 0x90 <= s[1] <= 0xBF)
             || (0xF1 <= s[0] <= 0xF3 && Tail(s[1]))
             || (s[0] == 0xF4 && 0x80 <= s[1] <= 0x8F))
    then 4
    else 0
  }

  /** The masks accept exactly what the grammar does, and never need what lies past the NUL. */
  lemma MasksAreTheGrammar(t: bytes)
    requires t != []
    ensures SeqLen(t + [NUL]) == RfcLen(t)
  {
    var s := t + [NUL];
    assert forall i :: 0 <= i < |t| ==> s[i] == t[i];
    MasksAreRanges(s[0]);
    assert forall i :: 0 <= i < |s| ==> ((s[i] & 0xC0) == 0x80 <==> Tail(s[i]));
  }

  lemma MasksAreRanges(b: byte)
    ensures (b & 0xE0) == 0xC0 <==> 0xC0 <= b <= 0xDF
    ensures (b & 0xF0) == 0xE0 <==> 0xE0 <= b <= 0xEF
    ensures (b & 0xF8) == 0xF0 <==> 0xF0 <= b <= 0xF7
  {}

  /** What follows a well-formed sequence has no say in its length. */
  lemma RfcLenLocal(s: bytes, more: bytes)
    requires RfcLen(s) > 0
    ensures RfcLen(s + more) == RfcLen(s)
    ensures RfcLen(s[..RfcLen(s)] + more) == RfcLen(s)
  {}

  /** No byte past the string's NUL is ever looked at. */
  lemma LooksNoFurther(t: bytes, more: bytes)
    requires t != []
    ensures SeqLen(t + [NUL] + more + [NUL]) == SeqLen(t + [NUL])
  {
    var s, u := t + [NUL], t + [NUL] + more + [NUL];
    assert forall i :: 0 <= i <= |t| ==> u[i] == s[i];
  }

  // --- Scalar values ----------------------------------------------------------------------

  /** A Unicode scalar value: a code point that is no surrogate. */
  predicate Scalar(cp: bv32) {
    cp <= 0x10FFFF && !(0xD800 <= cp <= 0xDFFF)
  }

  // The bytes that hold the parts of a code point.

  function Lead2(cp: bv32): byte
    requires cp < 0x800
  {
    0xC0 | (cp >> 6) as bv8
  }

  function Lead3(cp: bv32): byte
    requires cp < 0x1_0000
  {
    0xE0 | (cp >> 12) as bv8
  }

  function Lead4(cp: bv32): byte
    requires cp <= 0x10FFFF
  {
    0xF0 | (cp >> 18) as bv8
  }

  function Trail(bits: bv32): byte {
    0x80 | (bits & 0x3F) as bv8
  }

  function Encode(cp: bv32): bytes
    requires cp <= 0x10FFFF
  {
    if cp < 0x80 then [cp as bv8]
    else if cp < 0x800 then [Lead2(cp), Trail(cp)]
    else if cp < 0x1_0000 then [Lead3(cp), Trail(cp >> 6), Trail(cp)]
    else [Lead4(cp), Trail(cp >> 12), Trail(cp >> 6), Trail(cp)]
  }

  // Every well-formed sequence is the encoding of the value its bits spell out...

  lemma Joined2(a: byte, b: byte) returns (cp: bv32)
    requires 0xC2 <= a <= 0xDF && Tail(b)
    ensures 0x80 <= cp < 0x800 && Lead2(cp) == a && Trail(cp) == b
  {
    cp := ((a & 0x1F) as bv32 << 6) | (b & 0x3F) as bv32;
  }

  lemma Joined3(a: byte, b: byte, c: byte) returns (cp: bv32)
    requires 0xE0 <= a <= 0xEF && Tail(b) && Tail(c)
    requires (a == 0xE0 ==> 0xA0 <= b) && (a == 0xED ==> b <= 0x9F)
    ensures 0x800 <= cp < 0x1_0000 && Scalar(cp)
    ensures Lead3(cp) == a && Trail(cp >> 6) == b && Trail(cp) == c
  {
    cp := ((a & 0x0F) as bv32 << 12) | ((b & 0x3F) as bv32 << 6) | (c & 0x3F) as bv32;
  }

  lemma Joined4(a: byte, b: byte, c: byte, d: byte) returns (cp: bv32)
    requires 0xF0 <= a <= 0xF4 && Tail(b) && Tail(c) && Tail(d)
    requires (a == 0xF0 ==> 0x90 <= b) && (a == 0xF4 ==> b <= 0x8F)
    ensures 0x1_0000 <= cp <= 0x10FFFF
    ensures Lead4(cp) == a && Trail(cp >> 12) == b && Trail(cp >> 6) == c && Trail(cp) == d
  {
    cp := ((a & 0x07) as bv32 << 18) | ((b & 0x3F) as bv32 << 12) | ((c & 0x3F) as bv32 << 6) | (d & 0x3F) as bv32;
  }

  lemma Spelled2(a: byte, b: byte) returns (cp: bv32)
    requires 0xC2 <= a <= 0xDF && Tail(b)
    ensures Scalar(cp) && Encode(cp) == [a, b]
  {
    cp := Joined2(a, b);
  }

  lemma Spelled3(a: byte, b: byte, c: byte) returns (cp: bv32)
    requires 0xE0 <= a <= 0xEF && Tail(b) && Tail(c)
    requires (a == 0xE0 ==> 0xA0 <= b) && (a == 0xED ==> b <= 0x9F)
    ensures Scalar(cp) && Encode(cp) == [a, b, c]
  {
    cp := Joined3(a, b, c);
  }

  lemma Spelled4(a: byte, b: byte, c: byte, d: byte) returns (cp: bv32)
    requires 0xF0 <= a <= 0xF4 && Tail(b) && Tail(c) && Tail(d)
    requires (a == 0xF0 ==> 0x90 <= b) && (a == 0xF4 ==> b <= 0x8F)
    ensures Scalar(cp) && Encode(cp) == [a, b, c, d]
  {
    cp := Joined4(a, b, c, d);
  }

  lemma WellFormedIsScalar(s: bytes) returns (cp: bv32)
    requires RfcLen(s) > 0
    ensures Scalar(cp) && Encode(cp) == s[..RfcLen(s)]
  {
    match RfcLen(s)
    case 1 =>
      cp := s[0] as bv32;
      assert cp < 0x80 && cp as bv8 == s[0];
    case 2 => cp := Spelled2(s[0], s[1]);
    case 3 => cp := Spelled3(s[0], s[1], s[2]);
    case _ => cp := Spelled4(s[0], s[1], s[2], s[3]);
  }

  // ... and the encoding of every scalar value is well formed.

  lemma TrailIsTail(x: bv32)
    ensures Tail(Trail(x))
  {}

  lemma SecondOf3(cp: bv32)
    requires 0x800 <= cp < 0x1_0000
    ensures 0xE0 <= Lead3(cp) <= 0xEF
    ensures Lead3(cp) == 0xE0 ==> 0xA0 <= Trail(cp >> 6)
    ensures Lead3(cp) == 0xED && Scalar(cp) ==> Trail(cp >> 6) <= 0x9F
  {}

  lemma SecondOf4(cp: bv32)
    requires 0x1_0000 <= cp <= 0x10FFFF
    ensures 0xF0 <= Lead4(cp) <= 0xF4
    ensures Lead4(cp) == 0xF0 ==> 0x90 <= Trail(cp >> 12)
    ensures Lead4(cp) == 0xF4 ==> Trail(cp >> 12) <= 0x8F
  {}

  lemma EncodeIsWellFormed(cp: bv32)
    requires Scalar(cp)
    ensures RfcLen(Encode(cp)) == |Encode(cp)|
  {
    TrailIsTail(cp);
    TrailIsTail(cp >> 6);
    TrailIsTail(cp >> 12);
    if cp < 0x80 {
      assert cp as bv8 <= 0x7F;
    } else if cp < 0x800 {
      assert 0xC2 <= Lead2(cp) <= 0xDF;
    } else if cp < 0x1_0000 {
      SecondOf3(cp);
    } else {
      SecondOf4(cp);
    }
  }

  /** utf8_seq_len answers n exactly when the text goes on with the n bytes of some scalar
      value; overlong forms, surrogates, values above U+10FFFF and cut-off sequences get 0. */
  lemma SeqLenIsExact(t: bytes, n: nat)
    requires t != [] && n > 0
    ensures SeqLen(t + [NUL]) == n <==> exists cp :: Scalar(cp) && Encode(cp) <= t && |Encode(cp)| == n
  {
    MasksAreTheGrammar(t);
    if RfcLen(t) == n {
      var cp := WellFormedIsScalar(t);
      assert Scalar(cp) && Encode(cp) <= t && |Encode(cp)| == n;
    }
    if cp :| Scalar(cp) && Encode(cp) <= t && |Encode(cp)| == n {
      EncodeIsWellFormed(cp);
      RfcLenLocal(Encode(cp), t[n..]);
      assert t == Encode(cp) + t[n..];
    }
  }
}
