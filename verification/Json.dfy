/**
 JSON text: what the builder prints for a value, and an independent reader of sections 2 to 7
 of RFC 8259 that takes any conforming document.
 */
module Json {
  import opened Bytes
  import opened Decimal
  import opened Utf8

  const BACKSLASH: byte := 0x5C
  const LBRACE: byte := 0x7B
  const RBRACE: byte := 0x7D
  const LBRACKET: byte := 0x5B
  const RBRACKET: byte := 0x5D
  const NULLWORD: bytes := [0x6E, 0x75, 0x6C, 0x6C]
  const TRUEWORD: bytes := [0x74, 0x72, 0x75, 0x65]
  const FALSEWORD: bytes := [0x66, 0x61, 0x6C, 0x73, 0x65]

  /** What callers emit. A string is any bytes at all. */
  datatype Value =
    | Null
    | Bool(b: bool)
    | Int(n: int)
    | Str(s: bytes)
    | Arr(items: seq<Value>)
    | Obj(members: seq<Member>)

  datatype Member = Member(key: bytes, value: Value)

  /** What a reader gets back: numbers as their lexemes, strings decoded to UTF-8. */
  datatype Json =
    | JNull
    | JBool(b: bool)
    | JNum(lexeme: bytes)
    | JStr(s: bytes)
    | JArr(items: seq<Json>)
    | JObj(members: seq<(bytes, Json)>)

  // --- Printing -----------------------------------------------------------------------------

  /** A hexadecimal digit, lower case. */
  function Hex(d: byte): (c: byte)
    requires d < 16
  {
    if d < 10 then 0x30 + d else 0x57 + d
  }

  const REPLACEMENT: bytes := [0x5C, 0x75, 0x66, 0x66, 0x66, 0x64]   // \ufffd

  /** What one ASCII byte is printed as. */
  function EscapeAscii(c: byte): bytes
    requires c < 0x80
  {
    if c == QUOTE then [BACKSLASH, QUOTE]
    else if c == BACKSLASH then [BACKSLASH, BACKSLASH]
    else if c == 0x08 then [BACKSLASH, 0x62]
    else if c == 0x0C then [BACKSLASH, 0x66]
    else if c == LF then [BACKSLASH, 0x6E]
    else if c == CR then [BACKSLASH, 0x72]
    else if c == TAB then [BACKSLASH, 0x74]
    else if c < 0x20 then [BACKSLASH, 0x75, 0x30, 0x30, Hex(c >> 4), Hex(c & 0x0F)]
    else [c]
  }

  /** The inside of a string literal. */
  function Escape(s: bytes): bytes {
    if s == [] then []
    else if s[0] < 0x80 then EscapeAscii(s[0]) + Escape(s[1..])
    else
      var n := SeqLen(s + [NUL]);
      if n == 0 then REPLACEMENT + Escape(s[1..]) else s[..n] + Escape(s[n..])
  }

  function PrintStr(s: bytes): bytes {
    [QUOTE] + Escape(s) + [QUOTE]
  }

  function Print(v: Value): bytes
    decreases v
  {
    match v
    case Null => NULLWORD
    case Bool(b) => if b then TRUEWORD else FALSEWORD
    case Int(n) => OfInt(n)
    case Str(s) => PrintStr(s)
    case Arr(items) => [LBRACKET] + PrintItems(items) + [RBRACKET]
    case Obj(members) => [LBRACE] + PrintMembers(members) + [RBRACE]
  }

  function PrintItems(items: seq<Value>): bytes
    decreases items
  {
    if items == [] then []
    else if |items| == 1 then Print(items[0])
    else Print(items[0]) + [COMMA] + PrintItems(items[1..])
  }

  function PrintMember(m: Member): bytes
    decreases m
  {
    PrintStr(m.key) + [COLON] + Print(m.value)
  }

  function PrintMembers(members: seq<Member>): bytes
    decreases members
  {
    if members == [] then []
    else if |members| == 1 then PrintMember(members[0])
    else PrintMember(members[0]) + [COMMA] + PrintMembers(members[1..])
  }

  // --- Reading ------------------------------------------------------------------------------

  datatype Parsed<+T> = Bad | Got(value: T, rest: bytes)

  predicate IsBlank(c: byte) {
    c == SPACE || c == TAB || c == LF || c == CR
  }

  function SkipBlanks(t: bytes): (r: bytes)
    ensures |r| <= |t|
  {
    if t != [] && IsBlank(t[0]) then SkipBlanks(t[1..]) else t
  }

  predicate IsHex(c: byte) {
    IsDigit(c) || 0x61 <= c <= 0x66 || 0x41 <= c <= 0x46
  }

  function HexValue(c: byte): bv32
    requires IsHex(c)
  {
    if IsDigit(c) then (c - 0x30) as bv32
    else if c >= 0x61 then (c - 0x57) as bv32
    else (c - 0x37) as bv32
  }

  /** The four hexadecimal digits of a \u escape. */
  function Hex4(t: bytes): Option<bv32> {
    if |t| >= 4 && IsHex(t[0]) && IsHex(t[1]) && IsHex(t[2]) && IsHex(t[3]) then
      Some((HexValue(t[0]) << 12) | (HexValue(t[1]) << 8) | (HexValue(t[2]) << 4) | HexValue(t[3]))
    else None
  }

  /** A \u escape, or two of them for a value beyond U+FFFF; `t` starts after the \u. */
  function ParseUnicode(t: bytes): (r: Parsed<bytes>)
    ensures r.Got? ==> |r.rest| < |t|
  {
    var hi := Hex4(t);
    if hi.None? then Bad
    else if hi.value <= 0xFFFF && Scalar(hi.value) then Got(Encode(hi.value), t[4..])
    else if 0xD800 <= hi.value <= 0xDBFF && |t| >= 6 && t[4] == BACKSLASH && t[5] == 0x75 then
      var lo := Hex4(t[6..]);
      if lo.Some? && 0xDC00 <= lo.value <= 0xDFFF then
        var cp := 0x1_0000 + ((hi.value & 0x3FF) << 10) + (lo.value & 0x3FF);
        if Scalar(cp) then Got(Encode(cp), t[10..]) else Bad
      else Bad
    else Bad
  }

  /** The byte a short escape stands for. */
  function ShortEscape(c: byte): Option<byte> {
    if c == QUOTE || c == BACKSLASH || c == SLASH then Some(c)
    else if c == 0x62 then Some(0x08)
    else if c == 0x66 then Some(0x0C)
    else if c == 0x6E then Some(LF)
    else if c == 0x72 then Some(CR)
    else if c == 0x74 then Some(TAB)
    else None
  }

  /** One character of a string literal: an escape, or well-formed UTF-8 that needs none. */
  function ParseChar(t: bytes): (r: Parsed<bytes>)
    ensures r.Got? ==> |r.rest| < |t|
  {
    if t == [] then Bad
    else if t[0] == BACKSLASH then
      if |t| < 2 then Bad
      else if t[1] == 0x75 then ParseUnicode(t[2..])
      else if ShortEscape(t[1]).Some? then Got([ShortEscape(t[1]).value], t[2..])
      else Bad
    else if t[0] < 0x20 || t[0] == QUOTE || RfcLen(t) == 0 then Bad
    else Got(t[..RfcLen(t)], t[RfcLen(t)..])
  }

  /** The rest of a string literal, from after its opening quote to past its closing one. */
  function ParseChars(t: bytes): (r: Parsed<bytes>)
    ensures r.Got? ==> |r.rest| < |t|
    decreases |t|
  {
    if t != [] && t[0] == QUOTE then Got([], t[1..])
    else
      var one := ParseChar(t);
      if one.Bad? then Bad
      else
        var more := ParseChars(one.rest);
        if more.Bad? then Bad else Got(one.value + more.value, more.rest)
  }

  // Numbers: the longest run of number characters has to fit the grammar.

  predicate IsNumChar(c: byte) {
    IsDigit(c) || c == MINUS || c == PLUS || c == DOT || c == 0x65 || c == 0x45
  }

  function NumRun(t: bytes): (n: nat)
    ensures n <= |t|
  {
    if t != [] && IsNumChar(t[0]) then 1 + NumRun(t[1..]) else 0
  }

  function DigitRun(t: bytes): (n: nat)
    ensures n <= |t|
  {
    if t != [] && IsDigit(t[0]) then 1 + DigitRun(t[1..]) else 0
  }

  predicate IsExponent(t: bytes) {
    t == [] ||
    ((t[0] == 0x65 || t[0] == 0x45) &&
     var d := if |t| > 1 && (t[1] == PLUS || t[1] == MINUS) then t[2..] else t[1..];
     DigitRun(d) > 0 && DigitRun(d) == |d|)
  }

  predicate IsFraction(t: bytes) {
    if t != [] && t[0] == DOT then DigitRun(t[1..]) > 0 && IsExponent(t[1..][DigitRun(t[1..])..])
    else IsExponent(t)
  }

  predicate IsNumber(t: bytes) {
    var u := if t != [] && t[0] == MINUS then t[1..] else t;
    var n := DigitRun(u);
    n > 0 && (u[0] == 0x30 ==> n == 1) && IsFraction(u[n..])
  }

  function ParseWord(t: bytes, word: bytes, value: Json): Parsed<Json> {
    if word <= t then Got(value, t[|word|..]) else Bad
  }

  function ParseValue(t: bytes): (r: Parsed<Json>)
    ensures r.Got? ==> |r.rest| < |t|
    decreases |t|, 1
  {
    var u := SkipBlanks(t);
    if u == [] then Bad
    else if u[0] == QUOTE then
      var s := ParseChars(u[1..]);
      if s.Bad? then Bad else Got(JStr(s.value), s.rest)
    else if u[0] == LBRACKET then
      var w := SkipBlanks(u[1..]);
      if w != [] && w[0] == RBRACKET then Got(JArr([]), w[1..])
      else
        var items := ParseItems(w);
        if items.Bad? then Bad else Got(JArr(items.value), items.rest)
    else if u[0] == LBRACE then
      var w := SkipBlanks(u[1..]);
      if w != [] && w[0] == RBRACE then Got(JObj([]), w[1..])
      else
        var members := ParseMembers(w);
        if members.Bad? then Bad else Got(JObj(members.value), members.rest)
    else if u[0] == 0x6E then ParseWord(u, NULLWORD, JNull)
    else if u[0] == 0x74 then ParseWord(u, TRUEWORD, JBool(true))
    else if u[0] == 0x66 then ParseWord(u, FALSEWORD, JBool(false))
    else if IsNumber(u[..NumRun(u)]) then Got(JNum(u[..NumRun(u)]), u[NumRun(u)..])
    else Bad
  }

  /** One or more values, separated by commas and ended by a bracket. */
  function ParseItems(t: bytes): (r: Parsed<seq<Json>>)
    ensures r.Got? ==> |r.rest| < |t|
    decreases |t|, 2
  {
    var v := ParseValue(t);
    if v.Bad? then Bad
    else
      var u := SkipBlanks(v.rest);
      if u == [] then Bad
      else if u[0] == RBRACKET then Got([v.value], u[1..])
      else if u[0] == COMMA then
        var more := ParseItems(u[1..]);
        if more.Bad? then Bad else Got([v.value] + more.value, more.rest)
      else Bad
  }

  function ParseMember(t: bytes): (r: Parsed<(bytes, Json)>)
    ensures r.Got? ==> |r.rest| < |t|
    decreases |t|, 2
  {
    var u := SkipBlanks(t);
    if u == [] || u[0] != QUOTE then Bad
    else
      var key := ParseChars(u[1..]);
      if key.Bad? then Bad
      else
        var w := SkipBlanks(key.rest);
        if w == [] || w[0] != COLON then Bad
        else
          var v := ParseValue(w[1..]);
          if v.Bad? then Bad else Got((key.value, v.value), v.rest)
  }

  function ParseMembers(t: bytes): (r: Parsed<seq<(bytes, Json)>>)
    ensures r.Got? ==> |r.rest| < |t|
    decreases |t|, 3
  {
    var m := ParseMember(t);
    if m.Bad? then Bad
    else
      var u := SkipBlanks(m.rest);
      if u == [] then Bad
      else if u[0] == RBRACE then Got([m.value], u[1..])
      else if u[0] == COMMA then
        var more := ParseMembers(u[1..]);
        if more.Bad? then Bad else Got([m.value] + more.value, more.rest)
      else Bad
  }

  /** A whole document. */
  function Parse(t: bytes): Option<Json> {
    var r := ParseValue(t);
    if r.Got? && SkipBlanks(r.rest) == [] then Some(r.value) else None
  }
}
