/** The reader inverts the printer on every value, up to the bytes that were not UTF-8. */
module JsonInverse {
  import opened Bytes
  import opened Decimal
  import opened Utf8
  import opened Json

  const FFFD: bytes := [0xEF, 0xBF, 0xBD]

  /** Well-formed UTF-8 as it is, and U+FFFD for every byte that belongs to none. */
  function Sanitize(s: bytes): bytes {
    if s == [] then []
    else if RfcLen(s) == 0 then FFFD + Sanitize(s[1..])
    else s[..RfcLen(s)] + Sanitize(s[RfcLen(s)..])
  }

  /** The value a reader sees: what was emitted, with its strings made UTF-8. */
  function Norm(v: Value): Json
    decreases v
  {
    match v
    case Null => JNull
    case Bool(b) => JBool(b)
    case Int(n) => JNum(OfInt(n))
    case Str(s) => JStr(Sanitize(s))
    case Arr(items) => JArr(NormItems(items))
    case Obj(members) => JObj(NormMembers(members))
  }

  function NormItems(items: seq<Value>): (r: seq<Json>)
    ensures |r| == |items|
    decreases items
  {
    if items == [] then [] else [Norm(items[0])] + NormItems(items[1..])
  }

  function NormMember(m: Member): (bytes, Json)
    decreases m
  {
    (Sanitize(m.key), Norm(m.value))
  }

  function NormMembers(members: seq<Member>): (r: seq<(bytes, Json)>)
    ensures |r| == |members|
    decreases members
  {
    if members == [] then [] else [NormMember(members[0])] + NormMembers(members[1..])
  }

  // --- Regrouping concatenations ---------------------------------------------------------------

  lemma Assoc(a: bytes, b: bytes, c: bytes)
    ensures a + b + c == a + (b + c)
  {}

  lemma Unwrap(a: bytes, b: bytes, c: bytes, d: bytes)
    ensures (a + b + c) + d == a + (b + c + d)
    ensures (a + b) + c + d == a + (b + c + d)
  {}

  lemma Regroup(a: bytes, b: bytes, c: bytes, d: bytes, e: bytes)
    ensures (a + b + c) + d + e == a + (b + (c + d + e))
  {}

  // --- Strings ------------------------------------------------------------------------------

  lemma HexDigits(c: byte)
    requires c < 0x20
    ensures IsHex(Hex(c >> 4)) && IsHex(Hex(c & 0x0F))
    ensures (HexValue(Hex(c >> 4)) << 4) | HexValue(Hex(c & 0x0F)) == c as bv32
    ensures c as bv32 < 0x80 && (c as bv32) as bv8 == c
  {}

  lemma ControlReadsBack(c: byte, rest: bytes)
    requires c < 0x20
    ensures ParseUnicode([0x30, 0x30, Hex(c >> 4), Hex(c & 0x0F)] + rest) == Got([c], rest)
  {
    HexDigits(c);
    var t := [0x30, 0x30, Hex(c >> 4), Hex(c & 0x0F)] + rest;
    assert HexValue(0x30) == 0;
    assert Hex4(t) == Some(c as bv32);
    assert Encode(c as bv32) == [c];
    assert t[4..] == rest;
  }

  lemma ShortReadsBack(c: byte, d: byte, rest: bytes)
    requires d != 0x75 && ShortEscape(d) == Some(c)
    ensures ParseChar([BACKSLASH, d] + rest) == Got([c], rest)
  {
    assert ([BACKSLASH, d] + rest)[2..] == rest;
  }

  lemma PlainReadsBack(c: byte, rest: bytes)
    requires 0x20 <= c < 0x80 && c != QUOTE && c != BACKSLASH
    ensures ParseChar([c] + rest) == Got([c], rest)
  {
    var t := [c] + rest;
    assert t[..1] == [c] && t[1..] == rest;
  }

  lemma AsciiReadsBack(c: byte, rest: bytes)
    requires c < 0x80
    ensures EscapeAscii(c) != [] && EscapeAscii(c)[0] != QUOTE
    ensures ParseChar(EscapeAscii(c) + rest) == Got([c], rest)
  {
    var e := EscapeAscii(c);
    if |e| == 1 {
      PlainReadsBack(c, rest);
    } else if |e| == 2 {
      ShortReadsBack(c, e[1], rest);
    } else {
      assert (e + rest)[2..] == [0x30, 0x30, Hex(c >> 4), Hex(c & 0x0F)] + rest;
      ControlReadsBack(c, rest);
    }
  }

  lemma ReplacementReadsBack(rest: bytes)
    ensures ParseChar(REPLACEMENT + rest) == Got(FFFD, rest)
  {
    var t := REPLACEMENT + rest;
    assert t[2..] == [0x66, 0x66, 0x66, 0x64] + rest;
    assert Hex4(t[2..]) == Some(0xFFFD) by {
      assert HexValue(0x66) == 0xF && HexValue(0x64) == 0xD;
    }
    assert Encode(0xFFFD) == FFFD;
    assert t[2..][4..] == rest;
  }

  lemma Utf8ReadsBack(s: bytes, rest: bytes)
    requires s != [] && s[0] >= 0x80 && RfcLen(s) > 0
    ensures ParseChar(s[..RfcLen(s)] + rest) == Got(s[..RfcLen(s)], rest)
  {
    var n := RfcLen(s);
    RfcLenLocal(s, rest);
    var t := s[..n] + rest;
    assert t[..n] == s[..n] && t[n..] == rest;
  }

  /** Reading one character and then the rest of the literal. */
  lemma CharThenChars(chunk: bytes, more: bytes, one: bytes)
    requires chunk != [] && chunk[0] != QUOTE && ParseChar(chunk + more) == Got(one, more)
    ensures ParseChars(chunk + more) ==
            if ParseChars(more).Bad? then Bad else Got(one + ParseChars(more).value, ParseChars(more).rest)
  {
    assert (chunk + more)[0] == chunk[0];
  }

  /** What the printer and the reader do with the first character. */
  lemma EscapeFirst(s: bytes) returns (chunk: bytes, one: bytes, tail: bytes)
    requires s != []
    ensures Escape(s) == chunk + Escape(tail) && Sanitize(s) == one + Sanitize(tail) && |tail| < |s|
    ensures chunk != [] && chunk[0] != QUOTE
    ensures forall more :: ParseChar(chunk + more) == Got(one, more)
  {
    MasksAreTheGrammar(s);
    var n := RfcLen(s);
    if s[0] < 0x80 {
      chunk, one, tail := EscapeAscii(s[0]), [s[0]], s[1..];
      assert s[..1] == [s[0]];
      AsciiReadsBack(s[0], []);
      forall more ensures ParseChar(chunk + more) == Got(one, more) { AsciiReadsBack(s[0], more); }
    } else if n == 0 {
      chunk, one, tail := REPLACEMENT, FFFD, s[1..];
      forall more ensures ParseChar(chunk + more) == Got(one, more) { ReplacementReadsBack(more); }
    } else {
      chunk, one, tail := s[..n], s[..n], s[n..];
      forall more ensures ParseChar(chunk + more) == Got(one, more) { Utf8ReadsBack(s, more); }
    }
  }

  /** Every string literal printed is one the reader accepts, whatever the bytes were. */
  lemma {:induction false} StringReadsBack(s: bytes, rest: bytes)
    ensures ParseChars(Escape(s) + [QUOTE] + rest) == Got(Sanitize(s), rest)
    decreases |s|
  {
    if s == [] {
      assert (Escape(s) + [QUOTE] + rest)[1..] == rest;
    } else {
      var chunk, one, tail := EscapeFirst(s);
      StringReadsBack(tail, rest);
      CharThenChars(chunk, Escape(tail) + [QUOTE] + rest, one);
      Unwrap(chunk, Escape(tail), [QUOTE], rest);
    }
  }

  // --- Sanitizing ----------------------------------------------------------------------------

  /** Well-formed UTF-8 from one end to the other. */
  predicate IsUtf8(s: bytes) {
    s == [] || (RfcLen(s) > 0 && IsUtf8(s[RfcLen(s)..]))
  }

  lemma SanitizeChunk(chunk: bytes, more: bytes)
    requires chunk != [] && RfcLen(chunk) == |chunk|
    ensures RfcLen(chunk + more) == |chunk|
    ensures Sanitize(chunk + more) == chunk + Sanitize(more)
    ensures IsUtf8(chunk + more) == IsUtf8(more)
  {
    RfcLenLocal(chunk, more);
    var t := chunk + more;
    assert t[..|chunk|] == chunk && t[|chunk|..] == more;
  }

  lemma {:induction false} SanitizeIsUtf8(s: bytes)
    ensures IsUtf8(Sanitize(s))
    decreases |s|
  {
    if s != [] {
      var n := RfcLen(s);
      if n == 0 {
        SanitizeIsUtf8(s[1..]);
        assert RfcLen(FFFD) == 3;
        SanitizeChunk(FFFD, Sanitize(s[1..]));
      } else {
        SanitizeIsUtf8(s[n..]);
        RfcLenLocal(s, []);
        assert s[..n] + [] == s[..n];
        SanitizeChunk(s[..n], Sanitize(s[n..]));
      }
    }
  }

  /** Nothing that is UTF-8 already is touched. */
  lemma {:induction false} SanitizeKeeps(s: bytes)
    requires IsUtf8(s)
    ensures Sanitize(s) == s
    decreases |s|
  {
    if s != [] {
      SanitizeKeeps(s[RfcLen(s)..]);
      assert s == s[..RfcLen(s)] + s[RfcLen(s)..];
    }
  }

  /** Replacing invalid bytes gives UTF-8, changes exactly what was not, and doing it twice is
      doing it once. */
  lemma SanitizeIsIdempotent(s: bytes)
    ensures IsUtf8(Sanitize(s)) && Sanitize(Sanitize(s)) == Sanitize(s)
    ensures Sanitize(s) == s <==> IsUtf8(s)
  {
    SanitizeIsUtf8(s);
    SanitizeKeeps(Sanitize(s));
    if IsUtf8(s) {
      SanitizeKeeps(s);
    }
  }

  /** What becomes of a string, in terms of characters: the encoding of a scalar value stays, and
      a byte that begins none becomes the encoding of U+FFFD. */
  lemma SanitizeByScalars(s: bytes, cp: bv32)
    ensures Scalar(cp) ==> Sanitize(Encode(cp) + s) == Encode(cp) + Sanitize(s)
    ensures s != [] && (forall x :: Scalar(x) ==> !(Encode(x) <= s)) ==>
              Sanitize(s) == Encode(0xFFFD) + Sanitize(s[1..])
  {
    if Scalar(cp) {
      EncodeIsWellFormed(cp);
      SanitizeChunk(Encode(cp), s);
    }
    if s != [] && RfcLen(s) > 0 {
      var x := WellFormedIsScalar(s);
      assert Scalar(x) && Encode(x) <= s;
    }
    assert Encode(0xFFFD) == FFFD;
  }

  lemma {:induction false} Utf8Append(a: bytes, b: bytes)
    requires IsUtf8(a) && IsUtf8(b)
    ensures IsUtf8(a + b)
    decreases |a|
  {
    if a == [] {
      assert a + b == b;
    } else {
      var n := RfcLen(a);
      Utf8Append(a[n..], b);
      RfcLenLocal(a, b);
      assert (a + b)[n..] == a[n..] + b;
      assert RfcLen(a + b) == n && IsUtf8((a + b)[n..]);
    }
  }

  lemma {:induction false} AsciiIsUtf8(s: bytes)
    requires forall c <- s :: c < 0x80
    ensures IsUtf8(s)
    decreases s
  {
    if s != [] {
      assert s[0] in s && s[0] <= 0x7F;
      assert forall c <- s[1..] :: c in s;
      AsciiIsUtf8(s[1..]);
    }
  }

  lemma {:induction false} EscapeIsUtf8(s: bytes)
    ensures IsUtf8(Escape(s))
    decreases |s|
  {
    if s != [] {
      MasksAreTheGrammar(s);
      var n := RfcLen(s);
      if s[0] < 0x80 {
        EscapeIsUtf8(s[1..]);
        AsciiIsUtf8(EscapeAscii(s[0]));
        Utf8Append(EscapeAscii(s[0]), Escape(s[1..]));
      } else if n == 0 {
        EscapeIsUtf8(s[1..]);
        AsciiIsUtf8(REPLACEMENT);
        Utf8Append(REPLACEMENT, Escape(s[1..]));
      } else {
        EscapeIsUtf8(s[n..]);
        OneIsUtf8(s);
        Utf8Append(s[..n], Escape(s[n..]));
      }
    }
  }

  lemma OneIsUtf8(s: bytes)
    requires s != [] && RfcLen(s) > 0
    ensures IsUtf8(s[..RfcLen(s)])
  {
    RfcLenLocal(s, []);
    assert s[..RfcLen(s)] + [] == s[..RfcLen(s)];
    assert s[..RfcLen(s)][RfcLen(s)..] == [];
  }

  lemma StringIsUtf8(s: bytes)
    ensures IsUtf8(PrintStr(s))
  {
    EscapeIsUtf8(s);
    AsciiIsUtf8([QUOTE]);
    Utf8Append([QUOTE], Escape(s));
    Utf8Append([QUOTE] + Escape(s), [QUOTE]);
  }

  lemma Between(open: byte, s: bytes, close: byte)
    requires open < 0x80 && close < 0x80 && IsUtf8(s)
    ensures IsUtf8([open] + s + [close])
  {
    AsciiIsUtf8([open]);
    AsciiIsUtf8([close]);
    Utf8Append([open], s);
    Utf8Append([open] + s, [close]);
  }

  lemma Separated(a: bytes, mark: byte, b: bytes)
    requires IsUtf8(a) && mark < 0x80 && IsUtf8(b)
    ensures IsUtf8(a + [mark] + b)
  {
    AsciiIsUtf8([mark]);
    Utf8Append(a, [mark]);
    Utf8Append(a + [mark], b);
  }

  /** Whatever the strings hold, the text printed is UTF-8 from one end to the other. */
  lemma {:induction false} PrintIsUtf8(v: Value)
    ensures IsUtf8(Print(v))
    decreases v
  {
    match v
    case Str(s) => StringIsUtf8(s);
    case Int(n) => NumberIsUtf8(n);
    case Arr(items) =>
      ItemsAreUtf8(items);
      Between(LBRACKET, PrintItems(items), RBRACKET);
    case Obj(members) =>
      MembersAreUtf8(members);
      Between(LBRACE, PrintMembers(members), RBRACE);
    case _ => AsciiIsUtf8(Print(v));
  }

  lemma NumberIsUtf8(n: int)
    ensures IsUtf8(OfInt(n))
  {
    var m := if n < 0 then -n else n;
    assert forall c <- OfNat(m) :: IsDigit(c);
    AsciiIsUtf8(OfInt(n));
  }

  lemma {:induction false} ItemsAreUtf8(items: seq<Value>)
    ensures IsUtf8(PrintItems(items))
    decreases items
  {
    if items != [] {
      PrintIsUtf8(items[0]);
      ItemsAreUtf8(items[1..]);
      Separated(Print(items[0]), COMMA, PrintItems(items[1..]));
    }
  }

  lemma {:induction false} MembersAreUtf8(members: seq<Member>)
    ensures IsUtf8(PrintMembers(members))
    decreases members
  {
    if members != [] {
      MemberIsUtf8(members[0]);
      MembersAreUtf8(members[1..]);
      Separated(PrintMember(members[0]), COMMA, PrintMembers(members[1..]));
    }
  }

  lemma {:induction false} MemberIsUtf8(m: Member)
    ensures IsUtf8(PrintMember(m))
    decreases m
  {
    StringIsUtf8(m.key);
    PrintIsUtf8(m.value);
    Separated(PrintStr(m.key), COLON, Print(m.value));
  }

  // --- Numbers --------------------------------------------------------------------------------

  /** Nothing that could go on with a number. */
  predicate EndsNumber(rest: bytes) {
    rest == [] || !IsNumChar(rest[0])
  }

  lemma {:induction false} RunOfDigits(s: bytes, rest: bytes)
    requires AllDigits(s)
    ensures EndsNumber(rest) ==> NumRun(s + rest) == |s| && DigitRun(s + rest) == |s|
    ensures DigitRun(s) == |s|
  {
    if s == [] {
      assert s + rest == rest;
    } else {
      assert (s + rest)[1..] == s[1..] + rest;
      RunOfDigits(s[1..], rest);
    }
  }

  lemma IntIsNumber(n: int, rest: bytes)
    requires EndsNumber(rest)
    ensures NumRun(OfInt(n) + rest) == |OfInt(n)| && IsNumber(OfInt(n))
    ensures var c := OfInt(n)[0]; c == MINUS || IsDigit(c)
  {
    var digits := if n < 0 then OfNat(-n) else OfNat(n);
    RunOfDigits(digits, rest);
    assert IsDigit(digits[0]);
    if n < 0 {
      assert (OfInt(n) + rest)[1..] == digits + rest;
      assert OfInt(n)[1..] == digits;
    }
    assert digits[0] == 0x30 ==> digits == [0x30];
    assert digits[|digits|..] == [];
  }

  // --- Values ----------------------------------------------------------------------------------

  predicate StartsValue(t: bytes) {
    t != [] && !IsBlank(t[0]) && t[0] != RBRACKET && t[0] != RBRACE
  }

  lemma PrintStarts(v: Value)
    ensures StartsValue(Print(v))
  {
    if v.Int? {
      IntIsNumber(v.n, []);
    }
  }

  lemma PrintItemsStarts(items: seq<Value>)
    requires items != []
    ensures StartsValue(PrintItems(items))
  {
    PrintStarts(items[0]);
  }

  // The reader, one construct at a time.

  lemma NoBlanks(t: bytes)
    requires t != [] && !IsBlank(t[0])
    ensures SkipBlanks(t) == t
  {}

  lemma ReadWord(word: bytes, value: Json, rest: bytes)
    requires (word == NULLWORD && value == JNull) || (word == TRUEWORD && value == JBool(true))
             || (word == FALSEWORD && value == JBool(false))
    ensures ParseValue(word + rest) == Got(value, rest)
  {
    var t := word + rest;
    NoBlanks(t);
    assert t[|word|..] == rest;
  }

  lemma ReadNumber(lexeme: bytes, rest: bytes)
    requires lexeme != [] && (lexeme[0] == MINUS || IsDigit(lexeme[0]))
    requires IsNumber(lexeme) && NumRun(lexeme + rest) == |lexeme|
    ensures ParseValue(lexeme + rest) == Got(JNum(lexeme), rest)
  {
    var t := lexeme + rest;
    NoBlanks(t);
    assert t[..|lexeme|] == lexeme && t[|lexeme|..] == rest;
  }

  lemma ReadString(t: bytes, s: bytes, rest: bytes)
    requires ParseChars(t) == Got(s, rest)
    ensures ParseValue([QUOTE] + t) == Got(JStr(s), rest)
  {
    NoBlanks([QUOTE] + t);
    assert ([QUOTE] + t)[1..] == t;
  }

  lemma ReadArray(w: bytes, items: seq<Json>, rest: bytes)
    requires StartsValue(w) && ParseItems(w) == Got(items, rest)
    ensures ParseValue([LBRACKET] + w) == Got(JArr(items), rest)
  {
    NoBlanks([LBRACKET] + w);
    NoBlanks(w);
    assert ([LBRACKET] + w)[1..] == w;
  }

  lemma ReadObject(w: bytes, members: seq<(bytes, Json)>, rest: bytes)
    requires StartsValue(w) && ParseMembers(w) == Got(members, rest)
    ensures ParseValue([LBRACE] + w) == Got(JObj(members), rest)
  {
    NoBlanks([LBRACE] + w);
    NoBlanks(w);
    assert ([LBRACE] + w)[1..] == w;
  }

  lemma ReadEmpty(rest: bytes)
    ensures ParseValue([LBRACKET, RBRACKET] + rest) == Got(JArr([]), rest)
    ensures ParseValue([LBRACE, RBRACE] + rest) == Got(JObj([]), rest)
  {
    var a, o := [LBRACKET, RBRACKET] + rest, [LBRACE, RBRACE] + rest;
    NoBlanks(a);
    NoBlanks(o);
    NoBlanks(a[1..]);
    NoBlanks(o[1..]);
    assert a[1..][1..] == rest && o[1..][1..] == rest;
  }

  lemma ReadLastItem(t: bytes, v: Json, rest: bytes)
    requires ParseValue(t) == Got(v, [RBRACKET] + rest)
    ensures ParseItems(t) == Got([v], rest)
  {
    NoBlanks([RBRACKET] + rest);
    assert ([RBRACKET] + rest)[1..] == rest;
  }

  lemma ReadItem(t: bytes, v: Json, more: bytes, items: seq<Json>, rest: bytes)
    requires ParseValue(t) == Got(v, [COMMA] + more) && ParseItems(more) == Got(items, rest)
    ensures ParseItems(t) == Got([v] + items, rest)
  {
    NoBlanks([COMMA] + more);
    assert ([COMMA] + more)[1..] == more;
  }

  lemma ReadMember(t: bytes, key: bytes, w: bytes, v: Json, rest: bytes)
    requires ParseChars(t) == Got(key, [COLON] + w) && ParseValue(w) == Got(v, rest)
    ensures ParseMember([QUOTE] + t) == Got((key, v), rest)
  {
    NoBlanks([QUOTE] + t);
    NoBlanks([COLON] + w);
    assert ([QUOTE] + t)[1..] == t && ([COLON] + w)[1..] == w;
  }

  lemma ReadLastMember(t: bytes, m: (bytes, Json), rest: bytes)
    requires ParseMember(t) == Got(m, [RBRACE] + rest)
    ensures ParseMembers(t) == Got([m], rest)
  {
    NoBlanks([RBRACE] + rest);
    assert ([RBRACE] + rest)[1..] == rest;
  }

  lemma ReadMoreMembers(t: bytes, m: (bytes, Json), more: bytes, members: seq<(bytes, Json)>, rest: bytes)
    requires ParseMember(t) == Got(m, [COMMA] + more) && ParseMembers(more) == Got(members, rest)
    ensures ParseMembers(t) == Got([m] + members, rest)
  {
    NoBlanks([COMMA] + more);
    assert ([COMMA] + more)[1..] == more;
  }

  /** Whatever is emitted reads back as the same value, and the reader stops right after it. */
  lemma {:induction false} ValueReadsBack(v: Value, rest: bytes)
    requires EndsNumber(rest)
    ensures ParseValue(Print(v) + rest) == Got(Norm(v), rest)
    decreases v, 1
  {
    match v
    case Null => ReadWord(NULLWORD, JNull, rest);
    case Bool(b) => ReadWord(Print(v), JBool(b), rest);
    case Int(n) =>
      IntIsNumber(n, rest);
      ReadNumber(OfInt(n), rest);
    case Str(s) =>
      StringReadsBack(s, rest);
      ReadString(Escape(s) + [QUOTE] + rest, Sanitize(s), rest);
      Unwrap([QUOTE], Escape(s), [QUOTE], rest);
    case Arr(_) => ArrReadsBack(v, rest);
    case Obj(_) => ObjReadsBack(v, rest);
  }

  lemma {:induction false} ArrReadsBack(v: Value, rest: bytes)
    requires v.Arr?
    ensures ParseValue(Print(v) + rest) == Got(Norm(v), rest)
    decreases v, 0
  {
    if v.items == [] {
      ReadEmpty(rest);
      assert Print(v) == [LBRACKET, RBRACKET];
    } else {
      var w := PrintItems(v.items) + [RBRACKET] + rest;
      PrintItemsStarts(v.items);
      ItemsReadBack(v.items, rest);
      ReadArray(w, NormItems(v.items), rest);
      Unwrap([LBRACKET], PrintItems(v.items), [RBRACKET], rest);
    }
  }

  lemma ItemsLayout(items: seq<Value>, rest: bytes)
    requires items != []
    ensures PrintItems(items) + [RBRACKET] + rest ==
            Print(items[0]) + (if |items| == 1 then [RBRACKET] + rest
                               else [COMMA] + (PrintItems(items[1..]) + [RBRACKET] + rest))
    ensures NormItems(items) == [Norm(items[0])] + (if |items| == 1 then [] else NormItems(items[1..]))
  {
    if |items| == 1 {
      Assoc(Print(items[0]), [RBRACKET], rest);
    } else {
      Regroup(Print(items[0]), [COMMA], PrintItems(items[1..]), [RBRACKET], rest);
    }
  }

  lemma {:induction false} ItemsReadBack(items: seq<Value>, rest: bytes)
    requires items != []
    ensures ParseItems(PrintItems(items) + [RBRACKET] + rest) == Got(NormItems(items), rest)
    decreases items
  {
    var t := PrintItems(items) + [RBRACKET] + rest;
    ItemsLayout(items, rest);
    if |items| == 1 {
      ValueReadsBack(items[0], [RBRACKET] + rest);
      ReadLastItem(t, Norm(items[0]), rest);
      assert NormItems(items) == [Norm(items[0])];
    } else {
      var more := PrintItems(items[1..]) + [RBRACKET] + rest;
      ValueReadsBack(items[0], [COMMA] + more);
      ItemsReadBack(items[1..], rest);
      ReadItem(t, Norm(items[0]), more, NormItems(items[1..]), rest);
    }
  }

  lemma {:induction false} ObjReadsBack(v: Value, rest: bytes)
    requires v.Obj?
    ensures ParseValue(Print(v) + rest) == Got(Norm(v), rest)
    decreases v, 0
  {
    if v.members == [] {
      ReadEmpty(rest);
      assert Print(v) == [LBRACE, RBRACE];
    } else {
      var w := PrintMembers(v.members) + [RBRACE] + rest;
      MembersStart(v.members);
      MembersReadBack(v.members, rest);
      ReadObject(w, NormMembers(v.members), rest);
      Unwrap([LBRACE], PrintMembers(v.members), [RBRACE], rest);
    }
  }

  lemma MembersStart(members: seq<Member>)
    requires members != []
    ensures StartsValue(PrintMembers(members))
  {
    assert PrintStr(members[0].key)[0] == QUOTE;
    assert PrintMember(members[0])[0] == QUOTE;
  }

  lemma MemberLayout(m: Member, rest: bytes)
    ensures PrintMember(m) + rest == [QUOTE] + (Escape(m.key) + [QUOTE] + ([COLON] + (Print(m.value) + rest)))
  {
    assert PrintMember(m) == [QUOTE] + Escape(m.key) + [QUOTE] + [COLON] + Print(m.value);
  }

  lemma {:induction false} MemberReadsBack(m: Member, rest: bytes)
    requires EndsNumber(rest)
    ensures ParseMember(PrintMember(m) + rest) == Got(NormMember(m), rest)
    decreases m
  {
    var w := Print(m.value) + rest;
    MemberLayout(m, rest);
    StringReadsBack(m.key, [COLON] + w);
    ValueReadsBack(m.value, rest);
    ReadMember(Escape(m.key) + [QUOTE] + ([COLON] + w), Sanitize(m.key), w, Norm(m.value), rest);
  }

  lemma MembersLayout(members: seq<Member>, rest: bytes)
    requires members != []
    ensures PrintMembers(members) + [RBRACE] + rest ==
            PrintMember(members[0]) + (if |members| == 1 then [RBRACE] + rest
                                       else [COMMA] + (PrintMembers(members[1..]) + [RBRACE] + rest))
    ensures NormMembers(members) ==
            [NormMember(members[0])] + (if |members| == 1 then [] else NormMembers(members[1..]))
  {
    if |members| == 1 {
      Assoc(PrintMember(members[0]), [RBRACE], rest);
    } else {
      Regroup(PrintMember(members[0]), [COMMA], PrintMembers(members[1..]), [RBRACE], rest);
    }
  }

  lemma {:induction false} MembersReadBack(members: seq<Member>, rest: bytes)
    requires members != []
    ensures ParseMembers(PrintMembers(members) + [RBRACE] + rest) == Got(NormMembers(members), rest)
    decreases members
  {
    var t := PrintMembers(members) + [RBRACE] + rest;
    MembersLayout(members, rest);
    if |members| == 1 {
      MemberReadsBack(members[0], [RBRACE] + rest);
      ReadLastMember(t, NormMember(members[0]), rest);
      assert NormMembers(members) == [NormMember(members[0])];
    } else {
      var more := PrintMembers(members[1..]) + [RBRACE] + rest;
      MemberReadsBack(members[0], [COMMA] + more);
      MembersReadBack(members[1..], rest);
      ReadMoreMembers(t, NormMember(members[0]), more, NormMembers(members[1..]), rest);
    }
  }

  lemma DocumentReadsBack(v: Value)
    ensures Parse(Print(v)) == Some(Norm(v))
  {
    ValueReadsBack(v, []);
    assert Print(v) + [] == Print(v);
  }
}
