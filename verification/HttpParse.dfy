/**
 Splitting a request head into request line and headers (http_read_request, second half,
 parse_request_line, parse_header_line, http_header_get in src/core/http.c).
 */
module HttpParse {
  import opened Bytes
  import opened Decimal
  import opened Strtoll

  const MAXHEADERS: nat := 48
  const MAXNAME: nat := 64
  const MAXVALUE: nat := 2048
  const MAXTARGET: nat := 4096
  const MAXVERB: nat := 16

  datatype Header = Header(name: bytes, value: bytes)

  /** A parsed head; `length` is -1 until a readable Content-Length has been stored. */
  datatype Request = Request(verb: bytes, target: bytes, path: bytes, headers: seq<Header>, length: int)

  datatype Parsed = Ok(request: Request) | MalformedLine | DuplicateLength | MalformedLength

  const BLANK: Request := Request([], [], [], [], -1)

  // --- Small pieces -----------------------------------------------------------------------------

  /** copy_bounded: what fits a buffer of `size` beside its NUL. */
  function Bounded(s: bytes, size: nat): (r: bytes)
    requires size > 0
    ensures r <= s && |r| == Min(|s|, size - 1)
  {
    if |s| >= size then s[..size - 1] else s
  }

  /** Bytes before the first `c`. */
  function Before(s: bytes, c: byte): (r: bytes)
    ensures r <= s && c !in r && (r == s || s[|r|] == c)
  {
    if s == [] || s[0] == c then [] else [s[0]] + Before(s[1..], c)
  }

  function SkipSpaces(s: bytes): (r: bytes)
    ensures |r| <= |s| && s[|s| - |r|..] == r && (r != [] ==> r[0] != SPACE)
  {
    if s != [] && s[0] == SPACE then SkipSpaces(s[1..]) else s
  }

  predicate IsPad(c: byte) {
    c == SPACE || c == TAB
  }

  function TrimLeft(s: bytes): (r: bytes)
    ensures |r| <= |s|
  {
    if s != [] && IsPad(s[0]) then TrimLeft(s[1..]) else s
  }

  function TrimRight(s: bytes): (r: bytes)
    ensures r <= s
  {
    if s != [] && IsPad(s[|s| - 1]) then TrimRight(s[..|s| - 1]) else s
  }

  /** ASCII lower case, byte by byte, as strcasecmp compares. */
  function Lower(c: byte): byte {
    if 0x41 <= c <= 0x5A then c + 0x20 else c
  }

  function Fold(s: bytes): (r: bytes)
    ensures |r| == |s|
  {
    if s == [] then [] else [Lower(s[0])] + Fold(s[1..])
  }

  /** strcasecmp(a, b) == 0 on two buffers that hold C strings. */
  predicate SameName(a: bytes, b: bytes) {
    Fold(CStr(a)) == Fold(CStr(b))
  }

  /** The same byte, or the same ASCII letter in its two cases. */
  predicate SameLetter(x: byte, y: byte) {
    || x == y
    || (0x41 <= x <= 0x5A && y == x + 0x20)
    || (0x41 <= y <= 0x5A && x == y + 0x20)
  }

  lemma LowerIsSameLetter(x: byte, y: byte)
    ensures Lower(x) == Lower(y) <==> SameLetter(x, y)
  {}

  lemma {:induction false} FoldAt(s: bytes, i: nat)
    requires i < |s|
    ensures Fold(s)[i] == Lower(s[i])
    decreases s
  {
    if i > 0 {
      FoldAt(s[1..], i - 1);
    }
  }

  /** Spelt alike but for the case of letters. */
  predicate SpeltAlike(a: bytes, b: bytes) {
    |a| == |b| && forall i :: 0 <= i < |a| ==> SameLetter(a[i], b[i])
  }

  /** strcasecmp finds two names equal if and only if they differ in the case of letters only. */
  lemma SameNameExactly(a: bytes, b: bytes)
    ensures SameName(a, b) <==> SpeltAlike(CStr(a), CStr(b))
  {
    FoldExactly(CStr(a), CStr(b));
  }

  lemma FoldExactly(a: bytes, b: bytes)
    ensures Fold(a) == Fold(b) <==> SpeltAlike(a, b)
  {
    if |a| == |b| {
      forall i | 0 <= i < |a|
        ensures Fold(a)[i] == Fold(b)[i] <==> SameLetter(a[i], b[i])
      {
        FoldAt(a, i);
        FoldAt(b, i);
        LowerIsSameLetter(a[i], b[i]);
      }
      assert Fold(a) == Fold(b) <==> forall i :: 0 <= i < |a| ==> Fold(a)[i] == Fold(b)[i];
    }
  }

  /** "Content-Length" */
  const CONTENTLENGTH: bytes :=
    [0x43, 0x6F, 0x6E, 0x74, 0x65, 0x6E, 0x74, 0x2D, 0x4C, 0x65, 0x6E, 0x67, 0x74, 0x68]

  // --- Lines --------------------------------------------------------------------------------------

  /** find_crlf: where the next line break is, or the end. */
  function LineEnd(s: bytes): (i: nat)
    ensures i <= |s|
    ensures i < |s| ==> i + 1 < |s| && s[i] == CR && s[i + 1] == LF
  {
    if |s| < 2 then |s|
    else if s[0] == CR && s[1] == LF then 0
    else 1 + LineEnd(s[1..])
  }

  /** The second word of a line. */
  function SecondWord(line: bytes): bytes {
    Before(SkipSpaces(line[|Before(line, SPACE)|..]), SPACE)
  }

  /** The target up to its query. */
  function PathIn(target: bytes): bytes {
    Bounded(Before(CStr(target), 0x3F), MAXTARGET)
  }

  function Addressed(r: Request, verb: bytes, target: bytes): Request {
    r.(verb := Bounded(verb, MAXVERB), target := Bounded(target, MAXTARGET), path := PathIn(Bounded(target, MAXTARGET)))
  }

  function WithRequestLine(r: Request, line: bytes): Request {
    Addressed(r, Before(line, SPACE), SecondWord(line))
  }

  /** The header on a line, if there is a colon. */
  function HeaderOf(line: bytes): Option<Header> {
    var name := Before(line, COLON);
    if name == line then None
    else Some(Header(Bounded(name, MAXNAME), Bounded(TrimRight(TrimLeft(line[|name| + 1..])), MAXVALUE)))
  }

  /** A Content-Length value strtoll reads to its end as a number that is not negative. */
  function LengthOf(value: bytes): Option<nat> {
    var v := CStr(value);
    if NumeralEnd(v) != 0 && NumeralEnd(v) == |v| && Value64(v) >= 0 then Some(Value64(v)) else None
  }

  function WithHeaderLine(r: Request, line: bytes): Request {
    if |r.headers| >= MAXHEADERS || HeaderOf(line).None? then r
    else Stored(r, HeaderOf(line).value, CONTENTLENGTH)
  }

  /** The request with one more header; one called `name` sets the length if it can be read. */
  function Stored(r: Request, h: Header, name: bytes): Request {
    r.(headers := r.headers + [h],
       length := if SameName(h.name, name) then LengthOr(LengthOf(h.value), r.length) else r.length)
  }

  function LengthOr(v: Option<nat>, otherwise: int): int {
    if v.Some? then v.value else otherwise
  }

  function WithLine(r: Request, line: bytes, first: bool): Request {
    if first then WithRequestLine(r, line) else WithHeaderLine(r, line)
  }

  /** The lines of `head` one after another; `first` says whether the request line is still due. */
  function WithLines(r: Request, head: bytes, first: bool): Request
    decreases |head|
  {
    if head == [] then r
    else
      var i := LineEnd(head);
      var r' := WithLine(r, head[..i], first);
      if i == |head| then r' else WithLines(r', head[i + 2..], false)
  }

  /** How many stored headers have a name. */
  function Count(headers: seq<Header>, name: bytes): nat {
    if headers == [] then 0
    else (if SameName(headers[0].name, name) then 1 else 0) + Count(headers[1..], name)
  }

  /** http_header_get */
  function Get(headers: seq<Header>, name: bytes): Option<bytes> {
    if headers == [] then None
    else if SameName(headers[0].name, name) then Some(CStr(headers[0].value))
    else Get(headers[1..], name)
  }

  function Parse(head: bytes): Parsed {
    var r := WithLines(BLANK, head, true);
    if CStr(r.verb) == [] || CStr(r.path) == [] then MalformedLine
    else if Count(r.headers, CONTENTLENGTH) > 1 then DuplicateLength
    else if Get(r.headers, CONTENTLENGTH).Some? && r.length < 0 then MalformedLength
    else Ok(r)
  }

  // --- Content-Length -----------------------------------------------------------------------------

  lemma {:induction false} CountSnoc(headers: seq<Header>, h: Header, name: bytes)
    ensures Count(headers + [h], name) == Count(headers, name) + (if SameName(h.name, name) then 1 else 0)
    ensures Get(headers + [h], name) ==
            if Get(headers, name).Some? then Get(headers, name)
            else if SameName(h.name, name) then Some(CStr(h.value)) else None
    ensures Get(headers, name).Some? <==> Count(headers, name) > 0
    decreases |headers|
  {
    if headers == [] {
      assert headers + [h] == [h];
      assert [h][1..] == [];
    } else {
      assert (headers + [h])[1..] == headers[1..] + [h];
      CountSnoc(headers[1..], h, name);
    }
  }

  /** While at most one stored header has the name, `length` is that header's, or -1. */
  predicate LengthKnown(headers: seq<Header>, name: bytes, length: int) {
    && (Count(headers, name) == 0 ==> length == -1)
    && (Count(headers, name) == 1 ==>
          Get(headers, name).Some? && length == LengthOr(LengthOf(Get(headers, name).value), -1))
  }

  lemma {:induction false} CStrTwice(s: bytes)
    ensures CStr(CStr(s)) == CStr(s)
  {
    CStrOfClean(CStr(s));
  }

  lemma LengthStored(r: Request, h: Header, name: bytes)
    requires LengthKnown(r.headers, name, r.length)
    ensures LengthKnown(Stored(r, h, name).headers, name, Stored(r, h, name).length)
  {
    CountSnoc(r.headers, h, name);
    CStrTwice(h.value);
  }

  lemma HeaderKeepsLength(r: Request, line: bytes)
    requires LengthKnown(r.headers, CONTENTLENGTH, r.length)
    ensures var r' := WithHeaderLine(r, line); LengthKnown(r'.headers, CONTENTLENGTH, r'.length)
  {
    if HeaderOf(line).Some? {
      LengthStored(r, HeaderOf(line).value, CONTENTLENGTH);
    }
  }

  lemma {:induction false} LinesKeepLength(r: Request, head: bytes, first: bool)
    requires LengthKnown(r.headers, CONTENTLENGTH, r.length)
    ensures var r' := WithLines(r, head, first); LengthKnown(r'.headers, CONTENTLENGTH, r'.length)
    decreases |head|
  {
    if head != [] {
      var i := LineEnd(head);
      var next := WithLine(r, head[..i], first);
      LineKeepsLength(r, head[..i], first);
      FirstLine(r, head, first, i, next);
      if i != |head| {
        LinesKeepLength(next, head[i + 2..], false);
      }
    }
  }

  lemma FirstLine(r: Request, head: bytes, first: bool, i: nat, next: Request)
    requires head != [] && i == LineEnd(head) && next == WithLine(r, head[..i], first)
    ensures WithLines(r, head, first) == if i == |head| then next else WithLines(next, head[i + 2..], false)
  {}

  lemma LineKeepsLength(r: Request, line: bytes, first: bool)
    requires LengthKnown(r.headers, CONTENTLENGTH, r.length)
    ensures var r' := WithLine(r, line, first); LengthKnown(r'.headers, CONTENTLENGTH, r'.length)
  {
    if !first {
      HeaderKeepsLength(r, line);
    }
  }

  /** `length` is -1 without a header of that name, and else the value of the only one, capped. */
  predicate LengthFits(headers: seq<Header>, name: bytes, length: int) {
    match Get(headers, name)
    case None => length == -1 && Count(headers, name) == 0
    case Some(v) =>
      && Count(headers, name) == 1
      && NumeralEnd(v) == |v| > 0 && Unbounded(v) >= 0 && length == Min(Unbounded(v), LLMAX)
  }

  lemma AcceptedLengthFits(headers: seq<Header>, name: bytes, length: int)
    requires LengthKnown(headers, name, length)
    requires Count(headers, name) <= 1 && (Get(headers, name).Some? ==> length >= 0)
    ensures LengthFits(headers, name, length)
  {
    CountSnoc(headers, Header([], []), name);
    GetIsCStr(headers, name);
    if Get(headers, name).Some? {
      CStrOfClean(Get(headers, name).value);
    }
  }

  /** On success either no stored header is Content-Length and `length` is -1, or exactly one is
      and `length` is its value, capped at 2^63-1. */
  lemma LengthIsThatOfTheHeader(head: bytes)
    requires Parse(head).Ok?
    ensures var r := Parse(head).request; LengthFits(r.headers, CONTENTLENGTH, r.length)
  {
    var r := WithLines(BLANK, head, true);
    LinesKeepLength(BLANK, head, true);
    AcceptedLengthFits(r.headers, CONTENTLENGTH, r.length);
  }

  lemma {:induction false} GetIsCStr(headers: seq<Header>, name: bytes)
    ensures Get(headers, name).Some? ==> NUL !in Get(headers, name).value
  {
    if headers != [] {
      GetIsCStr(headers[1..], name);
    }
  }

  /** A length as section 3.3.2 of RFC 7230 has it: one digit or more. */
  predicate StandardLength(v: bytes) {
    v != [] && AllDigits(v)
  }

  /** Every such length is taken, up to what 64 bits can hold. */
  lemma StandardIsTaken(v: bytes)
    requires StandardLength(v)
    ensures NUL !in v && LengthOf(v) == Some(Min(Decimal.Value(v), LLMAX))
  {
    DigitsAreClean(v);
    WholeNumeral(v);
    TakenAs(v, Decimal.Value(v));
  }

  lemma TakenAs(v: bytes, n: nat)
    requires CStr(v) == v && NumeralEnd(v) == |v| > 0 && Unbounded(v) == n
    ensures LengthOf(v) == Some(Min(n, LLMAX))
  {}

  lemma DigitsAreClean(v: bytes)
    requires AllDigits(v)
    ensures CStr(v) == v && NUL !in v
  {
    CStrOfClean(v);
  }

  lemma WholeNumeral(v: bytes)
    requires StandardLength(v)
    ensures NumeralEnd(v) == |v| && Unbounded(v) == Decimal.Value(v)
  {
    PlainNumeral(v, []);
    assert v + [] == v;
  }

  /** strtoll takes more: exactly when the length of an accepted request is one of the standard's. */
  lemma LengthIsStandardExactly(head: bytes, v: bytes)
    requires Parse(head).Ok? && Get(Parse(head).request.headers, CONTENTLENGTH) == Some(v)
    ensures StandardLength(v) <==> Unmarked(v)
  {
    LengthIsThatOfTheHeader(head);
    TakenIsStandardExactly(v);
  }

  lemma TakenIsStandardExactly(v: bytes)
    requires NumeralEnd(v) == |v| > 0
    ensures StandardLength(v) <==> Unmarked(v)
  {
    if Unmarked(v) {
      UnmarkedNumeral(v);
      assert v[..|v|] == v;
    }
    if AllDigits(v) {
      DigitsAreUnmarked(v);
    }
  }

  /** "+5" is no length of the standard's, and taken for 5. */
  lemma NotStandardButTaken(v: bytes)
    requires v == [PLUS, 0x35]
    ensures !StandardLength(v) && LengthOf(v) == Some(5)
  {
    CStrOfClean(v);
    SignedFive(v);
    assert !IsDigit(v[0]);
  }

  lemma SignedFive(v: bytes)
    requires v == [PLUS, 0x35]
    ensures NumeralEnd(v) == 2 && Unbounded(v) == 5
  {
    var ds: bytes := [0x35];
    assert Spaces(v) == 0 && Start(v) == 1 && !Negative(v);
    assert v[1..] == ds && ds + [] == ds && ds[..1] == ds;
    DigitsOf(ds, []);
    ValueSnoc([], 0x35);
    assert [] + ds == ds;
  }
}
