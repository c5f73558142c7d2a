/** A client's side of the request head, and the round trip through the daemon's parser. */
module HttpPrint {
  import opened Bytes
  import opened HttpHead
  import opened HttpParse
  import opened Strtoll
  import Decimal

  const CRLF: bytes := [CR, LF]

  /** A request line as a client writes it: any number of spaces between the words, and anything
      or nothing, as "HTTP/1.1", behind them. */
  datatype First = First(verb: bytes, gap: bytes, target: bytes, tail: bytes)

  function RequestLine(f: First): bytes {
    f.verb + (f.gap + (f.target + f.tail))
  }

  /** A header as a client writes it, with blanks before and after the value. */
  datatype Line = Line(h: Header, pre: bytes, post: bytes)

  function HeaderLine(l: Line): bytes {
    l.h.name + [COLON] + (l.pre + l.h.value + l.post)
  }

  /** The header lines, each preceded by the break that ends the line before it. */
  function HeaderLines(lines: seq<Line>): bytes {
    if lines == [] then [] else CRLF + HeaderLine(lines[0]) + HeaderLines(lines[1..])
  }

  function PrintHead(f: First, lines: seq<Line>): bytes {
    RequestLine(f) + HeaderLines(lines)
  }

  /** What the parser has room for: of each name and value so many bytes, and so many headers. */
  function Cut(h: Header): Header {
    Header(h.name[..Min(|h.name|, MAXNAME - 1)], h.value[..Min(|h.value|, MAXVALUE - 1)])
  }

  function Cuts(lines: seq<Line>): (headers: seq<Header>)
    ensures |headers| == |lines| && forall i :: 0 <= i < |lines| ==> headers[i] == Cut(lines[i].h)
  {
    if lines == [] then [] else [Cut(lines[0].h)] + Cuts(lines[1..])
  }

  function Room(lines: seq<Line>, taken: nat): (headers: seq<Header>)
    requires taken <= MAXHEADERS
    ensures headers <= Cuts(lines) && |headers| == Min(|lines|, MAXHEADERS - taken)
  {
    Cuts(lines)[..Min(|lines|, MAXHEADERS - taken)]
  }

  // --- What fits the parser's limits -----------------------------------------------------------

  predicate Token(s: bytes) {
    s != [] && CR !in s && NUL !in s && SPACE !in s
  }

  predicate AllSpaces(s: bytes) {
    forall c <- s :: c == SPACE
  }

  predicate FitsFirst(f: First) {
    && Token(f.verb) && |f.verb| < MAXVERB && FitsTarget(f.target) && f.gap != [] && AllSpaces(f.gap)
    && CR !in f.tail && (f.tail == [] || f.tail[0] == SPACE)
  }

  predicate FitsTarget(target: bytes) {
    Token(target) && |target| < MAXTARGET && target[0] != 0x3F
  }

  predicate AllPad(s: bytes) {
    forall c <- s :: IsPad(c)
  }

  /** A value neither begins nor ends with a blank, and may be as long as it likes. */
  predicate FitsLine(l: Line) {
    && CR !in l.h.name && COLON !in l.h.name && CR !in l.h.value && AllPad(l.pre) && AllPad(l.post)
    && (l.h.value != [] ==> !IsPad(l.h.value[0]) && !IsPad(l.h.value[|l.h.value| - 1]))
  }

  predicate FitsLines(lines: seq<Line>) {
    forall l <- lines :: FitsLine(l)
  }

  // --- Cutting concatenations -------------------------------------------------------------------

  lemma CutBreak(a: bytes, b: bytes)
    ensures (CRLF + a + b)[2..] == a + b
  {}

  lemma CutMessage(head: bytes, body: bytes)
    ensures (head + CRLF + CRLF + body)[..|head|] == head
    ensures (head + CRLF + CRLF + body)[|head| + 4..] == body
  {}

  lemma Shift(s: bytes, a: bytes, b: bytes, c: bytes)
    ensures s + (a + b + c) == s + a + b + c
  {}

  // --- One line -----------------------------------------------------------------------------------

  lemma {:induction false} BeforeSplit(a: bytes, c: byte, rest: bytes)
    requires c !in a
    ensures Before(a + [c] + rest, c) == a
    decreases a
  {
    if a == [] {
      assert a + [c] + rest == [c] + rest;
    } else {
      assert (a + [c] + rest)[1..] == a[1..] + [c] + rest;
      BeforeSplit(a[1..], c, rest);
    }
  }

  lemma {:induction false} BeforeWhole(a: bytes, c: byte)
    requires c !in a
    ensures Before(a, c) == a
  {
    if a != [] {
      BeforeWhole(a[1..], c);
    }
  }

  lemma BeforeThat(a: bytes, c: byte, s: bytes)
    requires c !in a && (s == [] || s[0] == c)
    ensures Before(a + s, c) == a
  {
    if s == [] {
      assert a + s == a;
      BeforeWhole(a, c);
    } else {
      assert a + s == a + [c] + s[1..];
      BeforeSplit(a, c, s[1..]);
    }
  }

  lemma {:induction false} SpacesSkipped(gap: bytes, s: bytes)
    requires AllSpaces(gap) && s != [] && s[0] != SPACE
    ensures SkipSpaces(gap + s) == s
    decreases gap
  {
    if gap == [] {
      assert gap + s == s;
    } else {
      assert (gap + s)[1..] == gap[1..] + s && (gap + s)[0] == gap[0] && gap[0] in gap;
      assert forall c <- gap[1..] :: c in gap;
      SpacesSkipped(gap[1..], s);
    }
  }

  lemma WordsOfLine(f: First)
    requires FitsFirst(f)
    ensures Before(RequestLine(f), SPACE) == f.verb && SecondWord(RequestLine(f)) == f.target
  {
    var words := f.target + f.tail;
    assert f.gap[0] in f.gap && (f.gap + words)[0] == SPACE;
    BeforeThat(f.verb, SPACE, f.gap + words);
    assert RequestLine(f)[|f.verb|..] == f.gap + words;
    assert f.target[0] in f.target && words[0] == f.target[0];
    SpacesSkipped(f.gap, words);
    BeforeThat(f.target, SPACE, f.tail);
  }

  lemma RequestLineReadsBack(r: Request, f: First)
    requires FitsFirst(f)
    ensures var r' := WithRequestLine(r, RequestLine(f));
            && r'.verb == f.verb && r'.target == f.target && r'.path == Before(f.target, 0x3F) != []
            && r'.headers == r.headers && r'.length == r.length
  {
    WordsOfLine(f);
    Fits(f.verb, MAXVERB);
    Fits(f.target, MAXTARGET);
    CStrOfClean(f.target);
    Fits(Before(f.target, 0x3F), MAXTARGET);
  }

  lemma Fits(s: bytes, size: nat)
    requires |s| < size
    ensures Bounded(s, size) == s
  {}

  lemma RequestLineClean(f: First)
    requires FitsFirst(f)
    ensures CR !in RequestLine(f) && RequestLine(f) != []
  {
    forall c | c in f.gap
      ensures c != CR
    {}
  }

  lemma {:induction false} PadsGoLeft(pre: bytes, s: bytes)
    requires AllPad(pre)
    ensures TrimLeft(pre + s) == TrimLeft(s)
    decreases pre
  {
    if pre == [] {
      assert pre + s == s;
    } else {
      assert (pre + s)[1..] == pre[1..] + s && (pre + s)[0] == pre[0] && pre[0] in pre;
      PadsGoLeft(pre[1..], s);
    }
  }

  lemma {:induction false} PadsGoRight(s: bytes, post: bytes)
    requires AllPad(post)
    ensures TrimRight(s + post) == TrimRight(s)
    decreases |post|
  {
    if post == [] {
      assert s + post == s;
    } else {
      var t := s + post;
      assert t[..|t| - 1] == s + post[..|post| - 1] && t[|t| - 1] == post[|post| - 1] && post[|post| - 1] in post;
      PadsGoRight(s, post[..|post| - 1]);
    }
  }

  /** Whatever blanks stand around a value, it is the value that is stored. */
  lemma PadsGo(l: Line)
    requires FitsLine(l)
    ensures TrimRight(TrimLeft(l.pre + l.h.value + l.post)) == l.h.value
  {
    var v := l.h.value;
    assert l.pre + v + l.post == l.pre + (v + l.post);
    PadsGoLeft(l.pre, v + l.post);
    if v == [] {
      assert v + l.post == l.post && l.post + [] == l.post;
      PadsGoLeft(l.post, []);
    } else {
      assert (v + l.post)[0] == v[0];
      PadsGoRight(v, l.post);
    }
  }

  lemma HeaderLineReadsBack(l: Line)
    requires FitsLine(l)
    ensures HeaderOf(HeaderLine(l)) == Some(Cut(l.h))
  {
    var line, tail := HeaderLine(l), l.pre + l.h.value + l.post;
    BeforeSplit(l.h.name, COLON, tail);
    assert line[|l.h.name| + 1..] == tail && line != l.h.name;
    PadsGo(l);
    assert Bounded(l.h.name, MAXNAME) == Cut(l.h).name && Bounded(l.h.value, MAXVALUE) == Cut(l.h).value;
  }

  /** A line without a colon is no header, and passed over. */
  lemma JunkIsIgnored(r: Request, line: bytes)
    requires COLON !in line
    ensures WithHeaderLine(r, line) == r
  {
    BeforeWhole(line, COLON);
  }

  // --- All the lines ------------------------------------------------------------------------------

  lemma {:induction false} LineEndAfter(line: bytes, rest: bytes)
    requires CR !in line
    ensures LineEnd(line + CRLF + rest) == |line| && LineEnd(line) == |line|
    decreases line
  {
    if line == [] {
      assert line + CRLF + rest == CRLF + rest;
    } else {
      assert (line + CRLF + rest)[1..] == line[1..] + CRLF + rest;
      LineEndAfter(line[1..], rest);
    }
  }

  /** Storing headers one after another, as far as there is room. */
  function StoreAll(r: Request, headers: seq<Header>, name: bytes): Request
    decreases headers
  {
    if headers == [] then r else StoreAll(Stored(r, headers[0], name), headers[1..], name)
  }

  lemma {:induction false} StoreAllKeeps(r: Request, headers: seq<Header>, name: bytes)
    ensures var r' := StoreAll(r, headers, name);
            r'.headers == r.headers + headers && r'.verb == r.verb && r'.target == r.target && r'.path == r.path
    decreases headers
  {
    if headers != [] {
      StoreAllKeeps(Stored(r, headers[0], name), headers[1..], name);
      assert [headers[0]] + headers[1..] == headers;
    }
  }

  lemma HeaderLineClean(l: Line)
    requires FitsLine(l)
    ensures CR !in HeaderLine(l) && HeaderLine(l) != []
  {
    PadsAreClean(l.pre);
    PadsAreClean(l.post);
  }

  lemma PadsAreClean(s: bytes)
    requires AllPad(s)
    ensures CR !in s
  {}

  /** A line without a break, and whatever lines come after it. */
  lemma FirstLine(r: Request, line: bytes, rest: bytes, first: bool)
    requires CR !in line && line != []
    requires rest == [] || CRLF <= rest
    ensures var r' := WithLine(r, line, first);
            WithLines(r, line + rest, first) == if rest == [] then r' else WithLines(r', rest[2..], false)
  {
    if rest == [] {
      assert line + rest == line;
      LineEndAfter(line, []);
      assert line[..|line|] == line;
    } else {
      assert line + rest == line + CRLF + rest[2..];
      LineEndAfter(line, rest[2..]);
      assert (line + rest)[..|line|] == line && (line + rest)[|line| + 2..] == rest[2..];
    }
  }

  lemma HeaderStored(r: Request, l: Line)
    requires FitsLine(l)
    ensures WithHeaderLine(r, HeaderLine(l)) ==
            if |r.headers| < MAXHEADERS then Stored(r, Cut(l.h), CONTENTLENGTH) else r
  {
    HeaderLineReadsBack(l);
  }

  lemma {:induction false} HeaderLinesReadBack(r: Request, lines: seq<Line>)
    requires lines != [] && |r.headers| <= MAXHEADERS && FitsLines(lines)
    ensures WithLines(r, HeaderLines(lines)[2..], false) == StoreAll(r, Room(lines, |r.headers|), CONTENTLENGTH)
    decreases lines
  {
    var l, rest := lines[0], HeaderLines(lines[1..]);
    CutBreak(HeaderLine(l), rest);
    HeaderLineClean(l);
    FirstLine(r, HeaderLine(l), rest, false);
    HeaderStored(r, l);
    var r' := WithHeaderLine(r, HeaderLine(l));
    StoreStep(r, lines, r');
    if lines[1..] != [] {
      HeaderLinesReadBack(r', lines[1..]);
    }
  }

  /** The first header is stored, if there is room, and then the rest. */
  lemma StoreStep(r: Request, lines: seq<Line>, r': Request)
    requires lines != [] && |r.headers| <= MAXHEADERS
    requires r' == if |r.headers| < MAXHEADERS then Stored(r, Cut(lines[0].h), CONTENTLENGTH) else r
    ensures |r'.headers| <= MAXHEADERS
    ensures StoreAll(r, Room(lines, |r.headers|), CONTENTLENGTH)
            == StoreAll(r', Room(lines[1..], |r'.headers|), CONTENTLENGTH)
    ensures lines[1..] == [] ==> StoreAll(r', Room(lines[1..], |r'.headers|), CONTENTLENGTH) == r'
  {
    RoomStep(lines, |r.headers|);
    if |r.headers| < MAXHEADERS {
      StoreOne(r, Cut(lines[0].h), Room(lines[1..], |r'.headers|), CONTENTLENGTH);
    }
  }

  lemma StoreOne(r: Request, h: Header, rest: seq<Header>, name: bytes)
    ensures StoreAll(r, [h] + rest, name) == StoreAll(Stored(r, h, name), rest, name)
  {
    assert ([h] + rest)[1..] == rest;
  }

  lemma RoomStep(lines: seq<Line>, taken: nat)
    requires lines != [] && taken <= MAXHEADERS
    ensures if taken == MAXHEADERS then Room(lines, taken) == Room(lines[1..], taken) == []
            else Room(lines, taken) == [Cut(lines[0].h)] + Room(lines[1..], taken + 1)
  {}

  lemma LinesReadBack(f: First, lines: seq<Line>)
    requires FitsFirst(f) && FitsLines(lines)
    ensures WithLines(BLANK, PrintHead(f, lines), true)
            == StoreAll(WithRequestLine(BLANK, RequestLine(f)), Room(lines, 0), CONTENTLENGTH)
  {
    RequestLineClean(f);
    FirstLine(BLANK, RequestLine(f), HeaderLines(lines), true);
    RequestLineReadsBack(BLANK, f);
    if lines != [] {
      HeaderLinesReadBack(WithRequestLine(BLANK, RequestLine(f)), lines);
    }
  }

  /** The parser inverts the printer: request line within its limits, any number of headers of any
      length, of which it keeps what it has room for. */
  lemma HeadReadsBack(f: First, lines: seq<Line>)
    requires FitsFirst(f) && FitsLines(lines)
    ensures var r := WithLines(BLANK, PrintHead(f, lines), true);
            && r.verb == f.verb && r.target == f.target && r.path == Before(f.target, 0x3F)
            && r.headers == Cuts(lines)[..Min(|lines|, MAXHEADERS)]
            && LengthKnown(r.headers, CONTENTLENGTH, r.length)
  {
    LinesReadBack(f, lines);
    RequestLineReadsBack(BLANK, f);
    StoreAllKeeps(WithRequestLine(BLANK, RequestLine(f)), Room(lines, 0), CONTENTLENGTH);
    assert [] + Room(lines, 0) == Room(lines, 0);
    LinesKeepLength(BLANK, PrintHead(f, lines), true);
  }

  /** It accepts what was printed unless Content-Length was given twice or is no number. */
  lemma AcceptedWhenLengthReadable(f: First, lines: seq<Line>)
    requires FitsFirst(f) && FitsLines(lines)
    ensures var headers := Room(lines, 0);
            Parse(PrintHead(f, lines)) ==
            if Count(headers, CONTENTLENGTH) > 1 then DuplicateLength
            else if Get(headers, CONTENTLENGTH).Some? && LengthOf(Get(headers, CONTENTLENGTH).value).None?
              then MalformedLength
            else Ok(WithLines(BLANK, PrintHead(f, lines), true))
  {
    HeadReadsBack(f, lines);
    CStrOfClean(f.verb);
    PathIsClean(f.target);
    LengthReadable(Room(lines, 0), CONTENTLENGTH, WithLines(BLANK, PrintHead(f, lines), true).length);
  }

  // --- Names in any case ------------------------------------------------------------------------

  lemma {:induction false} GetIsFirst(headers: seq<Header>, i: nat, name: bytes)
    requires i < |headers| && SameName(headers[i].name, name)
    requires forall j :: 0 <= j < i ==> !SameName(headers[j].name, name)
    ensures Get(headers, name) == Some(CStr(headers[i].value)) && Count(headers, name) > 0
    decreases headers
  {
    if i > 0 {
      GetIsFirst(headers[1..], i - 1, name);
    }
  }

  lemma {:induction false} CountsTwo(headers: seq<Header>, i: nat, j: nat, name: bytes)
    requires i < j < |headers| && SameName(headers[i].name, name) && SameName(headers[j].name, name)
    ensures Count(headers, name) > 1
    decreases headers
  {
    if i > 0 {
      CountsTwo(headers[1..], i - 1, j - 1, name);
    } else {
      CountsOne(headers[1..], j - 1, name);
    }
  }

  lemma {:induction false} CountsOne(headers: seq<Header>, i: nat, name: bytes)
    requires i < |headers| && SameName(headers[i].name, name)
    ensures Count(headers, name) > 0
    decreases headers
  {
    if i > 0 {
      CountsOne(headers[1..], i - 1, name);
    }
  }

  /** Line `i` is one the parser keeps, and its name is `name` in some mixture of cases. */
  predicate Spells(lines: seq<Line>, i: nat, name: bytes) {
    i < |lines| && i < MAXHEADERS && SpeltAlike(CStr(Cut(lines[i].h).name), CStr(name))
  }

  /** Line `i` is the first with that name, or the only one. */
  predicate SpellsFirst(lines: seq<Line>, i: nat, name: bytes) {
    Spells(lines, i, name) && forall j :: 0 <= j < i ==> !Spells(lines, j, name)
  }

  predicate SpellsOnly(lines: seq<Line>, i: nat, name: bytes) {
    Spells(lines, i, name) && forall j :: 0 <= j < |lines| && j != i ==> !Spells(lines, j, name)
  }

  lemma SpellsIsSameName(lines: seq<Line>, i: nat, name: bytes)
    requires i < |lines| && i < MAXHEADERS
    ensures Spells(lines, i, name) <==> SameName(Room(lines, 0)[i].name, name)
  {
    SameNameExactly(Cut(lines[i].h).name, name);
  }

  /** A header is found whatever the case its name was printed in: the first one of that name. */
  lemma FoundInAnyCase(f: First, lines: seq<Line>, i: nat, name: bytes)
    requires FitsFirst(f) && FitsLines(lines) && SpellsFirst(lines, i, name)
    ensures Get(WithLines(BLANK, PrintHead(f, lines), true).headers, name)
            == Some(CStr(Cut(lines[i].h).value))
  {
    HeadReadsBack(f, lines);
    FirstIsGot(lines, i, name);
  }

  lemma FirstIsGot(lines: seq<Line>, i: nat, name: bytes)
    requires SpellsFirst(lines, i, name)
    ensures Get(Room(lines, 0), name) == Some(CStr(Cut(lines[i].h).value))
  {
    var headers := Room(lines, 0);
    SpellsIsSameName(lines, i, name);
    forall j | 0 <= j < i
      ensures !SameName(headers[j].name, name)
    {
      SpellsIsSameName(lines, j, name);
    }
    GetIsFirst(headers, i, name);
  }

  lemma OnlyCountsOne(lines: seq<Line>, i: nat, name: bytes)
    requires SpellsOnly(lines, i, name)
    ensures Count(Room(lines, 0), name) == 1
  {
    var headers := Room(lines, 0);
    SpellsIsSameName(lines, i, name);
    forall j | 0 <= j < |headers| && j != i
      ensures !SameName(headers[j].name, name)
    {
      SpellsIsSameName(lines, j, name);
    }
    CountsNoMore(headers, i, name);
  }

  lemma TwoCountTwo(lines: seq<Line>, i: nat, j: nat, name: bytes)
    requires i < j && Spells(lines, i, name) && Spells(lines, j, name)
    ensures Count(Room(lines, 0), name) > 1
  {
    SpellsIsSameName(lines, i, name);
    SpellsIsSameName(lines, j, name);
    CountsTwo(Room(lines, 0), i, j, name);
  }

  /** Two lengths are refused, whatever the cases of their names. */
  lemma TwoLengthsAreRefused(f: First, lines: seq<Line>, i: nat, j: nat)
    requires FitsFirst(f) && FitsLines(lines)
    requires i < j && Spells(lines, i, CONTENTLENGTH) && Spells(lines, j, CONTENTLENGTH)
    ensures Parse(PrintHead(f, lines)) == DuplicateLength
  {
    TwoCountTwo(lines, i, j, CONTENTLENGTH);
    AcceptedWhenLengthReadable(f, lines);
  }

  /** One is taken, in any case, if it is digits that fit; and then it is the length. */
  lemma LengthInAnyCase(f: First, lines: seq<Line>, i: nat)
    requires FitsFirst(f) && FitsLines(lines) && SpellsOnly(lines, i, CONTENTLENGTH)
    requires StandardLength(lines[i].h.value) && |lines[i].h.value| < MAXVALUE
    ensures var p := Parse(PrintHead(f, lines));
            p.Ok? && p.request.length == Min(Decimal.Value(lines[i].h.value), LLMAX)
  {
    HeadReadsBack(f, lines);
    AcceptedWhenLengthReadable(f, lines);
    OnlyIsTheLength(lines, i, CONTENTLENGTH, WithLines(BLANK, PrintHead(f, lines), true).length);
  }

  lemma OnlyIsTheLength(lines: seq<Line>, i: nat, name: bytes, length: int)
    requires SpellsOnly(lines, i, name) && LengthKnown(Room(lines, 0), name, length)
    requires StandardLength(lines[i].h.value) && |lines[i].h.value| < MAXVALUE
    ensures Count(Room(lines, 0), name) == 1 && Get(Room(lines, 0), name) == Some(lines[i].h.value)
    ensures LengthOf(lines[i].h.value) == Some(length)
    ensures length == Min(Decimal.Value(lines[i].h.value), LLMAX)
  {
    var v := lines[i].h.value;
    assert Cut(lines[i].h).value == v;
    StandardIsTaken(v);
    CStrOfClean(v);
    FirstIsGot(lines, i, name);
    OnlyCountsOne(lines, i, name);
  }

  lemma {:induction false} CountsNoMore(headers: seq<Header>, i: nat, name: bytes)
    requires i < |headers| && SameName(headers[i].name, name)
    requires forall j :: 0 <= j < |headers| && j != i ==> !SameName(headers[j].name, name)
    ensures Count(headers, name) == 1
    decreases headers
  {
    if i > 0 {
      CountsNoMore(headers[1..], i - 1, name);
    } else {
      CountsNone(headers[1..], name);
    }
  }

  lemma {:induction false} CountsNone(headers: seq<Header>, name: bytes)
    requires forall j :: 0 <= j < |headers| ==> !SameName(headers[j].name, name)
    ensures Count(headers, name) == 0
    decreases headers
  {
    if headers != [] {
      CountsNone(headers[1..], name);
    }
  }

  lemma LengthReadable(headers: seq<Header>, name: bytes, length: int)
    requires LengthKnown(headers, name, length)
    ensures Count(headers, name) <= 1 ==>
              (Get(headers, name).Some? && length < 0 <==>
               Get(headers, name).Some? && LengthOf(Get(headers, name).value).None?)
  {
    CountSnoc(headers, Header([], []), name);
  }

  lemma PathIsClean(target: bytes)
    requires FitsTarget(target)
    ensures CStr(Before(target, 0x3F)) == Before(target, 0x3F) != []
  {
    CStrOfClean(Before(target, 0x3F));
  }

  // --- The blank line -----------------------------------------------------------------------------

  /** Every CR begins a line break with something after it that is no CR. */
  predicate Tidy(s: bytes) {
    forall i :: 0 <= i < |s| && s[i] == CR ==> i + 2 < |s| && s[i + 2] != CR
  }

  lemma TidyAppend(s: bytes, line: bytes)
    requires Tidy(s) && CR !in line && line != []
    ensures Tidy(s + CRLF + line)
  {
    var t := s + CRLF + line;
    forall j | |s| + 2 <= j < |t|
      ensures t[j] != CR
    {
      assert t[j] == line[j - |s| - 2] && line[j - |s| - 2] in line;
    }
    forall i | 0 <= i < |t| && t[i] == CR
      ensures i + 2 < |t| && t[i + 2] != CR
    {
      if i < |s| {
        assert t[i] == s[i] && t[i + 2] == s[i + 2];
      }
    }
  }

  lemma {:induction false} TidyLines(s: bytes, lines: seq<Line>)
    requires Tidy(s) && FitsLines(lines)
    ensures Tidy(s + HeaderLines(lines))
    decreases lines
  {
    if lines == [] {
      assert s + HeaderLines(lines) == s;
    } else {
      HeaderLineClean(lines[0]);
      TidyAppend(s, HeaderLine(lines[0]));
      TidyLines(s + CRLF + HeaderLine(lines[0]), lines[1..]);
      Shift(s, CRLF, HeaderLine(lines[0]), HeaderLines(lines[1..]));
    }
  }

  lemma TidyHeadEnds(head: bytes, body: bytes)
    requires Tidy(head)
    ensures HeadIs(head + CRLF + CRLF + body, |head|)
  {
    var s := head + CRLF + CRLF + body;
    forall i | 0 <= i < |head|
      ensures !EndAt(s, i)
    {
      if s[i] == CR {
        assert head[i] == CR && s[i + 2] == head[i + 2];
      }
    }
  }

  /** A whole message: the daemon finds the end of the head where the client put it, reads the
      same request, and what is left is the body. */
  lemma MessageReadsBack(f: First, lines: seq<Line>, body: bytes)
    requires FitsFirst(f) && FitsLines(lines)
    ensures var head := PrintHead(f, lines);
            var s := head + CRLF + CRLF + body;
            && HeadIs(s, |head|) && s[..|head|] == head && s[|head| + 4..] == body
            && WithLines(BLANK, s[..|head|], true).headers == Cuts(lines)[..Min(|lines|, MAXHEADERS)]
            && WithLines(BLANK, s[..|head|], true).verb == f.verb
            && WithLines(BLANK, s[..|head|], true).target == f.target
  {
    var head := PrintHead(f, lines);
    RequestLineClean(f);
    TidyLines(RequestLine(f), lines);
    TidyHeadEnds(head, body);
    HeadReadsBack(f, lines);
    CutMessage(head, body);
  }
}
