/**
 http_read_request as it runs: the parser's index loops over the connection buffer, filling
 the fields of the request in place (src/core/http.c), and the body that follows the head.
 */
module HttpRequest {
  import opened Bytes
  import opened Posix
  import opened HttpHead
  import opened HttpParse

  /** find_crlf */
  method FindCrlf(s: bytes, start: nat) returns (i: nat)
    requires start <= |s|
    ensures i == start + LineEnd(s[start..])
  {
    i := start;
    while i + 1 < |s|
      invariant start <= i <= |s|
      invariant LineEnd(s[start..]) == (i - start) + LineEnd(s[i..])
    {
      if s[i] == CR && s[i + 1] == LF {
        return;
      }
      assert s[i..][1..] == s[i + 1..];
      i := i + 1;
    }
    return |s|;
  }

  lemma {:induction false} BeforeIs(s: bytes, c: byte, n: nat)
    requires n <= |s| && (n < |s| ==> s[n] == c) && forall j :: 0 <= j < n ==> s[j] != c
    ensures HttpParse.Before(s, c) == s[..n]
    decreases n
  {
    if n > 0 {
      BeforeIs(s[1..], c, n - 1);
      assert s[..n] == [s[0]] + s[1..][..n - 1];
    }
  }

  /** A scan `while (i < n && line[i] != c) i++`. */
  method ScanTo(line: bytes, from: nat, c: byte) returns (i: nat)
    requires from <= |line|
    ensures from <= i <= |line| && line[from..i] == HttpParse.Before(line[from..], c)
  {
    i := from;
    while i < |line| && line[i] != c
      invariant from <= i <= |line|
      invariant forall j :: from <= j < i ==> line[j] != c
    {
      i := i + 1;
    }
    BeforeIs(line[from..], c, i - from);
    assert line[from..][..i - from] == line[from..i];
  }

  lemma {:induction false} SkipIs(s: bytes, n: nat)
    requires n <= |s| && (n < |s| ==> s[n] != SPACE) && forall j :: 0 <= j < n ==> s[j] == SPACE
    ensures SkipSpaces(s) == s[n..]
    decreases n
  {
    if n > 0 {
      SkipIs(s[1..], n - 1);
      assert s[1..][n - 1..] == s[n..];
    }
  }

  /** A scan `while (i < n && line[i] == ' ') i++`. */
  method ScanSpaces(line: bytes, from: nat) returns (i: nat)
    requires from <= |line|
    ensures from <= i <= |line| && line[i..] == SkipSpaces(line[from..])
  {
    i := from;
    while i < |line| && line[i] == SPACE
      invariant from <= i <= |line|
      invariant forall j :: from <= j < i ==> line[j] == SPACE
    {
      i := i + 1;
    }
    SkipIs(line[from..], i - from);
    assert line[from..][i - from..] == line[i..];
  }

  /** One step of splitting a head into lines. */
  lemma LinesStep(r: HttpParse.Request, head: bytes, start: nat, crlf: nat, first: bool)
    requires start < |head| && crlf == start + LineEnd(head[start..])
    ensures var r' := WithLine(r, head[start..crlf], first);
            WithLines(r, head[start..], first) == if crlf == |head| then r' else WithLines(r', head[crlf + 2..], false)
  {
    assert head[start..][..crlf - start] == head[start..crlf];
    if crlf != |head| {
      assert head[start..][crlf - start + 2..] == head[crlf + 2..];
    }
  }

  class Request {
    var verb: bytes
    var target: bytes
    var path: bytes
    var headers: seq<Header>
    var length: int

    ghost function Model(): HttpParse.Request
      reads this
    {
      HttpParse.Request(verb, target, path, headers, length)
    }

    /** memset, and the length still unknown */
    constructor ()
      ensures Model() == BLANK
    {
      verb, target, path, headers, length := [], [], [], [], -1;
    }

    /** parse_request_line */
    method ParseRequestLine(line: bytes)
      modifies this
      ensures Model() == WithRequestLine(old(Model()), line)
    {
      var first, second := Words(line);
      SetAddress(first, second);
    }

    method SetAddress(first: bytes, second: bytes)
      modifies this`verb, this`target, this`path
      ensures Model() == Addressed(old(Model()), first, second)
    {
      verb := Bounded(first, MAXVERB);
      target := Bounded(second, MAXTARGET);
      path := PathOf(target);
    }

    /** The first two words of a line. */
    static method Words(line: bytes) returns (first: bytes, second: bytes)
      ensures first == HttpParse.Before(line, SPACE)
      ensures second == SecondWord(line)
    {
      var i := ScanTo(line, 0, SPACE);
      assert line[0..] == line && line[0..i] == line[..i];
      first := line[..i];
      var b := ScanSpaces(line, i);
      var e := ScanTo(line, b, SPACE);
      second := line[b..e];
    }

    /** path = target up to '?' */
    static method PathOf(target: bytes) returns (path: bytes)
      ensures path == PathIn(target)
    {
      var text := CStr(target);
      var q := ScanTo(text, 0, 0x3F);
      assert text[0..] == text && text[0..q] == text[..q];
      path := Bounded(text[..q], MAXTARGET);
    }

    /** parse_header_line */
    method ParseHeaderLine(line: bytes)
      modifies this`headers, this`length
      ensures Model() == WithHeaderLine(old(Model()), line)
    {
      if |headers| >= MAXHEADERS {
        return;
      }
      var found := SplitHeader(line);
      if found.None? {
        return;
      }
      var h := found.value;
      headers := headers + [h];
      if SameName(h.name, CONTENTLENGTH) && LengthOf(h.value).Some? {
        length := LengthOf(h.value).value;
      }
    }

    /** Name and value on either side of the colon; nothing on a line without one. */
    static method SplitHeader(line: bytes) returns (h: Option<Header>)
      ensures h == HeaderOf(line)
    {
      var colon := ScanTo(line, 0, COLON);
      assert line[0..] == line && line[0..colon] == line[..colon] == HttpParse.Before(line, COLON);
      if colon >= |line| {
        assert line[..colon] == line;
        return None;
      }
      var value := Trim(line[colon + 1..]);
      return Some(Header(Bounded(line[..colon], MAXNAME), Bounded(value, MAXVALUE)));
    }

    /** The two loops that leave blanks and tabs off both ends of a value. */
    static method Trim(s: bytes) returns (v: bytes)
      ensures v == TrimRight(TrimLeft(s))
    {
      var vs := 0;
      while vs < |s| && IsPad(s[vs])
        invariant 0 <= vs <= |s|
        invariant TrimLeft(s[vs..]) == TrimLeft(s)
      {
        assert s[vs..][1..] == s[vs + 1..];
        vs := vs + 1;
      }
      var t, vlen := s[vs..], |s| - vs;
      assert t[..vlen] == t;
      while vlen > 0 && IsPad(t[vlen - 1])
        invariant 0 <= vlen <= |t|
        invariant TrimRight(t[..vlen]) == TrimRight(t)
      {
        assert t[..vlen][..vlen - 1] == t[..vlen - 1];
        vlen := vlen - 1;
      }
      v := t[..vlen];
    }

    /** The loop over the lines of the head. */
    method ParseLines(head: bytes)
      requires Model() == BLANK
      modifies this
      ensures Model() == WithLines(BLANK, head, true)
    {
      var start, lineno := 0, 0;
      assert head[0..] == head;
      while start < |head|
        invariant 0 <= start <= |head|
        invariant WithLines(Model(), head[start..], lineno == 0) == WithLines(BLANK, head, true)
        decreases |head| - start
      {
        start := NextLine(head, start, lineno == 0);
        lineno := lineno + 1;
      }
      assert head[start..] == [];
    }

    /** One line of it; where the next one starts. */
    method NextLine(head: bytes, start: nat, first: bool) returns (next: nat)
      requires start < |head|
      modifies this
      ensures start < next <= |head|
      ensures WithLines(Model(), head[next..], false) == WithLines(old(Model()), head[start..], first)
    {
      var crlf := FindCrlf(head, start);
      LinesStep(Model(), head, start, crlf, first);
      ParseLine(head[start..crlf], first);
      next := if crlf >= |head| then |head| else crlf + 2;
    }

    method ParseLine(line: bytes, first: bool)
      modifies this
      ensures Model() == WithLine(old(Model()), line, first)
    {
      if first {
        ParseRequestLine(line);
      } else {
        ParseHeaderLine(line);
      }
    }

    /** The loop that counts Content-Length headers. */
    method CountOf(name: bytes) returns (n: nat)
      ensures n == Count(headers, name)
    {
      n := 0;
      var i := |headers|;
      while i > 0
        invariant 0 <= i <= |headers| && n == Count(headers[i..], name)
      {
        i := i - 1;
        assert headers[i..][1..] == headers[i + 1..];
        if SameName(headers[i].name, name) {
          n := n + 1;
        }
      }
      assert headers[0..] == headers;
    }

    /** http_header_get */
    method Lookup(name: bytes) returns (v: Option<bytes>)
      ensures v == Get(headers, name)
    {
      var i := 0;
      while i < |headers|
        invariant 0 <= i <= |headers| && Get(headers, name) == Get(headers[i..], name)
      {
        if SameName(headers[i].name, name) {
          return Some(CStr(headers[i].value));
        }
        assert headers[i..][1..] == headers[i + 1..];
        i := i + 1;
      }
      return None;
    }

    /** http_read_request on a fresh connection: what is read, and then what is made of it. */
    method Read(c: Conn) returns (o: Outcome, p: Parsed)
      requires c.Valid() && c.len == 0 && c.sock.step == 0 && Model() == BLANK
      modifies this, c`len, c`pos, c.buf, c.sock
      ensures c.Valid()
      ensures o == Reading(c.sock.stream, 0, c.sock.script)
      ensures o.Head? ==> HeadIs(c.sock.stream, o.end) && p == HttpParse.Parse(c.sock.stream[..o.end])
      ensures o.Head? && p.Ok? ==> Model() == p.request && c.pos == o.end + 4
      // conservation: head, blank line, buffered body and what is still unread are the stream
      ensures o.Head? && p.Ok? ==>
                c.sock.stream == c.sock.stream[..o.end] + [CR, LF, CR, LF]
                                 + c.buf[c.pos..c.len] + c.sock.stream[c.sock.cursor..]
    {
      p := MalformedLine;
      o := c.ReadHead();
      if !o.Head? {
        return;
      }
      HeadInBuffer(c.sock.stream, c.len, o.end);
      assert c.buf[..o.end] == c.buf[..c.len][..o.end] == c.sock.stream[..o.end];
      ParseLines(c.buf[..o.end]);
      p := Judge();
      if p.Ok? {
        c.pos := o.end + 4;
        assert c.buf[c.pos..c.len] == c.buf[..c.len][c.pos..];
        StreamSplits(c.sock.stream, o.end, c.len);
      }
    }

    /** The checks after parsing. */
    method Judge() returns (p: Parsed)
      ensures p == if CStr(verb) == [] || CStr(path) == [] then MalformedLine
                   else if Count(headers, CONTENTLENGTH) > 1 then DuplicateLength
                   else if Get(headers, CONTENTLENGTH).Some? && length < 0 then MalformedLength
                   else Ok(Model())
    {
      if CStr(verb) == [] || CStr(path) == [] {
        return MalformedLine;
      }
      var n := CountOf(CONTENTLENGTH);
      if n > 1 {
        return DuplicateLength;
      }
      var cl := Lookup(CONTENTLENGTH);
      if cl.Some? && length < 0 {
        return MalformedLength;
      }
      return Ok(HttpParse.Request(verb, target, path, headers, length));
    }
  }

  lemma HeadInBuffer(stream: bytes, len: nat, end: nat)
    requires len <= |stream| && HeadIs(stream[..len], end)
    ensures end + 4 <= len
  {}

  lemma StreamSplits(stream: bytes, end: nat, len: nat)
    requires HeadIs(stream, end) && end + 4 <= len <= |stream|
    ensures stream == stream[..end] + [CR, LF, CR, LF] + stream[end + 4..len] + stream[len..]
    ensures stream[..len][end + 4..] == stream[end + 4..len]
  {
    assert stream[end..end + 4] == [CR, LF, CR, LF];
  }
}
