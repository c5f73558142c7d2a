/**
 GET: the Range header and the loop that streams a slice of a file (parse_range, serve_file in
 src/core/unasd.c), and the entity tag that conditional requests compare (if_match_ok,
 fsapi_fmt_etag).
 */
module Ranges {
  import opened Bytes
  import opened Decimal
  import opened Strtoll
  import opened Posix

  /** "bytes=" */
  const UNIT: bytes := [0x62, 0x79, 0x74, 0x65, 0x73, 0x3D]

  /** A range header read with integers of any size. */
  datatype Reading = Suffix(n: int) | From(first: int) | Between(first: int, last: int) | Unreadable

  function Read(h: bytes): Reading {
    if !(UNIT <= h) then Unreadable
    else ReadSpec(h[|UNIT|..])
  }

  function ReadSpec(t: bytes): Reading {
    if t != [] && t[0] == MINUS then
      if NumeralEnd(t[1..]) > 0 && NumeralEnd(t[1..]) == |t| - 1 then Suffix(Unbounded(t[1..])) else Unreadable
    else
      var k := NumeralEnd(t);
      if k == 0 || k == |t| || t[k] != MINUS then Unreadable
      else if k + 1 == |t| then From(Unbounded(t))
      else if NumeralEnd(t[k + 1..]) == |t| - k - 1 then Between(Unbounded(t), Unbounded(t[k + 1..]))
      else Unreadable
  }

  datatype Slice = Slice(first: int, last: int)

  /** The bytes a range selects of a file of `size` bytes (section 2.1 of RFC 7233). */
  function Select(r: Reading, size: int): (s: Option<Slice>)
    requires size >= 0
    ensures s.Some? ==> 0 <= s.value.first <= s.value.last < size
  {
    match r
    case Suffix(n) => if n <= 0 || size == 0 then None else Some(Slice(if n > size then 0 else size - n, size - 1))
    case From(first) => if 0 <= first < size then Some(Slice(first, size - 1)) else None
    case Between(first, last) =>
      if 0 <= first < size && first <= last then Some(Slice(first, Min(last, size - 1))) else None
    case Unreadable => None
  }

  // parse_range in 63-bit arithmetic, with a strtoll that saturates.

  /** "-suffix" */
  method ParseSuffix(t: bytes, size: int) returns (r: Option<Slice>)
    requires 0 <= size <= LLMAX
    ensures r == Select(if NumeralEnd(t) > 0 && NumeralEnd(t) == |t| then Suffix(Unbounded(t)) else Unreadable, size)
  {
    var n, end := Value64(t), NumeralEnd(t);
    if end == 0 || end != |t| {
      return None;
    }
    if n <= 0 || size == 0 {
      return None;
    }
    if n > size {
      n := size;
    }
    return Some(Slice(size - n, size - 1));
  }

  /** "a-" and "a-b" once they have been split into numbers; `last` None for an open end. */
  method Clip(first: int, last: Option<int>, size: int) returns (r: Option<Slice>)
    requires 0 <= size <= LLMAX
    ensures r == Select(if last.None? then From(first) else Between(first, last.value), size)
  {
    var s := Clamp(first);
    var e := if last.None? then size - 1 else Clamp(last.value);
    if s < 0 || s >= size {
      return None;
    }
    if e >= size {
      e := size - 1;
    }
    if e < s {
      return None;
    }
    return Some(Slice(s, e));
  }

  /** What follows "bytes=". */
  method ParseSpec(t: bytes, size: int) returns (r: Option<Slice>)
    requires 0 <= size <= LLMAX
    ensures r == Select(ReadSpec(t), size)
  {
    if t != [] && t[0] == MINUS {
      r := ParseSuffix(t[1..], size);
      return;
    }
    var end := NumeralEnd(t);
    if end == 0 || end == |t| || t[end] != MINUS {
      return None;
    }
    if end + 1 == |t| {
      r := Clip(Unbounded(t), None, size);
      return;
    }
    var u := t[end + 1..];
    if NumeralEnd(u) != |u| {
      return None;
    }
    r := Clip(Unbounded(t), Some(Unbounded(u)), size);
  }

  /** parse_range: the same answer as with unbounded integers, for every header and every size
      a file can have. */
  method ParseRange(h: bytes, size: int) returns (r: Option<Slice>)
    requires 0 <= size <= LLMAX
    ensures r == Select(Read(h), size)
    ensures r.Some? ==> 0 <= r.value.first <= r.value.last < size
  {
    if UNIT <= h {
      r := ParseSpec(h[|UNIT|..], size);
    } else {
      r := None;
    }
  }

  lemma AfterUnit(t: bytes)
    ensures UNIT <= UNIT + t && (UNIT + t)[|UNIT|..] == t
  {}

  /** The three forms of the standard, for digit strings of any length, mean what it says. */
  lemma StandardForms(a: bytes, b: bytes)
    requires a != [] && AllDigits(a) && b != [] && AllDigits(b)
    ensures Read(UNIT + (a + [MINUS] + b)) == Between(Decimal.Value(a), Decimal.Value(b))
    ensures Read(UNIT + (a + [MINUS])) == From(Decimal.Value(a))
    ensures Read(UNIT + ([MINUS] + b)) == Suffix(Decimal.Value(b))
  {
    AfterUnit(a + [MINUS] + b);
    AfterUnit(a + [MINUS]);
    AfterUnit([MINUS] + b);
    TwoNumbers(a, b);
    OneNumber(a);
    assert ([MINUS] + b)[1..] == b && b + [] == b;
    PlainNumeral(b, []);
  }

  /** Byte `i` of a file of `size` bytes is one that a header selects. */
  predicate Selects(h: bytes, size: nat, i: int) {
    var s := Select(Read(h), size);
    s.Some? && s.value.first <= i <= s.value.last
  }

  /** The three forms select exactly the bytes the standard says: the last so many, those from a
      number on, those from one number to another. */
  lemma StandardSelects(a: bytes, b: bytes, size: nat, i: int)
    requires a != [] && AllDigits(a) && b != [] && AllDigits(b)
    ensures Selects(UNIT + ([MINUS] + b), size, i) <==> 0 <= i < size && size - Decimal.Value(b) <= i
    ensures Selects(UNIT + (a + [MINUS]), size, i) <==> Decimal.Value(a) <= i < size
    ensures Selects(UNIT + (a + [MINUS] + b), size, i) <==> Decimal.Value(a) <= i < size && i <= Decimal.Value(b)
  {
    StandardForms(a, b);
    SuffixSelects(UNIT + ([MINUS] + b), Decimal.Value(b), size, i);
    RestSelects(UNIT + (a + [MINUS]), Decimal.Value(a), size, i);
    PieceSelects(UNIT + (a + [MINUS] + b), Decimal.Value(a), Decimal.Value(b), size, i);
  }

  lemma SuffixSelects(h: bytes, n: nat, size: nat, i: int)
    requires Read(h) == Suffix(n)
    ensures Selects(h, size, i) <==> 0 <= i < size && size - n <= i
  {}

  lemma RestSelects(h: bytes, first: nat, size: nat, i: int)
    requires Read(h) == From(first)
    ensures Selects(h, size, i) <==> first <= i < size
  {}

  lemma PieceSelects(h: bytes, first: nat, last: nat, size: nat, i: int)
    requires Read(h) == Between(first, last)
    ensures Selects(h, size, i) <==> first <= i < size && i <= last
  {}

  /** A header is answered 416 exactly if it selects nothing. */
  lemma NothingSelected(h: bytes, size: nat)
    ensures Select(Read(h), size).None? <==> forall i :: !Selects(h, size, i)
  {
    var s := Select(Read(h), size);
    if s.Some? {
      assert Selects(h, size, s.value.first);
    }
  }

  /** A header that selects anything of the file is served its bytes from `from` up to `to`. */
  ghost predicate Sends(h: bytes, stream: bytes, from: int, to: int) {
    var s := Select(Read(h), |stream|);
    s.Some? ==> 0 <= from <= to <= |stream| && PartOf(stream, s.value) == stream[from..to]
  }

  /** What is sent for each of the three, of a file as long as `stat` said. */
  lemma StandardServes(a: bytes, b: bytes, stream: bytes)
    requires a != [] && AllDigits(a) && b != [] && AllDigits(b)
    ensures Sends(UNIT + ([MINUS] + b), stream, |stream| - Min(Decimal.Value(b), |stream|), |stream|)
    ensures Sends(UNIT + (a + [MINUS]), stream, Decimal.Value(a), |stream|)
    ensures Sends(UNIT + (a + [MINUS] + b), stream, Decimal.Value(a), Min(Decimal.Value(b) + 1, |stream|))
  {
    StandardForms(a, b);
    SuffixServes(UNIT + ([MINUS] + b), Decimal.Value(b), stream);
    RestServes(UNIT + (a + [MINUS]), Decimal.Value(a), stream);
    PieceServes(UNIT + (a + [MINUS] + b), Decimal.Value(a), Decimal.Value(b), stream);
  }

  lemma SuffixServes(h: bytes, n: nat, stream: bytes)
    requires Read(h) == Suffix(n)
    ensures Sends(h, stream, |stream| - Min(n, |stream|), |stream|)
  {
    var s := Select(Read(h), |stream|);
    if s.Some? {
      WholePart(stream, s.value.first, s.value.last - s.value.first + 1);
    }
  }

  lemma RestServes(h: bytes, first: nat, stream: bytes)
    requires Read(h) == From(first)
    ensures Sends(h, stream, first, |stream|)
  {
    if Select(Read(h), |stream|).Some? {
      WholePart(stream, first, |stream| - first);
    }
  }

  lemma PieceServes(h: bytes, first: nat, last: nat, stream: bytes)
    requires Read(h) == Between(first, last)
    ensures Sends(h, stream, first, Min(last + 1, |stream|))
  {
    if Select(Read(h), |stream|).Some? {
      WholePart(stream, first, Min(last + 1, |stream|) - first);
    }
  }

  /** The part that `Serve` sends for a slice. */
  function PartOf(stream: bytes, s: Slice): bytes
    requires 0 <= s.first <= s.last
  {
    Part(stream, s.first, s.last - s.first + 1)
  }

  /** One of those forms, after the unit. */
  predicate StandardSpec(t: bytes) {
    || (|t| > 1 && t[0] == MINUS && AllDigits(t[1..]))
    || exists k :: 0 < k < |t| && t[k] == MINUS && AllDigits(t[..k]) && AllDigits(t[k + 1..])
  }

  /** No blank and no plus sign, and the dash only once. */
  predicate Bare(t: bytes) {
    && (forall c <- t :: !IsSpace(c) && c != PLUS)
    && (forall i, j :: 0 <= i < |t| && 0 <= j < |t| && t[i] == MINUS && t[j] == MINUS ==> i == j)
  }

  /** The code takes more than the standard's forms, for strtoll skips blanks and takes signs.
      Exactly when the specification of a range that is served is one of the standard's: when it
      holds no blank, no plus sign and one dash only. */
  lemma StandardExactly(t: bytes, size: nat)
    requires Select(Read(UNIT + t), size).Some?
    ensures StandardSpec(t) <==> Bare(t)
  {
    AfterUnit(t);
    if Bare(t) {
      BareIsStandard(t);
    }
    if StandardSpec(t) {
      StandardIsBare(t);
    }
  }

  lemma BareIsStandard(t: bytes)
    requires !ReadSpec(t).Unreadable? && Bare(t)
    ensures StandardSpec(t)
  {
    if t[0] == MINUS {
      BareSuffix(t);
    } else {
      BarePair(t);
    }
  }

  lemma BareSuffix(t: bytes)
    requires ReadSpec(t).Suffix? && t != [] && t[0] == MINUS && Bare(t)
    ensures |t| > 1 && AllDigits(t[1..])
  {
    var u := t[1..];
    assert forall i :: 0 <= i < |u| ==> u[i] == t[i + 1] && t[i + 1] in t && t[i + 1] != MINUS;
    UnmarkedNumeral(u);
    assert u[..|u|] == u;
  }

  lemma BarePair(t: bytes)
    requires !ReadSpec(t).Unreadable? && t != [] && t[0] != MINUS && Bare(t)
    ensures var k := NumeralEnd(t); 0 < k < |t| && t[k] == MINUS && AllDigits(t[..k]) && AllDigits(t[k + 1..])
  {
    assert t[0] in t && Spaces(t) == 0 && Start(t) == 0 && t[0..] == t;
    BareRest(t, NumeralEnd(t), t[NumeralEnd(t) + 1..]);
  }

  /** What follows the dash. */
  lemma BareRest(t: bytes, k: nat, u: bytes)
    requires k < |t| && t[k] == MINUS && Bare(t) && u == t[k + 1..]
    ensures AllDigits(u[..NumeralEnd(u)])
    ensures u[..|u|] == u
  {
    forall c | c in u
      ensures !IsSpace(c) && c != PLUS && c != MINUS
    {
      var i :| 0 <= i < |u| && u[i] == c;
      assert t[k + 1 + i] == c;
    }
    UnmarkedNumeral(u);
  }

  lemma StandardIsBare(t: bytes)
    requires StandardSpec(t)
    ensures Bare(t)
  {
    if |t| > 1 && t[0] == MINUS && AllDigits(t[1..]) {
      OneDash(t, 0);
    } else {
      var k :| 0 < k < |t| && t[k] == MINUS && AllDigits(t[..k]) && AllDigits(t[k + 1..]);
      OneDash(t, k);
    }
  }

  lemma OneDash(t: bytes, k: nat)
    requires k < |t| && t[k] == MINUS && AllDigits(t[..k]) && AllDigits(t[k + 1..])
    ensures Bare(t)
  {
    assert forall i :: 0 <= i < k ==> t[i] in t[..k];
    assert forall i :: k < i < |t| ==> t[i] in t[k + 1..];
    assert forall i :: 0 <= i < |t| && i != k ==> IsDigit(t[i]);
  }

  /** "bytes=0--0" is none of them, and served: as the first byte. */
  lemma NotStandardButServed(t: bytes, size: nat)
    requires t == [0x30, MINUS, MINUS, 0x30] && size > 0
    ensures !StandardSpec(t) && Select(Read(UNIT + t), size) == Some(Slice(0, 0))
  {
    TwoDashes(t);
    ZeroToMinusZero(t);
    AfterUnit(t);
  }

  lemma TwoDashes(t: bytes)
    requires |t| == 4 && t[1] == MINUS && t[2] == MINUS
    ensures !StandardSpec(t)
  {
    assert !Bare(t);
    if StandardSpec(t) {
      StandardIsBare(t);
    }
  }

  lemma ZeroToMinusZero(t: bytes)
    requires t == [0x30, MINUS, MINUS, 0x30]
    ensures ReadSpec(t) == Between(0, 0)
  {
    ZeroFirst(t);
    assert t[2..] == [MINUS, 0x30];
    MinusZero();
  }

  lemma ZeroFirst(t: bytes)
    requires t == [0x30, MINUS, MINUS, 0x30]
    ensures NumeralEnd(t) == 1 && Unbounded(t) == 0
  {
    assert t == [0x30] + [MINUS, MINUS, 0x30];
    PlainNumeral([0x30], [MINUS, MINUS, 0x30]);
    ZeroIsZero();
  }

  lemma ZeroIsZero()
    ensures Decimal.Value([0x30]) == 0
  {
    ValueSnoc([], 0x30);
    assert [] + [0x30 as byte] == [0x30];
  }

  lemma MinusZero()
    ensures NumeralEnd([MINUS, 0x30]) == 2 && Unbounded([MINUS, 0x30]) == 0
  {
    var u: bytes := [MINUS, 0x30];
    assert Spaces(u) == 0 && Start(u) == 1 && Negative(u);
    DigitsOf([0x30], []);
    assert u[1..] == [0x30] == [0x30] + [];
    assert u[1..][..1] == [0x30];
    ZeroIsZero();
  }

  lemma TwoNumbers(a: bytes, b: bytes)
    requires a != [] && AllDigits(a) && b != [] && AllDigits(b)
    ensures ReadSpec(a + [MINUS] + b) == Between(Decimal.Value(a), Decimal.Value(b))
  {
    var t := a + [MINUS] + b;
    assert t == a + ([MINUS] + b);
    PlainNumeral(a, [MINUS] + b);
    PlainNumeral(b, []);
    assert b + [] == b;
    assert IsDigit(a[0]) && t[0] == a[0];
    assert t[|a| + 1..] == b;
  }

  lemma OneNumber(a: bytes)
    requires a != [] && AllDigits(a)
    ensures ReadSpec(a + [MINUS]) == From(Decimal.Value(a))
  {
    PlainNumeral(a, [MINUS]);
    assert IsDigit(a[0]) && (a + [MINUS])[0] == a[0];
  }

  // --- Streaming --------------------------------------------------------------------------------------

  /** http_write_all: retry short and interrupted writes until all of `data` has landed. */
  method WriteAll(fd: Sink, data: bytes) returns (err: Option<Errno>)
    requires fd.Valid()
    modifies fd
    ensures fd.Valid() && old(fd.out) <= fd.out <= old(fd.out) + data
    ensures err.None? ==> fd.out == old(fd.out) + data
    ensures err.Some? ==> err.value != EINTR && Refuse(err.value) in fd.script
  {
    var off := 0;
    while off < |data|
      invariant 0 <= off <= |data| && fd.Valid()
      invariant fd.out == old(fd.out) + data[..off]
      decreases |fd.script| - fd.step, |data| - off
    {
      var w := fd.Write(data[off..]);
      match w
      case Failed(e) =>
        if e != EINTR {
          return Some(e);
        }
      case Moved(n) =>
        assert data[..off] + data[off..][..n] == data[..off + n];
        off := off + n;
    }
    return None;
  }

  const CHUNK: nat := 65536

  /** What has been sent after some reads: `k` bytes of what was left, and no more. */
  lemma SentMore(left: bytes, k: nat, data: bytes)
    requires k + |data| <= |left| && data == left[k..k + |data|]
    ensures left[..k] + data == left[..k + |data|]
  {}

  lemma PrefixOfPrefix(left: bytes, k: nat, n: nat)
    requires k <= n <= |left|
    ensures left[..k] <= left[..n]
  {}

  /** One round of that loop after a read: all of `data` is passed on, or a part and then the end. */
  lemma SentPart(before: bytes, left: bytes, k: nat, data: bytes, n: nat, out: bytes)
    requires k + |data| <= n <= |left| && data == left[k..k + |data|]
    requires before + left[..k] <= out <= before + left[..k] + data
    ensures before <= out <= before + left[..n]
  {
    SentMore(left, k, data);
    PrefixOfPrefix(left, k + |data|, n);
    assert before + left[..k] + data == before + left[..k + |data|];
  }

  /** The client has got `body` in order up to some point, and all of it unless a call failed. */
  ghost predicate Delivers(before: bytes, out: bytes, body: bytes, smooth: bool) {
    before <= out <= before + body && (smooth ==> out == before + body)
  }

  lemma CutShort(before: bytes, left: bytes, k: nat, n: nat)
    requires k <= n <= |left|
    ensures Delivers(before, before + left[..k], left[..n], false)
  {
    PrefixOfPrefix(left, k, n);
  }

  /** Passing on what one read gave: all of it, or a part and then the end. */
  method PassOn(conn: Sink, data: bytes, ghost before: bytes, ghost left: bytes, ghost k: nat, ghost n: nat)
    returns (err: Option<Errno>)
    requires conn.Valid() && k + |data| <= n <= |left| && data == left[k..k + |data|]
    requires conn.out == before + left[..k]
    modifies conn
    ensures conn.Valid()
    ensures err.None? ==> conn.out == before + left[..k + |data|]
    ensures err.Some? ==> Delivers(before, conn.out, left[..n], Smooth(conn.script))
  {
    SentMore(left, k, data);
    err := WriteAll(conn, data);
    if err.Some? {
      SentPart(before, left, k, data, n, conn.out);
    }
  }

  /** The loop of serve_file: whatever the short reads and writes, the client gets the bytes
      that were promised, in order, and never one more; it gets all of them if the file has
      them and nothing fails. */
  method StreamOut(file: Source, conn: Sink, count: nat)
    requires file.Valid() && conn.Valid()
    modifies file, conn
    ensures file.Valid() && conn.Valid()
    ensures var left := file.stream[old(file.cursor)..];
            Delivers(old(conn.out), conn.out, left[..Min(count, |left|)], Smooth(file.script) && Smooth(conn.script))
  {
    ghost var start, left := file.cursor, file.stream[file.cursor..];
    ghost var n := Min(count, |left|);
    var remaining := count;
    while remaining > 0
      invariant file.Valid() && conn.Valid() && start <= file.cursor
      invariant 0 <= remaining == count - (file.cursor - start)
      invariant conn.out == old(conn.out) + left[..file.cursor - start]
      decreases |file.script| - file.step, remaining
    {
      var want := if remaining < CHUNK then remaining else CHUNK;
      ghost var k := file.cursor - start;
      var r := file.Read(want);
      match r
      case Broken(e) =>
        if e != EINTR {
          CutShort(old(conn.out), left, k, n);
          return;
        }
      case End => return;
      case Chunk(data) =>
        var err := PassOn(conn, data, old(conn.out), left, k, n);
        if err.Some? {
          return;
        }
        remaining := remaining - |data|;
    }
  }

  /** The bytes of a file from `first` on, `count` of them or as many as there are. */
  function Part(stream: bytes, first: nat, count: nat): bytes {
    var left := stream[Min(first, |stream|)..];
    left[..Min(count, |left|)]
  }

  lemma WholePart(stream: bytes, first: nat, count: nat)
    requires first + count <= |stream|
    ensures Part(stream, first, count) == stream[first..first + count]
  {}

  /** serve_file: a full answer, or the selected slice, or 416 when there is a Range header that
      selects nothing; HEAD sends no body, and no more does a seek that fails. `size` is what stat
      said before the file was opened; if the file was replaced in between, the one that was
      opened may be longer or shorter. */
  method Serve(file: Source, size: nat, conn: Sink, range: Option<bytes>, head: bool) returns (status: nat)
    requires file.Valid() && file.cursor == 0 && conn.Valid() && size <= LLMAX
    modifies file, conn
    ensures status == (if range.None? then 200 else if Select(Read(range.value), size).Some? then 206 else 416)
    ensures status == 416 || head ==> conn.out == old(conn.out)
    ensures status == 200 && !head ==>
              Delivers(old(conn.out), conn.out, Part(file.stream, 0, size), Smooth(file.script) && Smooth(conn.script))
    ensures status == 206 && !head ==>
              var s := Select(Read(range.value), size).value;
              Delivers(old(conn.out), conn.out, PartOf(file.stream, s), Smooth(file.script) && Smooth(conn.script))
  {
    if range.None? {
      if !head {
        StreamOut(file, conn, size);
      }
      return 200;
    }
    var r := ParseRange(range.value, size);
    if r.None? {
      return 416;
    }
    if !head {
      var found := file.Seek(r.value.first);
      if found {
        StreamOut(file, conn, r.value.last - r.value.first + 1);
      }
    }
    return 206;
  }

  /** If the file that was opened has the size that was promised, the parts are whole. */
  lemma PartsOfSameFile(stream: bytes, h: bytes)
    ensures Part(stream, 0, |stream|) == stream
    ensures var s := Select(Read(h), |stream|);
            s.Some? ==> 0 <= s.value.first <= s.value.last < |stream|
                        && PartOf(stream, s.value) == stream[s.value.first..s.value.last + 1]
  {
    WholePart(stream, 0, |stream|);
    var s := Select(Read(h), |stream|);
    if s.Some? {
      WholePart(stream, s.value.first, s.value.last - s.value.first + 1);
    }
  }

  // --- Entity tags ------------------------------------------------------------------------------------

  /** fsapi_fmt_etag */
  function ETag(size: int, mtime: int): bytes {
    OfInt(size) + [MINUS] + OfInt(mtime)
  }

  lemma SplitAtMinus(a: bytes, b: bytes, x: bytes, y: bytes)
    requires AllDigits(a) && AllDigits(b) && a + [MINUS] + x == b + [MINUS] + y
    ensures a == b && x == y
  {
    var s := a + [MINUS] + x;
    Assoc3(a, [MINUS], x);
    Assoc3(b, [MINUS], y);
    DigitsOf(a, [MINUS] + x);
    DigitsOf(b, [MINUS] + y);
    assert s[..|a|] == a && s[..|b|] == b;
    assert s[|a| + 1..] == x && s[|b| + 1..] == y;
  }

  /** Two files have the same tag only if both size and modification time agree. */
  lemma TagTellsApart(size1: nat, mtime1: int, size2: nat, mtime2: int)
    ensures ETag(size1, mtime1) == ETag(size2, mtime2) <==> size1 == size2 && mtime1 == mtime2
  {
    if ETag(size1, mtime1) == ETag(size2, mtime2) {
      SplitAtMinus(OfNat(size1), OfNat(size2), OfInt(mtime1), OfInt(mtime2));
      OfNatInjective(size1, size2);
      OfIntInjective(mtime1, mtime2);
    }
  }

  /** The tag reads as the size, a dash, and the time. */
  lemma TagReadsBack(size: nat, mtime: int)
    ensures var t, k := ETag(size, mtime), NumeralEnd(ETag(size, mtime));
            && Unbounded(t) == size && k < |t| && t[k] == MINUS
            && NumeralEnd(t[k + 1..]) == |t| - k - 1 > 0 && Unbounded(t[k + 1..]) == mtime
  {
    IntReadsBack(mtime);
    DashBetween(OfNat(size), OfInt(mtime));
    ValueOfNat(size);
  }

  lemma DashBetween(ds: bytes, rest: bytes)
    requires ds != [] && AllDigits(ds)
    ensures var t := ds + [MINUS] + rest;
            && NumeralEnd(t) == |ds| && Unbounded(t) == Decimal.Value(ds)
            && t[|ds|] == MINUS && t[|ds| + 1..] == rest
  {
    assert ds + [MINUS] + rest == ds + ([MINUS] + rest);
    assert ([MINUS] + rest)[0] == MINUS;
    PlainNumeral(ds, [MINUS] + rest);
  }

  /** `s` without its double quotes. */
  function Unquote(s: bytes): bytes {
    if s == [] then []
    else (if s[0] == QUOTE then [] else [s[0]]) + Unquote(s[1..])
  }

  /** The validator without a weak prefix. */
  function Strong(s: bytes): bytes {
    if |s| >= 2 && s[0] == 0x57 && s[1] == SLASH then s[2..] else s
  }

  const WANTCAP: nat := 80

  /** The copying loop of if_match_ok: quotes are dropped, and so is what does not fit. */
  method CopyTag(im: bytes) returns (want: bytes)
    ensures want == Unquote(Strong(im))[..Min(|Unquote(Strong(im))|, WANTCAP - 1)]
  {
    var s := Strong(im);
    var i := 0;
    want := [];
    assert s[0..] == s;
    ghost var all := [];
    while i < |s|
      invariant 0 <= i <= |s|
      invariant all + Unquote(s[i..]) == Unquote(s)
      invariant want == all[..Min(|all|, WANTCAP - 1)]
    {
      var ch := s[i];
      assert s[i..][1..] == s[i + 1..];
      i := i + 1;
      if ch != QUOTE {
        Assoc3(all, [ch], Unquote(s[i..]));
        all := all + [ch];
        if |want| + 1 < WANTCAP {
          want := want + [ch];
        }
      } else {
        assert [] + Unquote(s[i..]) == Unquote(s[i..]);
      }
    }
    assert all + [] == all;
  }

  lemma Assoc3(a: bytes, b: bytes, c: bytes)
    ensures a + (b + c) == a + b + c
  {}

  /** How long a printed number can get. */
  lemma {:induction false} OfNatLength(n: nat, k: nat)
    requires n < Pow10(k) && k > 0
    ensures |OfNat(n)| <= k
    decreases k
  {
    if n >= 10 {
      OfNatLength(n / 10, k - 1);
    }
  }

  function Pow10(k: nat): nat {
    if k == 0 then 1 else 10 * Pow10(k - 1)
  }

  lemma LongLongDigits()
    ensures 0x8000_0000_0000_0000 < Pow10(19)
  {
    assert Pow10(5) == 100000;
    assert Pow10(10) == 10000000000;
    assert Pow10(15) == 1000000000000000;
  }

  lemma TagFits(size: int, mtime: int)
    requires 0 <= size <= LLMAX && LLMIN <= mtime <= LLMAX
    ensures |ETag(size, mtime)| <= 40
  {
    LongLongDigits();
    OfNatLength(size, 19);
    OfNatLength(if mtime < 0 then -mtime else mtime, 19);
  }

  /** if_match_ok: the bounded buffers decide exactly as unbounded strings would. */
  method IfMatch(size: int, mtime: int, im: bytes) returns (ok: bool)
    requires 0 <= size <= LLMAX && LLMIN <= mtime <= LLMAX
    ensures ok <==> Unquote(Strong(im)) == ETag(size, mtime)
  {
    TagFits(size, mtime);
    var want := CopyTag(im);
    ok := want == ETag(size, mtime);
  }

  lemma {:induction false} UnquoteClean(s: bytes, rest: bytes)
    requires QUOTE !in s
    ensures Unquote(s + rest) == s + Unquote(rest)
    decreases s
  {
    if s == [] {
      assert s + rest == rest;
    } else {
      assert (s + rest)[1..] == s[1..] + rest;
      UnquoteClean(s[1..], rest);
    }
  }

  lemma TagClean(size: nat, mtime: int)
    ensures QUOTE !in ETag(size, mtime) && NUL !in ETag(size, mtime) && IsDigit(ETag(size, mtime)[0])
  {
    assert forall c <- OfNat(size) :: IsDigit(c);
    var m := if mtime < 0 then -mtime else mtime;
    assert forall c <- OfNat(m) :: IsDigit(c);
  }

  lemma SentTagReadsBack(tag: bytes)
    requires QUOTE !in tag && tag != [] && tag[0] != 0x57
    ensures var sent := [QUOTE] + tag + [QUOTE];
            Unquote(Strong(sent)) == tag && Unquote(Strong([0x57, SLASH] + sent)) == tag
  {
    var sent := [QUOTE] + tag + [QUOTE];
    UnquoteClean(tag, [QUOTE]);
    assert sent[1..] == tag + [QUOTE];
    assert [QUOTE][1..] == [] && tag + [] == tag;
    assert [] + tag == tag;
    assert ([0x57, SLASH] + sent)[2..] == sent;
  }

  /** What serve_file sends as ETag is what if_match_ok accepts for the same file, strong or
      weak, and for no other size or time. */
  lemma SentTagMatches(size: nat, mtime: int, size2: nat, mtime2: int)
    ensures var sent := [QUOTE] + ETag(size, mtime) + [QUOTE];
            && (Unquote(Strong(sent)) == ETag(size2, mtime2) <==> size == size2 && mtime == mtime2)
            && (Unquote(Strong([0x57, SLASH] + sent)) == ETag(size2, mtime2) <==> size == size2 && mtime == mtime2)
  {
    TagClean(size, mtime);
    SentTagReadsBack(ETag(size, mtime));
    TagTellsApart(size, mtime, size2, mtime2);
  }
}
