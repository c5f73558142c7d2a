/**
 Reading a request head from a socket that delivers its bytes in pieces of any size
 (http_read_request, first half, src/core/http.c).
 */
module HttpHead {
  import opened Bytes
  import opened Posix

  const BUFSIZE: nat := 65536

  /** CRLFCRLF at position `i`. */
  predicate EndAt(s: bytes, i: int) {
    0 <= i && i + 4 <= |s| && s[i] == CR && s[i + 1] == LF && s[i + 2] == CR && s[i + 3] == LF
  }

  predicate NoEnd(s: bytes) {
    forall i :: 0 <= i < |s| ==> !EndAt(s, i)
  }

  /** The head is `s[..h]`: the first blank line follows it. */
  predicate HeadIs(s: bytes, h: nat) {
    EndAt(s, h) && forall i :: 0 <= i < h ==> !EndAt(s, i)
  }

  lemma EndAtPrefix(s: bytes, n: nat, i: int)
    requires n <= |s|
    ensures EndAt(s[..n], i) <==> EndAt(s, i) && i + 4 <= n
  {}

  lemma HeadUnique(s: bytes, h: nat, k: nat)
    requires HeadIs(s, h) && HeadIs(s, k)
    ensures h == k
  {}

  datatype Outcome =
    | Head(end: nat)
    | TooLarge
    | Idle                   // the peer closed before sending anything
    | Truncated
    | ReadError(e: Errno)

  /** Where the blank line is, from `i` on. */
  function HeadEnd(s: bytes, i: nat): (h: Option<nat>)
    requires i <= |s| && forall j :: 0 <= j < i ==> !EndAt(s, j)
    ensures h.Some? ==> HeadIs(s, h.value)
    ensures h.None? ==> NoEnd(s)
    decreases |s| - i
  {
    if i == |s| then None else if EndAt(s, i) then Some(i) else HeadEnd(s, i + 1)
  }

  /** What the next read answers, and what is left of the script after it. */
  function Coming(script: seq<Answer>): Answer {
    if script == [] then Grant(BUFSIZE) else script[0]
  }

  function Later(script: seq<Answer>): seq<Answer> {
    if script == [] then [] else script[1..]
  }

  /** How far a granted read gets. */
  function Extent(stream: bytes, len: nat, n: nat): (len': nat)
    requires len < |stream| && len < BUFSIZE
    ensures len < len' <= |stream| && len' <= BUFSIZE
  {
    len + Portion(n, BUFSIZE - len, |stream| - len)
  }

  /** How a stream is read of which `len` bytes have come, when the reads to follow are answered
      as `script` says: interrupted, refused, or granted with so many bytes. */
  function Reading(stream: bytes, len: nat, script: seq<Answer>): Outcome
    requires len <= |stream| && len <= BUFSIZE
    decreases BUFSIZE - len, |script|
  {
    var h := HeadEnd(stream[..len], 0);
    if h.Some? then Head(h.value)
    else if len >= BUFSIZE - 1 then TooLarge
    else
      match Coming(script)
      case Refuse(e) => if e == EINTR then Reading(stream, len, Later(script)) else ReadError(e)
      case Grant(n) =>
        if len < |stream| then Reading(stream, Extent(stream, len, n), Later(script))
        else if len == 0 then Idle else Truncated
  }

  /** One read's answer, as the loop meets it. */
  lemma AfterAnswer(stream: bytes, len: nat, script: seq<Answer>, step: nat)
    requires len <= |stream| && len < BUFSIZE - 1 && step <= |script| && HeadEnd(stream[..len], 0).None?
    ensures var answer := if step < |script| then script[step] else Grant(BUFSIZE - len);
            var rest := script[Min(step + 1, |script|)..];
            Reading(stream, len, script[step..]) ==
            match answer
            case Refuse(e) => if e == EINTR then Reading(stream, len, rest) else ReadError(e)
            case Grant(n) =>
              if len < |stream| then Reading(stream, len + Portion(n, BUFSIZE - len, |stream| - len), rest)
              else if len == 0 then Idle else Truncated
  {
    assert Later(script[step..]) == script[Min(step + 1, |script|)..];
  }

  lemma AfterRead(
      stream: bytes, len: nat, script: seq<Answer>, step: nat, answer: Answer, got: Input, cursor: nat)
    requires len <= cursor <= |stream| && len < BUFSIZE - 1 && step <= |script|
    requires HeadEnd(stream[..len], 0).None? && answer == if step < |script| then script[step] else Grant(BUFSIZE - len)
    requires match got
             case Chunk(data) =>
               answer.Grant? && len < cursor && cursor == len + Portion(answer.n, BUFSIZE - len, |stream| - len)
             case End => answer.Grant? && len == |stream|
             case Broken(e) => answer == Refuse(e)
    ensures cursor <= BUFSIZE || !got.Chunk?
    ensures Reading(stream, len, script[step..]) ==
            match got
            case Chunk(_) => Reading(stream, cursor, script[Min(step + 1, |script|)..])
            case End => if len == 0 then Idle else Truncated
            case Broken(e) =>
              if e == EINTR then Reading(stream, len, script[Min(step + 1, |script|)..]) else ReadError(e)
  {
    AfterAnswer(stream, len, script, step);
  }

  /** One of those reads ends after exactly 65535 bytes. */
  function StopsShort(stream: bytes, len: nat, script: seq<Answer>): bool
    requires len <= |stream| && len <= BUFSIZE
    decreases BUFSIZE - len, |script|
  {
    if len >= BUFSIZE - 1 then len == BUFSIZE - 1
    else
      match Coming(script)
      case Refuse(e) => e == EINTR && StopsShort(stream, len, Later(script))
      case Grant(n) => len < |stream| && StopsShort(stream, Extent(stream, len, n), Later(script))
  }

  /** What reading leads to when no read fails, from the stream alone: `stopped` says whether
      one of the reads happened to end after exactly 65535 bytes. */
  ghost predicate Leads(stream: bytes, stopped: bool, r: Outcome) {
    match r
    case Head(h) => HeadIs(stream, h) && h + 4 <= (if stopped then BUFSIZE - 1 else BUFSIZE)
    case TooLarge =>
      && |stream| >= BUFSIZE - 1
      && (if stopped then NoEnd(stream[..BUFSIZE - 1]) else |stream| >= BUFSIZE && NoEnd(stream[..BUFSIZE]))
    case Idle => stream == []
    case Truncated => stream != [] && |stream| < BUFSIZE - 1 && NoEnd(stream)
    case ReadError(_) => false
  }

  /** Of all the cuts that a script makes, only that one matters. */
  lemma {:induction false} ReadingLeads(stream: bytes, len: nat, script: seq<Answer>)
    requires len <= |stream| && len <= BUFSIZE
    ensures var r := Reading(stream, len, script);
            if r.ReadError? then Refuse(r.e) in script && r.e != EINTR
            else Leads(stream, StopsShort(stream, len, script), r)
    decreases BUFSIZE - len, |script|
  {
    var h := HeadEnd(stream[..len], 0);
    if h.Some? {
      ScannedPrefix(stream, len, h.value);
    } else if len < BUFSIZE - 1 {
      match Coming(script)
      case Refuse(e) =>
        if e == EINTR {
          ReadingLeads(stream, len, Later(script));
        }
      case Grant(n) =>
        if len < |stream| {
          ReadingLeads(stream, Extent(stream, len, n), Later(script));
        } else {
          assert stream[..len] == stream;
        }
    }
  }

  /** The outcome is determined by the stream and, for heads of the full buffer size or none
      at all, by whether some read stopped one byte short of the buffer's end. */
  lemma LeadsOneWay(stream: bytes, stopped: bool, r1: Outcome, r2: Outcome)
    requires Leads(stream, stopped, r1) && Leads(stream, stopped, r2)
    ensures r1 == r2
  {
    if r1.Head? && r2.Head? {
      HeadUnique(stream, r1.end, r2.end);
    } else if r1.Head? && !r2.Idle? && r2.TooLarge? {
      EndAtPrefix(stream, if stopped then BUFSIZE - 1 else BUFSIZE, r1.end);
    } else if r2.Head? && r1.TooLarge? {
      EndAtPrefix(stream, if stopped then BUFSIZE - 1 else BUFSIZE, r2.end);
    }
  }

  /** What a head that ends after `n` bytes leads to, by the last byte that can be looked at. */
  lemma HeadLeads(stream: bytes, h: nat, stopped: bool, r: Outcome)
    requires HeadIs(stream, h) && Leads(stream, stopped, r)
    ensures r == if h + 4 <= (if stopped then BUFSIZE - 1 else BUFSIZE) then Head(h) else TooLarge
  {
    var limit := if stopped then BUFSIZE - 1 else BUFSIZE;
    if r.Head? {
      HeadUnique(stream, h, r.end);
    }
    if |stream| >= limit {
      EndAtPrefix(stream, limit, h);
    }
  }

  /** However reads are cut short or interrupted, the stream is read the same way. */
  ghost predicate OneOutcome(stream: bytes) {
    forall s1, s2 :: Smooth(s1) && Smooth(s2) ==> Reading(stream, 0, s1) == Reading(stream, 0, s2)
  }

  /** The outcome for a stream with a head, for any script. */
  lemma HeadIsRead(stream: bytes, h: nat, script: seq<Answer>)
    requires HeadIs(stream, h) && Smooth(script)
    ensures Reading(stream, 0, script) ==
            if h + 4 < BUFSIZE || (h + 4 == BUFSIZE && !StopsShort(stream, 0, script)) then Head(h) else TooLarge
  {
    ReadingLeads(stream, 0, script);
    HeadLeads(stream, h, StopsShort(stream, 0, script), Reading(stream, 0, script));
  }

  /** Chunk independence, exactly: however a stream with a head is cut into reads, it is read the
      same way, if and only if the head does not end with the very last byte of the buffer. */
  lemma SplitIrrelevantExactly(stream: bytes, h: nat)
    requires HeadIs(stream, h)
    ensures OneOutcome(stream) <==> h + 4 != BUFSIZE
  {
    forall script | Smooth(script) && h + 4 != BUFSIZE
      ensures Reading(stream, 0, script) == if h + 4 < BUFSIZE then Head(h) else TooLarge
    {
      HeadIsRead(stream, h, script);
    }
    if h + 4 == BUFSIZE {
      SplitMatters(stream, h);
      assert Smooth([]) && Smooth([Grant(BUFSIZE - 1)]);
    }
  }

  /** A stream without a blank line is read the same way however it is cut. */
  lemma NoHeadOneOutcome(stream: bytes)
    requires NoEnd(stream)
    ensures OneOutcome(stream)
  {
    forall script | Smooth(script)
      ensures Reading(stream, 0, script) ==
              if |stream| >= BUFSIZE - 1 then TooLarge else if stream == [] then Idle else Truncated
    {
      ReadingLeads(stream, 0, script);
    }
  }

  /** Every blank line that ends exactly at byte 65536: it is found if one read brings all, and
      the head is too large if a read stops a byte before it. */
  lemma SplitMatters(stream: bytes, h: nat)
    requires HeadIs(stream, h) && h + 4 == BUFSIZE
    ensures Reading(stream, 0, []) == Head(h)
    ensures Reading(stream, 0, [Grant(BUFSIZE - 1)]) == TooLarge
  {
    StopsOnlyThere(stream);
    HeadIsRead(stream, h, []);
    HeadIsRead(stream, h, [Grant(BUFSIZE - 1)]);
  }

  lemma StopsOnlyThere(stream: bytes)
    requires |stream| >= BUFSIZE
    ensures !StopsShort(stream, 0, []) && StopsShort(stream, 0, [Grant(BUFSIZE - 1)])
  {
    assert Extent(stream, 0, BUFSIZE) == BUFSIZE;
    assert Extent(stream, 0, BUFSIZE - 1) == BUFSIZE - 1;
  }

  /** There are such streams. */
  lemma SplitCanMatter() returns (stream: bytes)
    ensures |stream| == BUFSIZE && HeadIs(stream, BUFSIZE - 4)
  {
    var x: byte := 0x61;
    stream := seq(BUFSIZE - 4, _ => x) + [CR, LF, CR, LF];
    forall i | 0 <= i < BUFSIZE - 4
      ensures !EndAt(stream, i)
    {
      assert stream[i] == x;
    }
  }

  /** http_conn */
  class Conn {
    const sock: Source
    const buf: array<byte>
    var len: nat
    var pos: nat

    /** Nothing received is lost or out of place. */
    ghost predicate Valid()
      reads this, buf, sock
    {
      && sock.Valid() && buf.Length == BUFSIZE
      && len == sock.cursor <= BUFSIZE && pos <= len
      && buf[..len] == sock.stream[..len]
    }

    /** http_conn_init on a socket from which nothing has been read */
    constructor (sock: Source)
      requires sock.Valid() && sock.cursor == 0
      ensures Valid() && this.sock == sock && len == 0 && pos == 0 && fresh(buf)
    {
      this.sock := sock;
      buf := new byte[BUFSIZE](_ => NUL);
      len, pos := 0, 0;
    }

    /** What is going to be read in the end. */
    ghost function Ahead(): Outcome
      reads this, buf, sock
      requires Valid()
    {
      Reading(sock.stream, len, sock.script[sock.step..])
    }

    /** The scan for the blank line, from the start of the buffer each time. */
    method Scan() returns (h: Option<nat>)
      requires Valid()
      ensures h.Some? ==> HeadIs(buf[..len], h.value)
      ensures h.None? ==> NoEnd(buf[..len])
    {
      var i := 0;
      while i + 3 < len
        invariant 0 <= i <= len
        invariant forall j :: 0 <= j < i ==> !EndAt(buf[..len], j)
      {
        if buf[i] == CR && buf[i + 1] == LF && buf[i + 2] == CR && buf[i + 3] == LF {
          return Some(i);
        }
        i := i + 1;
      }
      return None;
    }

    /** read() for the rest of the buffer, repeated while interrupted. */
    method Retry() returns (got: Input)
      requires Valid() && len < BUFSIZE - 1 && HeadEnd(sock.stream[..len], 0).None?
      modifies sock
      ensures sock.Valid() && len <= sock.cursor <= BUFSIZE && (got.Chunk? <==> len < sock.cursor)
      ensures got.Chunk? ==> got.data == sock.stream[len..sock.cursor]
      ensures old(Ahead()) == (match got
                               case Chunk(_) => Reading(sock.stream, sock.cursor, sock.script[sock.step..])
                               case End => if len == 0 then Idle else Truncated
                               case Broken(e) => ReadError(e))
    {
      while true
        invariant sock.Valid() && len == sock.cursor
        invariant Reading(sock.stream, len, sock.script[sock.step..]) == old(Ahead())
        decreases |sock.script| - sock.step
      {
        ghost var answer, step := sock.Next(BUFSIZE - len), sock.step;
        got := sock.Read(BUFSIZE - len);
        AfterRead(sock.stream, len, sock.script, step, answer, got, sock.cursor);
        if got != Broken(EINTR) {
          return;
        }
      }
    }

    /** What came goes into the buffer. */
    method Receive() returns (got: Input)
      requires Valid() && len < BUFSIZE - 1 && HeadEnd(sock.stream[..len], 0).None?
      modifies this`len, buf, sock
      ensures Valid() && len >= old(len) && (got.Chunk? <==> len > old(len))
      ensures old(Ahead()) == (match got
                               case Chunk(_) => Ahead()
                               case End => if len == 0 then Idle else Truncated
                               case Broken(e) => ReadError(e))
    {
      got := Retry();
      if got.Chunk? {
        Append(got.data);
      }
    }

    method Append(data: bytes)
      requires sock.Valid() && buf.Length == BUFSIZE && len + |data| == sock.cursor <= BUFSIZE && pos <= len
      requires buf[..len] == sock.stream[..len] && data == sock.stream[len..sock.cursor]
      modifies this`len, buf
      ensures Valid() && len == old(len) + |data|
    {
      var i := 0;
      while i < |data|
        invariant 0 <= i <= |data|
        invariant buf[..len] == sock.stream[..len] && buf[len..len + i] == data[..i]
        modifies buf
      {
        buf[len + i] := data[i];
        i := i + 1;
      }
      assert buf[..len + |data|] == buf[..len] + buf[len..len + |data|];
      len := len + |data|;
    }

    /** The loop of http_read_request that fills the buffer until the head is complete. */
    method ReadHead() returns (r: Outcome)
      requires Valid() && len == 0 && sock.step == 0
      modifies this`len, buf, sock
      ensures Valid()
      ensures r == Reading(sock.stream, 0, sock.script)
      ensures r.Head? ==> HeadIs(buf[..len], r.end) && HeadIs(sock.stream, r.end)
    {
      while true
        invariant Valid() && Ahead() == old(Ahead())
        decreases BUFSIZE - len
      {
        var h := Scan();
        ScanIsHeadEnd(sock.stream[..len], h);
        if h.Some? {
          ScannedPrefix(sock.stream, len, h.value);
          return Head(h.value);
        }
        if len >= BUFSIZE - 1 {
          return TooLarge;
        }
        var got := Receive();
        match got
        case Broken(e) => return ReadError(e);
        case End =>
          return if len == 0 then Idle else Truncated;
        case Chunk(_) =>
      }
    }
  }

  lemma ScanIsHeadEnd(s: bytes, h: Option<nat>)
    requires if h.Some? then HeadIs(s, h.value) else NoEnd(s)
    ensures h == HeadEnd(s, 0)
  {
    if h.Some? && HeadEnd(s, 0).Some? {
      HeadUnique(s, h.value, HeadEnd(s, 0).value);
    }
  }

  lemma ScannedPrefix(stream: bytes, n: nat, h: nat)
    requires n <= |stream| && HeadIs(stream[..n], h)
    ensures HeadIs(stream, h) && h + 4 <= n
  {
    EndAtPrefix(stream, n, h);
    forall i | 0 <= i < h
      ensures !EndAt(stream, i)
    {
      EndAtPrefix(stream, n, i);
    }
  }
}
