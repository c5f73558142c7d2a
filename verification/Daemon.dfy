/**
 A PUT from the first byte on the socket to the name in the share (serve_conn and the PUT arm
 of dispatch_fs in src/core/unasd.c): the head reader, the conditions, the publication.
 */
module Daemon {
  import opened Bytes
  import opened Posix
  import opened HttpHead
  import opened HttpRequest
  import opened Publication
  import HttpParse
  import Ranges
  import Strtoll

  /** What stat told about the target, if it was there. */
  datatype Stat = Stat(dir: bool, size: int, mtime: int)

  datatype Reply =
    | NoRequest                  // nothing to answer, or a 400 for the head
    | Answer(status: nat)        // refused before anything was touched
    | Stored(status: nat)
    | Failure(e: Errno, lost: bool)   // fsapi_write_stream failed; `lost`: 412, some name was taken

  /** "If-None-Match", "If-Match" */
  const IFNONEMATCH: bytes := [0x49, 0x66, 0x2D, 0x4E, 0x6F, 0x6E, 0x65, 0x2D, 0x4D, 0x61, 0x74, 0x63, 0x68]
  const IFMATCH: bytes := [0x49, 0x66, 0x2D, 0x4D, 0x61, 0x74, 0x63, 0x68]
  const STAR: bytes := [0x2A]

  predicate CreateOnly(r: HttpParse.Request) {
    HttpParse.Get(r.headers, IFNONEMATCH) == Some(STAR)
  }

  predicate IsDir(st: Option<Stat>) {
    st.Some? && st.value.dir
  }

  /** The conditions the request puts on what is at the target. */
  predicate Met(r: HttpParse.Request, st: Option<Stat>) {
    var im := HttpParse.Get(r.headers, IFMATCH);
    && (CreateOnly(r) ==> st.None?)
    && (im.Some? ==> st.Some? && Ranges.Unquote(Ranges.Strong(im.value)) == Ranges.ETag(st.value.size, st.value.mtime))
  }

  /** Nothing stands against the upload. */
  predicate Allowed(r: HttpParse.Request, st: Option<Stat>) {
    !IsDir(st) && Met(r, st) && r.length >= 0
  }

  /** The status of a refusal says what stood against it, the first of these. */
  predicate Refuses(r: HttpParse.Request, st: Option<Stat>, status: nat) {
    || (status == 409 && IsDir(st))
    || (status == 412 && !IsDir(st) && !Met(r, st))
    || (status == 411 && !IsDir(st) && Met(r, st) && r.length < 0)
  }

  // What the conditions come to, for the headers a client can send.

  /** No condition: anything but a directory may be written. */
  lemma Unconditional(r: HttpParse.Request, st: Option<Stat>)
    requires HttpParse.Get(r.headers, IFNONEMATCH).None? && HttpParse.Get(r.headers, IFMATCH).None?
    ensures Allowed(r, st) <==> !IsDir(st) && r.length >= 0
  {}

  /** If-None-Match: * lets nothing pass but what is not there. */
  lemma OnlyIfAbsent(r: HttpParse.Request, st: Option<Stat>)
    requires HttpParse.Get(r.headers, IFNONEMATCH) == Some(STAR)
    ensures Allowed(r, st) ==> st.None?
    ensures HttpParse.Get(r.headers, IFMATCH).None? ==> (Allowed(r, st) <==> st.None? && r.length >= 0)
  {}

  /** If-Match with a tag the daemon has sent, strong or weak, lets just the file pass that it
      was sent for, as long as its size and time are the same. */
  lemma OnlyIfUnchanged(r: HttpParse.Request, st: Option<Stat>, size: nat, mtime: int, weak: bool)
    requires HttpParse.Get(r.headers, IFNONEMATCH).None? && (st.Some? ==> st.value.size >= 0)
    requires HttpParse.Get(r.headers, IFMATCH)
             == Some((if weak then [0x57, SLASH] else []) + ([QUOTE] + Ranges.ETag(size, mtime) + [QUOTE]))
    ensures Allowed(r, st) <==>
              st.Some? && !st.value.dir && st.value.size == size && st.value.mtime == mtime && r.length >= 0
  {
    var sent := [QUOTE] + Ranges.ETag(size, mtime) + [QUOTE];
    assert [] + sent == sent;
    if st.Some? {
      Ranges.SentTagMatches(size, mtime, st.value.size, st.value.mtime);
    }
  }

  predicate InRange(st: Stat) {
    0 <= st.size <= Strtoll.LLMAX && Strtoll.LLMIN <= st.mtime <= Strtoll.LLMAX
  }

  /** If-None-Match and If-Match */
  method Conditions(r: Request, st: Option<Stat>) returns (met: bool, excl: bool)
    requires st.Some? ==> InRange(st.value)
    ensures met <==> Met(r.Model(), st)
    ensures excl == CreateOnly(r.Model())
  {
    var inm := r.Lookup(IFNONEMATCH);
    var im := r.Lookup(IFMATCH);
    excl := inm == Some(STAR);
    if excl && st.Some? {
      return false, excl;
    }
    if im.Some? {
      if st.None? {
        return false, excl;
      }
      met := Ranges.IfMatch(st.value.size, st.value.mtime, im.value);
      return;
    }
    return true, excl;
  }

  /** The checks before the upload, in their order; the status of the first that fails. */
  method Gate(r: Request, st: Option<Stat>) returns (refused: Option<nat>, excl: bool)
    requires st.Some? ==> InRange(st.value)
    ensures refused.None? <==> Allowed(r.Model(), st)
    ensures refused.None? ==> excl == CreateOnly(r.Model())
    ensures refused.Some? ==> Refuses(r.Model(), st, refused.value)
  {
    if st.Some? && st.value.dir {
      return Some(409), false;
    }
    var met;
    met, excl := Conditions(r, st);
    if !met {
      return Some(412), excl;
    }
    return if r.length < 0 then Some(411) else None, excl;
  }

  /** The body is what follows the blank line, wherever the buffer ends. */
  lemma BodyFollowsHead(stream: bytes, at: nat, len: nat, length: nat)
    requires at <= len <= |stream|
    ensures at + length <= |stream| <==> |stream[at..len]| + |stream[len..]| >= length
    ensures at + length <= |stream| ==> Body(stream[at..len], stream[len..], length) == stream[at..at + length]
    ensures AfterBody(len, stream[at..len], length) == if len >= at + length then len else at + length
  {
    assert stream[at..len] + stream[len..] == stream[at..];
  }

  /** Exactly the body is stored, and nothing was taken from the socket past it, except for
      what came with the head. */
  ghost predicate BodyStored(sock: Source, body: nat, length: int, buffered: nat, out: bytes)
    reads sock
  {
    && 0 <= length && body + length <= |sock.stream| && out == sock.stream[body..body + length]
    && sock.cursor == (if buffered >= body + length then buffered else body + length)
  }

  /** The calls on paths that an upload makes, when all goes well. */
  function Plan(path: bytes, unique: bytes, excl: bool): seq<Asked> {
    var tmp := TempIn(ParentOf(path), unique);
    PlanToOpen(path, tmp) + PlanToPublish(path, tmp, excl)
  }

  /** Some call was refused, or the stream ends before byte `end`. */
  ghost predicate Excused(e: Errno, script: seq<Option<Errno>>, sock: Source, file: Sink, end: int) {
    Some(e) in script || Refused(e, sock.script) || Refused(e, file.script) || (e == ECONNRESET && |sock.stream| < end)
  }

  /** The upload proper. */
  method Upload(c: Conn, length: nat, excl: bool, path: bytes, unique: bytes, script: seq<Option<Errno>>, file: Sink)
    returns (err: Option<Errno>, ghost job: Job, ghost trace: seq<Call>, ghost asked: seq<Asked>)
    requires c.Valid() && file.Valid() && file.out == []
    modifies c.sock, file
    ensures job.Upload? && job.length == length && job.excl == excl
    ensures Trail(job, trace) == Some(Done(err)) && Balanced(trace) && (HasNamed(trace) <==> err.None?)
    ensures err.Some? ==> CleansUp(trace)
    ensures Followed([], asked, Plan(path, unique, excl), TempIn(ParentOf(path), unique), err)
    ensures err.None? ==> BodyStored(c.sock, c.pos, length, c.len, file.out)
    ensures err.Some? ==> Excused(err.value, script, c.sock, file, c.pos + length)
    ensures |c.sock.stream| < c.pos + length ==> err.Some?
  {
    var prefix := c.buf[c.pos..c.len];
    assert prefix == c.buf[..c.len][c.pos..] == c.sock.stream[c.pos..c.len];
    BodyFollowsHead(c.sock.stream, c.pos, c.len, length);
    err, job, trace, asked := Write(c.sock, prefix, length, excl, path, unique, script, file);
  }

  /** The call of fsapi_write_stream, with what it does on the way. */
  method Write(
      sock: Source, prefix: bytes, length: nat, excl: bool, path: bytes, unique: bytes,
      script: seq<Option<Errno>>, file: Sink)
    returns (err: Option<Errno>, ghost job: Job, ghost trace: seq<Call>, ghost asked: seq<Asked>)
    requires sock.Valid() && file.Valid() && file.out == []
    modifies sock, file
    ensures job.Upload? && job.length == length && job.excl == excl
    ensures Trail(job, trace) == Some(Done(err)) && Balanced(trace) && (HasNamed(trace) <==> err.None?)
    ensures err.Some? ==> CleansUp(trace)
    ensures Followed([], asked, Plan(path, unique, excl), TempIn(ParentOf(path), unique), err)
    ensures var end := AfterBody(old(sock.cursor), prefix, length);
            && (err.None? ==> sock.cursor == end <= |sock.stream|
                              && |prefix| + |sock.stream[old(sock.cursor)..]| >= length
                              && file.out == Body(prefix, sock.stream[old(sock.cursor)..], length))
            && (err.Some? ==> Excused(err.value, script, sock, file, end))
            && (|sock.stream| < end ==> err.Some?)
  {
    var k := new Kernel(Job.Upload(prefix, length, excl), script);
    err := WriteStream(k, path, unique, sock, file, prefix, length, excl);
    job, trace, asked := k.log.job, k.log.trace, k.asked;
    assert Faithful(k.log);
  }

  /** What an answer to a PUT means. */
  ghost predicate Truthful(r: HttpParse.Request, st: Option<Stat>, reply: Reply, trace: seq<Call>) {
    && (reply.Stored? <==> HasNamed(trace)) && Balanced(trace)
    && !Calls(trace, if CreateOnly(r) then Rename else Link)
    && (reply.Stored? || reply.Failure? <==> Allowed(r, st))
    && (reply.Stored? ==> reply.status == (if st.Some? then 200 else 201) && Synced(trace))
    && (reply.Answer? ==> trace == [] && Refuses(r, st, reply.status))
    && (reply.Failure? ==> (reply.lost <==> CreateOnly(r) && reply.e == EEXIST) && CleansUp(trace))
    && (Plausible(trace) ==> (reply.Failure? && reply.lost <==> CreateOnly(r) && FoundTaken(trace)))
  }

  /** The directory has been synced after the name was bound. */
  predicate Synced(trace: seq<Call>) {
    && trace != [] && trace[|trace| - 1].Did? && trace[|trace| - 1].op == SyncDir
    && HasNamed(trace[..|trace| - 1])
  }

  /** What was asked of the file system on the way to an answer. */
  ghost predicate Asks(reply: Reply, asked: seq<Asked>, path: bytes, unique: bytes, excl: bool) {
    match reply
    case Stored(_) => asked == Plan(path, unique, excl)
    case Failure(e, _) => Followed([], asked, Plan(path, unique, excl), TempIn(ParentOf(path), unique), Some(e))
    case _ => asked == []
  }

  /** The PUT arm, once the head has been parsed: the body begins at c.pos. */
  method Respond(
      c: Conn, r: Request, path: bytes, unique: bytes, st: Option<Stat>, script: seq<Option<Errno>>, file: Sink)
    returns (reply: Reply, ghost trace: seq<Call>, ghost asked: seq<Asked>)
    requires c.Valid() && file.Valid() && file.out == [] && (st.Some? ==> InRange(st.value))
    modifies c.sock, file
    ensures !reply.NoRequest? && Truthful(r.Model(), st, reply, trace)
    ensures Asks(reply, asked, path, unique, CreateOnly(r.Model()))
    ensures reply.Stored? ==> BodyStored(c.sock, c.pos, r.length, c.len, file.out)
    ensures reply.Failure? ==> Excused(reply.e, script, c.sock, file, c.pos + r.length)
    ensures |c.sock.stream| < c.pos + r.length ==> !reply.Stored?
    ensures reply.Answer? ==> file.out == []
  {
    trace, asked := [], [];
    var refused, excl := Gate(r, st);
    if refused.Some? {
      return Answer(refused.value), trace, asked;
    }
    var err;
    ghost var job;
    err, job, trace, asked := Upload(c, r.length, excl, path, unique, script, file);
    reply := if err.Some? then Failure(err.value, excl && err.value == EEXIST)
             else Stored(if st.Some? then 200 else 201);
    UploadIsTruthful(r.Model(), st, reply, job, trace, err);
  }

  lemma UploadIsTruthful(
      r: HttpParse.Request, st: Option<Stat>, reply: Reply, job: Job, trace: seq<Call>, err: Option<Errno>)
    requires Allowed(r, st) && job.Upload? && job.excl == CreateOnly(r) && Trail(job, trace) == Some(Done(err))
    requires Balanced(trace) && (HasNamed(trace) <==> err.None?) && (err.Some? ==> CleansUp(trace))
    requires reply == if err.Some? then Failure(err.value, job.excl && err.value == EEXIST)
                      else Stored(if st.Some? then 200 else 201)
    ensures Truthful(r, st, reply, trace)
  {
    OneWayToPublish(job, trace);
    if err.None? {
      SyncedAfterNaming(job, trace);
    }
    if Plausible(trace) {
      if job.excl {
        ExistsExactly(job, trace, err);
      }
    }
  }

  lemma SyncedAfterNaming(job: Job, trace: seq<Call>)
    requires Trail(job, trace) == Some(Done(None))
    ensures Synced(trace)
  {
    AcknowledgedIsSynced(job, trace);
    var m := if job.Upload? && job.excl then 3 else 2;
    assert Named(trace[..|trace| - 1][|trace| - m]);
  }

  /** The stream begins with a head that parses to `r`. */
  ghost predicate ReadAs(stream: bytes, end: nat, r: HttpParse.Request) {
    HeadIs(stream, end) && end <= |stream| && HttpParse.Parse(stream[..end]) == HttpParse.Ok(r)
  }

  /** What ReadRequest makes of an outcome. */
  ghost predicate Accepts(stream: bytes, o: Outcome) {
    o.Head? && o.end <= |stream| && HttpParse.Parse(stream[..o.end]).Ok?
  }

  /** Acceptance, the request and where its body begins do not depend on how the stream is cut
      into reads, if and only if the head does not end with the last byte of the buffer, or is not a
      request in the first place. */
  lemma OneRequest(stream: bytes, end: nat)
    requires HeadIs(stream, end)
    ensures (forall s1, s2 :: Smooth(s1) && Smooth(s2) && Accepts(stream, Reading(stream, 0, s1))
               ==> Reading(stream, 0, s2) == Reading(stream, 0, s1))
            <==> end + 4 != BUFSIZE || !HttpParse.Parse(stream[..end]).Ok?
  {
    forall script | Smooth(script)
      ensures Reading(stream, 0, script) in {Head(end), TooLarge}
      ensures end + 4 != BUFSIZE ==> Reading(stream, 0, script) == if end + 4 < BUFSIZE then Head(end) else TooLarge
    {
      HeadIsRead(stream, end, script);
    }
    assert Accepts(stream, Head(end)) <==> HttpParse.Parse(stream[..end]).Ok?;
    if end + 4 == BUFSIZE {
      SplitMatters(stream, end);
      assert Smooth([]) && Smooth([Grant(BUFSIZE - 1)]);
    }
  }

  /** The first part: whether a request came, and where its head ends. */
  method ReadRequest(c: Conn, r: Request) returns (o: Outcome, ok: bool)
    requires c.Valid() && c.len == 0 && c.sock.step == 0 && r.Model() == HttpParse.BLANK
    modifies r, c`len, c`pos, c.buf, c.sock
    ensures c.Valid()
    ensures ok ==> o.Head? && c.pos == o.end + 4 && ReadAs(c.sock.stream, o.end, r.Model())
    ensures o == Reading(c.sock.stream, 0, c.sock.script) && (ok <==> Accepts(c.sock.stream, o))
  {
    var p;
    o, p := r.Read(c);
    ok := o.Head? && p.Ok?;
  }

  /** One PUT of a file on a fresh connection. `path` is the resolved and checked target and `st`
      what stat says of it. For every way the peer's bytes are cut into reads, and every pattern
      of short writes, interruptions and failures:
      there is an answer exactly if a request came, and its status says what stood against it;
      success means that exactly the Content-Length bytes after the blank line were published,
      that the conditions held, and that no byte past the body was taken from the socket beyond
      what came with the head; in every other case nothing was published; and nothing but a
      refused call or a stream that ends early comes in the way of an upload that is allowed. */
  method Put(c: Conn, r: Request, path: bytes, unique: bytes, st: Option<Stat>, script: seq<Option<Errno>>, file: Sink)
    returns (reply: Reply, o: Outcome, ghost trace: seq<Call>, ghost asked: seq<Asked>)
    requires c.Valid() && c.len == 0 && c.sock.step == 0 && r.Model() == HttpParse.BLANK
    requires file.Valid() && file.out == [] && (st.Some? ==> InRange(st.value))
    modifies r, c`len, c`pos, c.buf, c.sock, file
    ensures o == Reading(c.sock.stream, 0, c.sock.script)
    ensures reply.NoRequest? <==> !Accepts(c.sock.stream, o)
    ensures !reply.NoRequest? ==> ReadAs(c.sock.stream, o.end, r.Model()) && Truthful(r.Model(), st, reply, trace)
    ensures Asks(reply, asked, path, unique, CreateOnly(r.Model()))
    ensures reply.Stored? ==> BodyStored(c.sock, o.end + 4, r.length, c.len, file.out)
    ensures reply.Failure? ==> Excused(reply.e, script, c.sock, file, o.end + 4 + r.length)
    ensures !reply.NoRequest? && |c.sock.stream| < o.end + 4 + r.length ==> !reply.Stored?
    ensures reply.Answer? || reply.NoRequest? ==> file.out == [] && trace == []
  {
    trace, asked := [], [];
    var ok;
    o, ok := ReadRequest(c, r);
    if !ok {
      return NoRequest, o, trace, asked;
    }
    reply, trace, asked := Respond(c, r, path, unique, st, script, file);
  }

  /** Nothing is refused, and the whole body comes. */
  ghost predicate Smoothly(script: seq<Option<Errno>>, sock: Source, file: Sink, end: int) {
    && (forall x <- script :: x.None?) && Smooth(sock.script) && Smooth(file.script)
    && |sock.stream| >= end
  }

  /** Then every upload that is allowed is stored, whichever way the bytes come and go. */
  lemma NothingElseFails(
      r: HttpParse.Request, st: Option<Stat>, reply: Reply, trace: seq<Call>,
      script: seq<Option<Errno>>, sock: Source, file: Sink, end: int)
    requires Truthful(r, st, reply, trace) && (reply.Failure? ==> Excused(reply.e, script, sock, file, end))
    requires Allowed(r, st) && Smoothly(script, sock, file, end)
    ensures reply.Stored?
  {
    if reply.Failure? {
      NoExcuse(reply.e, script, sock, file, end);
    }
  }

  lemma NoExcuse(e: Errno, script: seq<Option<Errno>>, sock: Source, file: Sink, end: int)
    requires Smoothly(script, sock, file, end)
    ensures !Excused(e, script, sock, file, end)
  {}
}
