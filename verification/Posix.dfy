/**
 The operating system as the daemon meets it: error numbers, and descriptors whose calls
 may be cut short, interrupted or refused. What a descriptor answers is decided in advance
 by a finite script, so that a property proved for every script holds for every schedule of
 short transfers, interruptions and failures (a script that has run out grants every call).
 */
module Posix {
  import opened Bytes

  datatype Errno =
    | EINTR | EBUSY | ENOENT | EACCES | EEXIST | EISDIR | ENOTDIR | ENOTEMPTY | EINVAL
    | ENAMETOOLONG | ELOOP | ECONNRESET | EIO(code: nat)

  /** One answer of the operating system: up to `n` bytes are transferred, or the call fails. */
  datatype Answer = Grant(n: nat) | Refuse(e: Errno)

  datatype Transfer = Moved(n: nat) | Failed(e: Errno)

  datatype Input = Chunk(data: bytes) | End | Broken(e: Errno)

  /** Nothing refused for any other reason than a signal. */
  predicate Smooth(script: seq<Answer>) {
    forall a <- script :: a.Refuse? ==> a.e == EINTR
  }

  /** How many bytes a read moves that is granted `n` of the `want` it asks for. */
  function Portion(n: nat, want: nat, left: nat): nat {
    Min(Min(if n == 0 then 1 else n, want), left)
  }

  /** A descriptor that bytes are read from: a socket, or an open regular file. */
  class Source {
    const stream: bytes         // everything the peer will ever send, or the file's bytes
    const script: seq<Answer>
    var cursor: nat             // bytes of `stream` already handed out
    var step: nat               // answers of `script` already used

    ghost predicate Valid()
      reads this
    {
      cursor <= |stream| && step <= |script|
    }

    constructor (stream: bytes, script: seq<Answer>)
      ensures Valid() && this.stream == stream && this.script == script
      ensures cursor == 0 && step == 0
    {
      this.stream, this.script, cursor, step := stream, script, 0, 0;
    }

    /** lseek(fd, offset, SEEK_SET), which no signal interrupts; past the end there is nothing to
        read. */
    method Seek(offset: nat) returns (ok: bool)
      requires Valid()
      modifies this
      ensures Valid()
      ensures ok ==> cursor == Min(offset, |stream|)
      ensures !ok ==> !Smooth(script)
    {
      if step < |script| && script[step].Refuse? && script[step].e != EINTR {
        step := step + 1;
        return false;
      }
      cursor := Min(offset, |stream|);
      return true;
    }

    /** What the script answers next; when it has run out everything is granted. */
    function Next(want: nat): Answer
      reads this
      requires Valid()
    {
      if step < |script| then script[step] else Grant(want)
    }

    /** read(2): at least one byte and at most `want`, or end of file, or an error. */
    method Read(want: nat) returns (r: Input)
      requires Valid() && want > 0
      modifies this
      ensures Valid() && old(cursor) <= cursor && step == Min(old(step) + 1, |script|)
      ensures r.Chunk? ==> 0 < |r.data| <= want && r.data == stream[old(cursor)..cursor]
      ensures r.Chunk? ==> old(Next(want)).Grant?
                           && |r.data| == Portion(old(Next(want)).n, want, |stream| - old(cursor))
      ensures r.End? ==> cursor == old(cursor) == |stream| && old(Next(want)).Grant?
      ensures !r.Chunk? ==> cursor == old(cursor)
      ensures r.Broken? ==> step > old(step) && Refuse(r.e) in script && old(Next(want)) == Refuse(r.e)
    {
      var answer := Next(want);
      if step < |script| {
        step := step + 1;
      }
      match answer
      case Refuse(e) => return Broken(e);
      case Grant(m) =>
        if cursor == |stream| {
          return End;
        }
        var n := Portion(m, want, |stream| - cursor);
        r := Chunk(stream[cursor..cursor + n]);
        cursor := cursor + n;
    }
  }

  /** A descriptor that bytes are written to. */
  class Sink {
    const script: seq<Answer>
    var out: bytes              // every byte that has landed so far
    var step: nat

    ghost predicate Valid()
      reads this
    {
      step <= |script|
    }

    constructor (script: seq<Answer>)
      ensures Valid() && this.script == script && out == [] && step == 0
    {
      this.script, out, step := script, [], 0;
    }

    /** write(2): some prefix of `data` lands, or nothing does and the call fails. */
    method Write(data: bytes) returns (r: Transfer)
      requires Valid() && data != []
      modifies this
      ensures Valid() && old(step) <= step
      ensures r.Moved? ==> r.n <= |data| && out == old(out) + data[..r.n] && (r.n > 0 || step > old(step))
      ensures r.Failed? ==> out == old(out) && step > old(step) && Refuse(r.e) in script
    {
      var n := |data|;
      if step < |script| {
        step := step + 1;
        match script[step - 1]
        case Refuse(e) => return Failed(e);
        case Grant(m) => n := Min(m, |data|);
      }
      out := out + data[..n];
      return Moved(n);
    }
  }
}
