/**
 json_buf in memory (src/core/jsonw.c): a buffer that grows by doubling, always ends in NUL,
 and gives up for good when an allocation fails. Every operation is proved to do to the text
 and the flags what module JsonBuilder says.
 */
module JsonBuf {
  import opened Bytes
  import opened Decimal
  import opened Utf8
  import opened Json
  import opened JsonInverse
  import opened JsonBuilder

  /** 64, 128, 256, ...: what doubling from 64 can reach. */
  predicate Doubled(cap: nat)
    decreases cap
  {
    cap == 64 || (cap > 64 && cap % 2 == 0 && Doubled(cap / 2))
  }

  /** memcpy `s` into `a` at `at`, and the NUL after it. */
  method Store(a: array<byte>, at: nat, s: bytes)
    requires at + |s| < a.Length
    modifies a
    ensures a[..at + |s|] == old(a[..at]) + s && a[at + |s|] == NUL
  {
    ghost var before := a[..at];
    var i := 0;
    while i < |s|
      invariant 0 <= i <= |s|
      invariant a[..at] == before && a[at..at + i] == s[..i]
    {
      a[at + i] := s[i];
      i := i + 1;
    }
    a[at + |s|] := NUL;
    assert a[..at + |s|] == a[..at] + a[at..at + |s|];
  }

  class Buf {
    var buf: array?<byte>
    var len: nat
    var cap: nat
    var err: bool
    var depth: nat
    var suppress: bool
    const need: array<bool>
    var grants: seq<bool>       // which of the coming allocations succeed
    ghost var oom: bool         // an allocation has failed
    ghost var copied: nat       // bytes that reallocations have moved

    ghost predicate Valid()
      reads this, buf, need
    {
      && need.Length == MAXDEPTH + 1 && depth <= MAXDEPTH
      && (oom ==> err)
      && (buf == null ==> len == cap == 0)
      && (buf != null ==>
            && buf.Length == cap && len < cap && buf[len] == NUL
            && Doubled(cap) && (cap > 64 ==> cap < 2 * (len + 1)) && copied + 64 <= cap)
    }

    /** Every allocation still to come will succeed. */
    predicate Plenty()
      reads this
    {
      forall g <- grants :: g
    }

    ghost function Text(): bytes
      reads this, buf
      requires buf != null ==> len <= buf.Length
    {
      if buf == null then [] else buf[..len]
    }

    ghost function Model(): (b: Builder)
      reads this, buf, need
      requires Valid()
      ensures Shaped(b)
    {
      Builder(Text(), err, depth, suppress, need[..])
    }

    /** jb_init */
    constructor (grants: seq<bool>)
      ensures Valid() && Model() == INIT && !oom && fresh(need) && buf == null && this.grants == grants
    {
      buf, len, cap, err, depth, suppress := null, 0, 0, false, 0, false;
      need := new bool[MAXDEPTH + 1](_ => false);
      this.grants := grants;
      oom, copied := false, 0;
    }

    /** realloc to `size` bytes, or a refusal. */
    method Realloc(size: nat) returns (nb: array?<byte>)
      requires Valid() && size > cap
      modifies this`grants
      ensures old(Plenty()) ==> Plenty() && nb != null
      ensures nb != null ==> fresh(nb) && nb.Length == size
      ensures nb != null ==> forall i :: 0 <= i < cap ==> nb[i] == buf[i]
    {
      var granted := grants == [] || grants[0];
      if grants != [] {
        assert grants[0] in grants && forall g <- grants[1..] :: g in grants;
        grants := grants[1..];
      }
      if !granted {
        return null;
      }
      var a := new byte[size](_ => NUL);
      if buf != null {
        forall i | 0 <= i < cap {
          a[i] := buf[i];
        }
      }
      return a;
    }

    /** The doubling of jb_reserve. */
    static method Enough(cap: nat, want: nat) returns (ncap: nat)
      requires cap < want && (cap == 0 || Doubled(cap))
      ensures want <= ncap && Doubled(ncap) && (ncap > 64 ==> ncap < 2 * want) && ncap >= 2 * cap
    {
      ncap := if cap != 0 then cap else 64;
      while ncap < want
        invariant Doubled(ncap) && ncap >= cap
        invariant ncap > 64 && ncap != cap ==> ncap < 2 * want
        invariant cap != 0 && ncap != cap ==> ncap >= 2 * cap
      {
        ncap := ncap * 2;
      }
    }

    /** jb_reserve */
    method Reserve(extra: nat) returns (ok: bool)
      requires Valid()
      modifies this`buf, this`cap, this`err, this`grants, this`oom, this`copied
      ensures buf == old(buf) || fresh(buf)
      ensures ok == !err && (old(err) ==> err)
      ensures oom == (old(oom) || (err && !old(err)))
      ensures old(Plenty()) ==> Plenty() && oom == old(oom)
      ensures !ok ==> Valid() && buf == old(buf) && cap == old(cap)
      ensures ok ==>
                && !oom && buf != null && buf.Length == cap && len + extra < cap
                && Doubled(cap) && (cap > 64 ==> cap < 2 * (len + extra + 1)) && copied + 64 <= cap
                && buf[..len] == old(Text()) && (old(buf) != null ==> buf[len] == NUL)
    {
      if err {
        return false;
      }
      var want := len + extra + 1;
      if want <= cap {
        return true;
      }
      var ncap := Enough(cap, want);
      var nb := Realloc(ncap);
      if nb == null {
        err, oom := true, true;
        return false;
      }
      copied := if cap == 0 then 0 else copied + cap;
      buf, cap := nb, ncap;
      return true;
    }

    /** jb_puts, and jb_putc for a single byte */
    method PutBytes(s: bytes)
      requires Valid()
      modifies this`buf, this`len, this`cap, this`err, this`grants, this`oom, this`copied, buf
      ensures Valid() && (buf == old(buf) || fresh(buf))
      ensures !oom ==> Model() == Put(old(Model()), s)
      ensures old(oom) ==> oom
      ensures old(Plenty()) ==> Plenty() && oom == old(oom)
      ensures old(err) ==> err && Text() == old(Text()) && oom == old(oom)
    {
      ghost var before := Text();
      var ok := Reserve(|s|);
      if !ok {
        return;
      }
      Store(buf, len, s);
      len := len + |s|;
    }

    /** pre_value */
    method Before()
      requires Valid()
      modifies this`buf, this`len, this`cap, this`err, this`grants, this`oom, this`copied, this`suppress, buf
      ensures Valid() && (buf == old(buf) || fresh(buf))
      ensures !oom ==> Model() == PreValue(old(Model()))
      ensures old(oom) ==> oom
      ensures old(Plenty()) ==> Plenty() && oom == old(oom)
      ensures old(err) ==> err && Text() == old(Text()) && oom == old(oom)
    {
      if suppress {
        suppress := false;
      } else if depth > 0 && need[depth] {
        PutBytes([COMMA]);
      }
    }

    /** post_value */
    method Done()
      requires Valid()
      modifies need
      ensures Valid() && Model() == PostValue(old(Model()))
    {
      if depth > 0 {
        need[depth] := true;
      }
    }

    /** push */
    method Down()
      requires Valid()
      modifies this`err, this`depth, need
      ensures Valid() && Model() == Push(old(Model()))
    {
      if depth >= MAXDEPTH {
        err := true;
      } else {
        depth := depth + 1;
        need[depth] := false;
      }
    }

    /** pop */
    method Up()
      requires Valid()
      modifies this`depth, need
      ensures Valid() && Model() == Pop(old(Model()))
    {
      if depth > 0 {
        depth := depth - 1;
      }
      Done();
    }
  
    /** The chunk emit_string writes for the character at `s[0]`, and how far it moves on. */
    static method NextChunk(s: bytes) returns (chunk: bytes, n: nat)
      requires s != []
      ensures 0 < n <= |s| && Escape(s) == chunk + Escape(s[n..])
    {
      var c := s[0];
      if c < 0x80 {
        chunk, n := EscapeAscii(c), 1;
      } else {
        n := SeqLen(s + [NUL]);
        if n == 0 {
          chunk, n := REPLACEMENT, 1;
        } else {
          chunk := s[..n];
        }
      }
    }

    /** How things stand when `done` of what `s` is escaped to has been put out, up to s[p..],
        given how they stood before. */
    ghost predicate Halfway(before: Builder, short: bool, plenty: bool, s: bytes, p: nat, done: bytes)
      reads this, buf, need
    {
      && Valid() && p <= |s| && done + Escape(s[p..]) == Escape(s)
      && (!oom ==> Model() == Put(before, done))
      && (short ==> oom) && (plenty ==> Plenty() && oom == short)
      && (before.err ==> err && Text() == before.text && oom == short)
    }

    /** One turn of the loop of emit_string; how far it moves on. */
    method EmitChunk(s: bytes, p: nat, ghost before: Builder, ghost short: bool, ghost plenty: bool, ghost done: bytes)
      returns (n: nat, ghost more: bytes)
      requires p < |s| && Halfway(before, short, plenty, s, p, done)
      modifies this`buf, this`len, this`cap, this`err, this`grants, this`oom, this`copied, buf
      ensures (buf == old(buf) || fresh(buf)) && 0 < n && p + n <= |s|
      ensures Halfway(before, short, plenty, s, p + n, more)
    {
      var chunk;
      chunk, n := NextChunk(s[p..]);
      PutBytes(chunk);
      ChunkDone(before, done, chunk, s, p, n);
      more := done + chunk;
    }

    /** The loop of emit_string. */
    method EmitChars(s: bytes)
      requires Valid()
      modifies this`buf, this`len, this`cap, this`err, this`grants, this`oom, this`copied, buf
      ensures Valid() && (buf == old(buf) || fresh(buf))
      ensures !oom ==> Model() == Put(old(Model()), Escape(s))
      ensures old(oom) ==> oom
      ensures old(Plenty()) ==> Plenty() && oom == old(oom)
      ensures old(err) ==> err && Text() == old(Text()) && oom == old(oom)
    {
      ghost var before, short, plenty, done := Model(), oom, Plenty(), [];
      NothingEscaped(before, s);
      var p := 0;
      while p < |s|
        invariant (buf == old(buf) || fresh(buf)) && Halfway(before, short, plenty, s, p, done)
      {
        var n, more := EmitChunk(s, p, before, short, plenty, done);
        p, done := p + n, more;
      }
      AllEscaped(s, done);
    }

    /** emit_string */
    method EmitString(s: bytes)
      requires Valid() && NUL !in s
      modifies this`buf, this`len, this`cap, this`err, this`grants, this`oom, this`copied, buf
      ensures Valid() && (buf == old(buf) || fresh(buf))
      ensures !oom ==> Model() == Put(old(Model()), PrintStr(s))
      ensures old(oom) ==> oom
      ensures old(Plenty()) ==> Plenty() && oom == old(oom)
      ensures old(err) ==> err && Text() == old(Text()) && oom == old(oom)
    {
      ghost var before := Model();
      PutBytes([QUOTE]);
      EmitChars(s);
      PutBytes([QUOTE]);
      PutPut(before, [QUOTE], Escape(s));
      PutPut(before, [QUOTE] + Escape(s), [QUOTE]);
    }

    // The calls of the interface.

    /** jb_obj_open and jb_arr_open */
    method Open(c: Call)
      requires Valid() && (c.ObjOpen? || c.ArrOpen?)
      modifies this, buf, need
      ensures Valid() && (buf == old(buf) || fresh(buf))
      ensures !oom ==> Model() == Apply(old(Model()), c)
      ensures old(oom) ==> oom
      ensures old(Plenty()) ==> Plenty() && oom == old(oom)
      ensures old(err) ==> err && Text() == old(Text()) && oom == old(oom)
    {
      Before();
      PutBytes([if c.ObjOpen? then LBRACE else LBRACKET]);
      Down();
    }

    /** jb_obj_close and jb_arr_close */
    method Close(c: Call)
      requires Valid() && (c.ObjClose? || c.ArrClose?)
      modifies this, buf, need
      ensures Valid() && (buf == old(buf) || fresh(buf))
      ensures !oom ==> Model() == Apply(old(Model()), c)
      ensures old(oom) ==> oom
      ensures old(Plenty()) ==> Plenty() && oom == old(oom)
      ensures old(err) ==> err && Text() == old(Text()) && oom == old(oom)
    {
      PutBytes([if c.ObjClose? then RBRACE else RBRACKET]);
      Up();
    }

    /** The comma before a member, if it is not the first, and its key. */
    method PutKeyText(key: bytes)
      requires Valid() && NUL !in key
      modifies this`buf, this`len, this`cap, this`err, this`grants, this`oom, this`copied, buf
      ensures Valid() && (buf == old(buf) || fresh(buf))
      ensures var b := old(Model());
              !oom ==> Model() == Put(if b.depth > 0 && b.need[b.depth] then Put(b, [COMMA]) else b, PrintStr(key))
      ensures old(oom) ==> oom
      ensures old(Plenty()) ==> Plenty() && oom == old(oom)
      ensures old(err) ==> err && Text() == old(Text()) && oom == old(oom)
    {
      if depth > 0 && need[depth] {
        PutBytes([COMMA]);
      }
      EmitString(key);
    }

    /** jb_key */
    method PutKey(key: bytes)
      requires Valid() && NUL !in key
      modifies this, buf, need
      ensures Valid() && (buf == old(buf) || fresh(buf))
      ensures !oom ==> Model() == Apply(old(Model()), Key(key))
      ensures old(oom) ==> oom
      ensures old(Plenty()) ==> Plenty() && oom == old(oom)
      ensures old(err) ==> err && Text() == old(Text()) && oom == old(oom)
    {
      PutKeyText(key);
      PutBytes([COLON]);
      suppress := true;
    }

    /** jb_str, jb_int, jb_bool, jb_null */
    method PutScalar(v: Value)
      requires Valid() && IsScalar(v) && (v.Str? ==> NUL !in v.s)
      modifies this, buf, need
      ensures Valid() && (buf == old(buf) || fresh(buf))
      ensures !oom ==> Model() == Apply(old(Model()), Scalar(v))
      ensures old(oom) ==> oom
      ensures old(Plenty()) ==> Plenty() && oom == old(oom)
      ensures old(err) ==> err && Text() == old(Text()) && oom == old(oom)
    {
      Before();
      if v.Str? {
        EmitString(v.s);
      } else {
        PutBytes(Print(v));
      }
      Done();
    }

    /** jb_take: the text as a C string, or nothing once anything has failed; the builder is
        empty again, its flags as they were. */
    method Take() returns (out: Option<bytes>)
      requires Valid()
      modifies this
      ensures Valid() && Text() == []
      ensures old(Plenty()) ==> Plenty() && oom == old(oom)
      ensures old(err) ==> out == None && err
      ensures !old(err) && !oom ==> out == Some(old(Text())) && Model() == old(Model()).(text := [])
      ensures !old(err) && oom ==> out == None && err
    {
      if err {
        buf, len, cap := null, 0, 0;
        return None;
      }
      if buf == null {
        var ok := Reserve(0);
        if !ok {
          return None;
        }
        Store(buf, 0, []);
      }
      out := Some(buf[..len]);
      buf, len, cap := null, 0, 0;
    }
  }

  lemma NothingEscaped(before: Builder, s: bytes)
    ensures [] + Escape(s[0..]) == Escape(s) && Put(before, []) == before
  {
    assert s[0..] == s && before.text + [] == before.text;
    assert [] + Escape(s) == Escape(s);
  }

  lemma AllEscaped(s: bytes, done: bytes)
    requires done + Escape(s[|s|..]) == Escape(s)
    ensures done == Escape(s)
  {
    assert s[|s|..] == [] && done + [] == done;
  }

  lemma ChunkDone(before: Builder, done: bytes, chunk: bytes, s: bytes, p: nat, n: nat)
    requires p + n <= |s| && Escape(s[p..]) == chunk + Escape(s[p..][n..])
    requires done + Escape(s[p..]) == Escape(s)
    ensures (done + chunk) + Escape(s[p + n..]) == Escape(s)
    ensures Put(Put(before, done), chunk) == Put(before, done + chunk)
  {
    assert s[p..][n..] == s[p + n..];
    Assoc(done, chunk, Escape(s[p + n..]));
    PutPut(before, done, chunk);
  }

  lemma PutPut(b: Builder, s: bytes, t: bytes)
    ensures Put(Put(b, s), t) == Put(b, s + t)
  {
    Assoc(b.text, s, t);
  }
}
