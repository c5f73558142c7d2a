/**
 The text-only half of the path jail (url_decode and fsapi_resolve in src/core/fsapi.c): from
 the URL path to a path under the share root, before any system call.
 */
module Jail {
  import opened Bytes

  datatype Refusal = EINVAL | ENAMETOOLONG

  datatype Result<+T> = Ok(value: T) | Err(why: Refusal)

  const PATHCAP: nat := 4096

  // --- Percent-encoding ---------------------------------------------------------------------------

  /** hexval */
  function HexVal(c: byte): (v: Option<byte>)
    ensures v.Some? ==> v.value < 16
  {
    if 0x30 <= c <= 0x39 then Some(c - 0x30)
    else if 0x61 <= c <= 0x66 then Some(c - 0x61 + 10)
    else if 0x41 <= c <= 0x46 then Some(c - 0x41 + 10)
    else None
  }

  /** A hexadecimal digit for `v`: "0" to "9", "a" to "f" or "A" to "F". */
  predicate HexFor(c: byte, v: byte) {
    || (v < 10 && c == 0x30 + v)
    || (10 <= v < 16 && (c == 0x61 + (v - 10) || c == 0x41 + (v - 10)))
  }

  lemma HexValExactly(c: byte, v: byte)
    ensures HexVal(c) == Some(v) <==> HexFor(c, v)
  {}

  /** The byte spelt by the escape at the start of `s`; looks no further than the string's NUL. */
  function Escaped(s: bytes): Option<byte>
    requires s != [] && s[0] == PERCENT
  {
    var hi := HexVal(At(s, 1));
    if hi.None? then None
    else
      var lo := HexVal(At(s, 2));
      if lo.None? then None else Some((hi.value << 4) | lo.value)
  }

  lemma EscapedLength(s: bytes)
    requires s != [] && s[0] == PERCENT && Escaped(s).Some?
    ensures |s| >= 3
  {
    assert HexVal(NUL) == None;
  }

  /** One decoded byte and what is left, or nothing for a malformed escape or an escaped NUL. */
  function DecodeOne(s: bytes): (r: Option<(byte, bytes)>)
    requires s != []
    ensures r.Some? ==> |r.value.1| < |s|
  {
    if s[0] == PERCENT then
      if Escaped(s).None? || Escaped(s).value == NUL then None
      else
        EscapedLength(s);
        Some((Escaped(s).value, s[3..]))
    else Some((s[0], s[1..]))
  }

  /** Section 2.1 of RFC 3986, with malformed escapes and NUL refused. */
  function Decode(s: bytes): Option<bytes>
    decreases |s|
  {
    if s == [] then Some([])
    else
      var one := DecodeOne(s);
      if one.None? then None
      else
        var rest := Decode(one.value.1);
        if rest.None? then None else Some([one.value.0] + rest.value)
  }

  /** `t` is a percent-encoding of `s`: each byte stands for itself or is written as "%" and two
      hexadecimal digits of either case; only "%" must be escaped, and NUL cannot be had. */
  predicate EncodedAs(t: bytes, s: bytes)
    decreases s
  {
    if s == [] then t == []
    else
      && s[0] != NUL
      && ( || (t != [] && t[0] != PERCENT && t[0] == s[0] && EncodedAs(t[1..], s[1..]))
           || (|t| >= 3 && t[0] == PERCENT && HexFor(t[1], s[0] >> 4) && HexFor(t[2], s[0] & 0x0F)
               && EncodedAs(t[3..], s[1..])))
  }

  lemma Nibbles(hi: byte, lo: byte, c: byte)
    requires hi < 16 && lo < 16
    ensures (hi << 4) | lo == c <==> hi == c >> 4 && lo == c & 0x0F
    ensures c >> 4 < 16 && c & 0x0F < 16
  {}

  lemma EscapedExactly(s: bytes, c: byte)
    requires s != [] && s[0] == PERCENT && NUL !in s
    ensures Escaped(s) == Some(c) <==> |s| >= 3 && HexFor(s[1], c >> 4) && HexFor(s[2], c & 0x0F)
  {
    var hi, lo := HexVal(At(s, 1)), HexVal(At(s, 2));
    Nibbles(0, 0, c);
    HexValExactly(At(s, 1), c >> 4);
    HexValExactly(At(s, 2), c & 0x0F);
    if hi.Some? && lo.Some? {
      Nibbles(hi.value, lo.value, c);
    }
    if Escaped(s).Some? {
      EscapedLength(s);
    }
  }

  lemma DecodeOneExactly(t: bytes, c: byte, rest: bytes)
    requires t != [] && NUL !in t
    ensures DecodeOne(t) == Some((c, rest)) <==>
              && c != NUL
              && ( || (t[0] != PERCENT && t[0] == c && rest == t[1..])
                   || (|t| >= 3 && t[0] == PERCENT && HexFor(t[1], c >> 4) && HexFor(t[2], c & 0x0F) && rest == t[3..]))
  {
    if t[0] == PERCENT {
      EscapedExactly(t, c);
    }
  }

  /** Exactly what a string decodes to, if it decodes at all: what it is an encoding of. */
  lemma {:induction false} DecodeExactly(t: bytes, s: bytes)
    requires NUL !in t
    ensures Decode(t) == Some(s) <==> EncodedAs(t, s)
    decreases |t|
  {
    if t != [] {
      if DecodeOne(t).Some? {
        var one := DecodeOne(t).value;
        DecodeOneExactly(t, one.0, one.1);
        assert one.1 == (if t[0] == PERCENT then t[3..] else t[1..]);
        if s != [] {
          DecodeExactly(one.1, s[1..]);
          assert s == [s[0]] + s[1..];
        }
      }
      if s != [] {
        DecodeOneExactly(t, s[0], if t[0] == PERCENT && |t| >= 3 then t[3..] else t[1..]);
      }
    }
  }

  /** The same into a buffer that has room for `room` bytes: what comes first, a bad escape or
      the end of the buffer, decides the error. */
  function DecodeInto(s: bytes, room: nat): Result<bytes>
    decreases |s|
  {
    if s == [] then Ok([])
    else
      var one := DecodeOne(s);
      if one.None? then Err(EINVAL)
      else if room == 0 then Err(ENAMETOOLONG)
      else
        var rest := DecodeInto(one.value.1, room - 1);
        if rest.Err? then rest else Ok([one.value.0] + rest.value)
  }

  /** How many bytes come out before the first escape that is malformed or spells NUL. */
  function Before(s: bytes): nat
    decreases |s|
  {
    if s == [] || DecodeOne(s).None? then 0 else 1 + Before(DecodeOne(s).value.1)
  }

  /** Succeeds exactly when every escape is well formed, no NUL comes out, and it all fits; what
      the buffer has no room for is an error before the first bad escape, not after it. */
  lemma {:induction false} DecodeIntoIsDecode(s: bytes, room: nat)
    ensures DecodeInto(s, room).Ok? <==> Decode(s).Some? && |Decode(s).value| <= room
    ensures DecodeInto(s, room).Ok? ==> DecodeInto(s, room).value == Decode(s).value
    ensures DecodeInto(s, room) == Err(ENAMETOOLONG) <==> Before(s) > room
    ensures DecodeInto(s, room) == Err(EINVAL) <==> Decode(s).None? && Before(s) <= room
    ensures Decode(s).Some? ==> Before(s) == |Decode(s).value|
    decreases |s|
  {
    if s != [] && DecodeOne(s).Some? {
      DecodeIntoIsDecode(DecodeOne(s).value.1, if room == 0 then 0 else room - 1);
    }
  }

  /** Bytes a client leaves as they are (urllib.parse.quote with safe="/"). */
  predicate Unreserved(c: byte) {
    || 0x41 <= c <= 0x5A || 0x61 <= c <= 0x7A || 0x30 <= c <= 0x39
    || c == 0x5F || c == DOT || c == MINUS || c == 0x7E || c == SLASH
  }

  function HexDigit(d: byte): byte
    requires d < 16
  {
    if d < 10 then 0x30 + d else 0x37 + d
  }

  function EncodeByte(c: byte): bytes {
    if Unreserved(c) then [c] else [PERCENT, HexDigit(c >> 4), HexDigit(c & 0x0F)]
  }

  function Encode(s: bytes): bytes {
    if s == [] then [] else EncodeByte(s[0]) + Encode(s[1..])
  }

  lemma HexPair(c: byte)
    ensures HexVal(HexDigit(c >> 4)) == Some(c >> 4) && HexVal(HexDigit(c & 0x0F)) == Some(c & 0x0F)
    ensures ((c >> 4) << 4) | (c & 0x0F) == c
  {}

  lemma EncodedByteDecodes(c: byte, rest: bytes)
    requires c != NUL
    ensures DecodeOne(EncodeByte(c) + rest) == Some((c, rest))
  {
    HexPair(c);
    var s := EncodeByte(c) + rest;
    if Unreserved(c) {
      assert s[1..] == rest;
    } else {
      assert s[3..] == rest;
    }
  }

  /** Decoding undoes a client's encoding of every byte string a file name can be. */
  lemma {:induction false} DecodeEncode(s: bytes)
    requires NUL !in s
    ensures Decode(Encode(s)) == Some(s)
  {
    if s != [] {
      EncodedByteDecodes(s[0], Encode(s[1..]));
      DecodeEncode(s[1..]);
      assert [s[0]] + s[1..] == s;
    }
  }

  lemma {:induction false} DecodedHasNoNul(s: bytes)
    requires Decode(s).Some? && NUL !in s
    ensures NUL !in Decode(s).value
    decreases |s|
  {
    if s != [] {
      var one := DecodeOne(s).value;
      assert one.1 == (if s[0] == PERCENT then s[3..] else s[1..]);
      DecodedHasNoNul(one.1);
    }
  }

  // --- Segments -----------------------------------------------------------------------------------

  /** The text between slashes, empty pieces included: one more than there are slashes. */
  function Split(s: bytes): (r: seq<bytes>)
    ensures r != []
  {
    if s == [] then [[]]
    else
      var rest := Split(s[1..]);
      if s[0] == SLASH then [[]] + rest else [[s[0]] + rest[0]] + rest[1..]
  }

  predicate Dropped(segment: bytes) {
    segment == [] || segment == [DOT]
  }

  /** ".." and control bytes. */
  predicate Forbidden(segment: bytes) {
    segment == [DOT, DOT] || exists c :: c in segment && c < 0x20
  }

  /** The segments that stay. */
  function Kept(segments: seq<bytes>): seq<bytes> {
    if segments == [] then []
    else (if Dropped(segments[0]) then [] else [segments[0]]) + Kept(segments[1..])
  }

  predicate Clean(segments: seq<bytes>) {
    forall s <- segments :: !Forbidden(s)
  }

  /** "/" and a segment, for each of them. */
  function Path(segments: seq<bytes>): bytes {
    if segments == [] then [] else [SLASH] + segments[0] + Path(segments[1..])
  }

  /** Appending the kept segments one by one to a path `used` bytes long so far. */
  function Walk(segments: seq<bytes>, used: nat, cap: nat): Result<bytes>
    decreases segments
  {
    if segments == [] then Ok([])
    else if Dropped(segments[0]) then Walk(segments[1..], used, cap)
    else if Forbidden(segments[0]) then Err(EINVAL)
    else if used + 1 + |segments[0]| >= cap then Err(ENAMETOOLONG)
    else
      var rest := Walk(segments[1..], used + 1 + |segments[0]|, cap);
      if rest.Err? then rest else Ok([SLASH] + segments[0] + rest.value)
  }

  datatype Resolved = Resolved(path: bytes, isDir: bool)

  /** fsapi_resolve, as what it computes. */
  function Resolve(root: bytes, url: bytes, cap: nat): Result<Resolved> {
    var dec := DecodeInto(url, PATHCAP - 1);
    if dec.Err? then Err(dec.why)
    else if |root| >= cap then Err(ENAMETOOLONG)
    else
      var tail := Walk(Split(dec.value), |root|, cap);
      if tail.Err? then Err(tail.why)
      else Ok(Resolved(root + tail.value, (dec.value != [] && dec.value[|dec.value| - 1] == SLASH) || tail.value == []))
  }

  lemma {:induction false} WalkIsPath(segments: seq<bytes>, used: nat, cap: nat)
    requires used < cap
    ensures Walk(segments, used, cap).Ok? <==> Clean(segments) && used + |Path(Kept(segments))| < cap
    ensures Walk(segments, used, cap).Ok? ==> Walk(segments, used, cap).value == Path(Kept(segments))
    decreases segments
  {
    if segments != [] {
      var s, rest := segments[0], segments[1..];
      assert Clean(segments) <==> !Forbidden(s) && Clean(rest) by {
        assert segments == [s] + rest;
      }
      if Dropped(s) {
        assert [] + Kept(rest) == Kept(rest);
        WalkIsPath(rest, used, cap);
      } else {
        assert ([s] + Kept(rest))[1..] == Kept(rest);
        if used + 1 + |s| < cap {
          WalkIsPath(rest, used + 1 + |s|, cap);
        }
      }
    }
  }

  /** The exact specification: it succeeds if and only if every escape is well formed, no NUL is
      spelt, no segment is ".." or holds a control byte, and the lengths fit; and then the path
      is the root followed by the kept segments. */
  lemma ResolveIsExact(root: bytes, url: bytes, cap: nat)
    ensures Resolve(root, url, cap).Ok? <==>
              && Decode(url).Some? && |Decode(url).value| < PATHCAP && |root| < cap
              && Clean(Split(Decode(url).value))
              && |root| + |Path(Kept(Split(Decode(url).value)))| < cap
    ensures Resolve(root, url, cap).Ok? ==>
              var r, dec := Resolve(root, url, cap).value, Decode(url).value;
              && r.path == root + Path(Kept(Split(dec)))
              && (r.isDir <==> (dec != [] && dec[|dec| - 1] == SLASH) || Kept(Split(dec)) == [])
  {
    DecodeIntoIsDecode(url, PATHCAP - 1);
    if Decode(url).Some? && |root| < cap {
      WalkIsPath(Split(Decode(url).value), |root|, cap);
    }
  }

  // --- What a resolved path looks like ---------------------------------------------------------

  lemma {:induction false} SplitPieces(s: bytes)
    ensures forall p <- Split(s) :: SLASH !in p
    decreases s
  {
    if s != [] {
      SplitPieces(s[1..]);
      var rest := Split(s[1..]);
      assert rest[0] in rest;
      forall p <- Split(s)
        ensures SLASH !in p
      {
        if p !in rest && s[0] != SLASH {
          assert p == [s[0]] + rest[0];
        }
      }
    }
  }

  lemma {:induction false} KeptAmong(segments: seq<bytes>)
    ensures forall p <- Kept(segments) :: p in segments && !Dropped(p)
    decreases segments
  {
    if segments != [] {
      KeptAmong(segments[1..]);
    }
  }

  /** A name that can stand in a directory and leads nowhere but down. */
  predicate PlainName(s: bytes) {
    s != [] && s != [DOT] && s != [DOT, DOT] && SLASH !in s && forall c <- s :: c >= 0x20
  }

  /** The jail: what is added to the root is plain names and slashes, nothing that climbs. */
  lemma ResolvedStaysUnder(root: bytes, url: bytes, cap: nat) returns (names: seq<bytes>)
    requires Resolve(root, url, cap).Ok?
    ensures Resolve(root, url, cap).value.path == root + Path(names)
    ensures forall p <- names :: PlainName(p)
  {
    ResolveIsExact(root, url, cap);
    var segments := Split(Decode(url).value);
    names := Kept(segments);
    SplitPieces(Decode(url).value);
    KeptAmong(segments);
    forall p <- names
      ensures PlainName(p)
    {
      assert p in segments && !Forbidden(p);
    }
  }

  // --- Round trips ------------------------------------------------------------------------------

  lemma {:induction false} SplitTail(name: bytes, s: bytes)
    requires SLASH !in name && (s == [] || s[0] == SLASH)
    ensures Split(name + s) == [name] + Split(s)[1..]
    decreases name
  {
    if name == [] {
      assert name + s == s;
    } else {
      assert (name + s)[1..] == name[1..] + s;
      SplitTail(name[1..], s);
      assert [name[0]] + name[1..] == name;
      assert ([name[1..]] + Split(s)[1..])[1..] == Split(s)[1..];
    }
  }

  /** Splitting a path gives the names it was made of. */
  lemma {:induction false} SplitPath(names: seq<bytes>)
    requires forall p <- names :: SLASH !in p
    ensures Split(Path(names)) == [[]] + names
    decreases names
  {
    if names != [] {
      var rest := Path(names[1..]);
      SplitPath(names[1..]);
      SplitTail(names[0], rest);
      assert Path(names) == [SLASH] + names[0] + rest;
      assert Path(names)[1..] == names[0] + rest;
      assert ([[]] + names[1..])[1..] == names[1..];
      assert Split(names[0] + rest) == [names[0]] + names[1..] == names;
    }
  }

  lemma {:induction false} KeptAll(names: seq<bytes>)
    requires forall p <- names :: !Dropped(p)
    ensures Kept(names) == names
    decreases names
  {
    if names != [] {
      KeptAll(names[1..]);
      assert [names[0]] + names[1..] == names;
    }
  }

  /** The cleaned segments of a URL path. */
  function Names(url: bytes): seq<bytes> {
    if Decode(url).Some? then Kept(Split(Decode(url).value)) else []
  }

  lemma PathInjective(a: seq<bytes>, b: seq<bytes>)
    requires forall p <- a :: SLASH !in p
    requires forall p <- b :: SLASH !in p
    requires Path(a) == Path(b)
    ensures a == b
  {
    SplitPath(a);
    SplitPath(b);
    assert ([[]] + a)[1..] == a && ([[]] + b)[1..] == b;
  }

  /** Two URL paths lead to the same file path exactly if their cleaned segments agree. */
  lemma ResolveAlike(root: bytes, url1: bytes, url2: bytes, cap: nat)
    requires Resolve(root, url1, cap).Ok? && Resolve(root, url2, cap).Ok?
    ensures Resolve(root, url1, cap).value.path == Resolve(root, url2, cap).value.path <==> Names(url1) == Names(url2)
  {
    ResolveIsExact(root, url1, cap);
    ResolveIsExact(root, url2, cap);
    KeptHasNoSlash(Decode(url1).value);
    KeptHasNoSlash(Decode(url2).value);
    var p1, p2 := Path(Names(url1)), Path(Names(url2));
    if root + p1 == root + p2 {
      assert p1 == (root + p1)[|root|..] && p2 == (root + p2)[|root|..];
      PathInjective(Names(url1), Names(url2));
    }
  }

  lemma KeptHasNoSlash(dec: bytes)
    ensures forall p <- Kept(Split(dec)) :: SLASH !in p && !Dropped(p)
  {
    SplitPieces(dec);
    KeptAmong(Split(dec));
  }

  lemma {:induction false} PathHasNoNul(names: seq<bytes>)
    requires forall p <- names :: NUL !in p
    ensures NUL !in Path(names)
    decreases names
  {
    if names != [] {
      PathHasNoNul(names[1..]);
    }
  }

  /** Encoding what was added to the root and resolving again gives the same path. */
  lemma ReencodeResolves(root: bytes, url: bytes, cap: nat)
    requires Resolve(root, url, cap).Ok? && cap <= PATHCAP
    ensures var path := Resolve(root, url, cap).value.path;
            && Resolve(root, Encode(path[|root|..]), cap).Ok?
            && Resolve(root, Encode(path[|root|..]), cap).value.path == path
  {
    ResolveIsExact(root, url, cap);
    var names := ResolvedStaysUnder(root, url, cap);
    var path, tail := Resolve(root, url, cap).value.path, Path(names);
    assert path[|root|..] == tail;
    forall p <- names
      ensures NUL !in p
    {
      assert PlainName(p);
    }
    PathHasNoNul(names);
    DecodeEncode(tail);
    SplitPath(names);
    ReencodedSegments(names);
    ResolveIsExact(root, Encode(tail), cap);
  }

  lemma ReencodedSegments(names: seq<bytes>)
    requires forall p <- names :: PlainName(p)
    ensures Clean([[]] + names) && Kept([[]] + names) == names
  {
    KeptAll(names);
    assert ([[]] + names)[1..] == names;
    forall s <- [[]] + names
      ensures !Forbidden(s)
    {
      if s in names {
        assert PlainName(s);
      }
    }
  }

  // --- The C functions ---------------------------------------------------------------------------

  /** url_decode into a buffer, NUL at the end; the text's length on success. */
  method UrlDecode(s: bytes, out: array<byte>) returns (r: Result<nat>)
    requires out.Length > 0
    modifies out
    ensures r.Ok? <==> DecodeInto(s, out.Length - 1).Ok?
    ensures r.Ok? ==> r.value < out.Length && out[r.value] == NUL
                      && out[..r.value] == DecodeInto(s, out.Length - 1).value
    ensures r.Err? ==> Err(r.why) == DecodeInto(s, out.Length - 1)
  {
    var o, i := 0, 0;
    assert s[0..] == s;
    JoinedNothing(DecodeInto(s, out.Length - 1));
    assert out[..0] == [];
    while i < |s|
      invariant 0 <= i <= |s| && 0 <= o < out.Length
      invariant Joined(out[..o], DecodeInto(s[i..], out.Length - 1 - o)) == DecodeInto(s, out.Length - 1)
    {
      var ch: byte;
      ghost var done, i0 := out[..o], i;
      if s[i] == PERCENT {
        var e := Escaped(s[i..]);
        if e.None? || e.value == NUL {
          return Err(EINVAL);
        }
        EscapedLength(s[i..]);
        assert s[i..][3..] == s[i + 3..];
        ch, i := e.value, i + 3;
      } else {
        assert s[i..][1..] == s[i + 1..];
        ch, i := s[i], i + 1;
      }
      if o + 1 >= out.Length {
        return Err(ENAMETOOLONG);
      }
      out[o] := ch;
      o := o + 1;
      assert out[..o] == done + [ch];
      JoinedMore(done, ch, DecodeInto(s[i..], out.Length - 1 - o));
    }
    out[o] := NUL;
    return Ok(o);
  }

  /** A result with what has been put out already in front of it. */
  function Joined(done: bytes, r: Result<bytes>): Result<bytes> {
    if r.Err? then r else Ok(done + r.value)
  }

  lemma JoinedMore(done: bytes, c: byte, r: Result<bytes>)
    ensures Joined(done + [c], r) == Joined(done, if r.Err? then r else Ok([c] + r.value))
  {
    if r.Ok? {
      assert done + [c] + r.value == done + ([c] + r.value);
    }
  }

  lemma JoinedNothing(r: Result<bytes>)
    ensures Joined([], r) == r
  {
    if r.Ok? {
      assert [] + r.value == r.value;
    }
  }

  lemma JoinedTwice(a: bytes, b: bytes, r: Result<bytes>)
    ensures Joined(a + b, r) == Joined(a, Joined(b, r))
  {
    if r.Ok? {
      assert a + b + r.value == a + (b + r.value);
    }
  }

  /** Where a segment has just ended, or none has begun. */
  lemma WalkBoundary(s: bytes, used: nat, cap: nat)
    requires s == [] || s[0] == SLASH
    ensures Walk(Split(s), used, cap) == Walk(Split(s)[1..], used, cap)
  {
    if s != [] {
      assert ([[]] + Split(s[1..]))[1..] == Split(s[1..]);
    }
  }

  lemma WalkSlash(s: bytes, used: nat, cap: nat)
    requires s != [] && s[0] == SLASH
    ensures Walk(Split(s), used, cap) == Walk(Split(s[1..]), used, cap)
  {
    assert ([[]] + Split(s[1..]))[1..] == Split(s[1..]);
  }

  /** What one segment contributes before the walk goes on after it. */
  lemma WalkSegment(s: bytes, n: nat, used: nat, cap: nat)
    requires n <= |s| && SLASH !in s[..n] && (n < |s| ==> s[n] == SLASH)
    ensures var seg, rest := s[..n], s[n..];
            Walk(Split(s), used, cap) ==
            if Dropped(seg) then Walk(Split(rest), used, cap)
            else if Forbidden(seg) then Err(EINVAL)
            else if used + 1 + n >= cap then Err(ENAMETOOLONG)
            else Joined([SLASH] + seg, Walk(Split(rest), used + 1 + n, cap))
  {
    var seg, rest := s[..n], s[n..];
    assert s == seg + rest;
    SplitTail(seg, rest);
    WalkBoundary(rest, used, cap);
    WalkBoundary(rest, used + 1 + n, cap);
    assert ([seg] + Split(rest)[1..])[1..] == Split(rest)[1..];
  }

  /** The two inner scans of fsapi_resolve: past the slashes, then to the end of the segment. */
  method NextSegment(s: bytes, from: nat) returns (start: nat, end: nat)
    requires from <= |s|
    ensures from <= start <= end <= |s| && (from < |s| ==> end > from)
    ensures SLASH !in s[start..end] && (end < |s| ==> s[end] == SLASH)
    ensures forall used, cap :: Walk(Split(s[from..]), used, cap) == Walk(Split(s[start..]), used, cap)
  {
    start := from;
    while start < |s| && s[start] == SLASH
      invariant from <= start <= |s|
      invariant forall used, cap :: Walk(Split(s[from..]), used, cap) == Walk(Split(s[start..]), used, cap)
    {
      forall used, cap
        ensures Walk(Split(s[start..]), used, cap) == Walk(Split(s[start + 1..]), used, cap)
      {
        assert s[start..][1..] == s[start + 1..];
        WalkSlash(s[start..], used, cap);
      }
      start := start + 1;
    }
    end := start;
    while end < |s| && s[end] != SLASH
      invariant start <= end <= |s| && SLASH !in s[start..end]
    {
      end := end + 1;
    }
  }

  /** The scan for control bytes. */
  method HasControl(s: bytes) returns (found: bool)
    ensures found <==> exists c :: c in s && c < 0x20
  {
    var k := 0;
    while k < |s|
      invariant 0 <= k <= |s| && forall j :: 0 <= j < k ==> s[j] >= 0x20
    {
      if s[k] < 0x20 {
        assert s[k] in s;
        return true;
      }
      k := k + 1;
    }
    assert forall c <- s :: c >= 0x20;
    return false;
  }

  /** memcpy of `s` to out[at..] */
  method CopyTo(out: array<byte>, at: nat, s: bytes)
    requires at + |s| <= out.Length
    modifies out
    ensures out[..at + |s|] == old(out[..at]) + s
  {
    var i := 0;
    while i < |s|
      invariant 0 <= i <= |s| && out[..at] == old(out[..at])
      invariant forall j :: 0 <= j < i ==> out[at + j] == s[j]
    {
      out[at + i] := s[i];
      i := i + 1;
    }
    assert out[at..at + |s|] == s;
    assert out[..at + |s|] == out[..at] + out[at..at + |s|];
  }

  /** fsapi_resolve: the path is left in `out`, and with it whether it names a directory. */
  method ResolveInto(root: bytes, url: bytes, out: array<byte>) returns (r: Result<(nat, bool)>)
    modifies out
    ensures r.Err? ==> Resolve(root, url, out.Length) == Err(r.why)
    ensures r.Ok? ==>
              && r.value.0 < out.Length && out[r.value.0] == NUL
              && Resolve(root, url, out.Length) == Ok(Resolved(out[..r.value.0], r.value.1))
  {
    var dec := new byte[PATHCAP];
    var n := UrlDecode(url, dec);
    if n.Err? {
      return Err(n.why);
    }
    var s := dec[..n.value];
    if |root| >= out.Length {
      return Err(ENAMETOOLONG);
    }
    CopyTo(out, 0, root);
    assert out[..0] + root == root;
    var o := AddSegments(s, root, out);
    if o.Err? {
      return Err(o.why);
    }
    out[o.value] := NUL;
    assert out[..o.value] == root + Walk(Split(s), |root|, out.Length).value;
    return Ok((o.value, (s != [] && s[|s| - 1] == SLASH) || o.value == |root|));
  }

  /** One segment: dropped, refused, or copied behind a slash; where the path now ends. */
  method Place(seg: bytes, o: nat, out: array<byte>) returns (r: Result<nat>)
    requires o < out.Length
    modifies out
    ensures r == Placed(seg, o, out.Length)
    ensures r.Ok? ==> out[..r.value] == old(out[..o]) + Piece(seg)
  {
    if seg == [] || seg == [DOT] {
      assert out[..o] + [] == out[..o];
      return Ok(o);
    }
    var control := HasControl(seg);
    if seg == [DOT, DOT] || control {
      return Err(EINVAL);
    }
    if o + 1 + |seg| >= out.Length {
      return Err(ENAMETOOLONG);
    }
    CopyTo(out, o, [SLASH] + seg);
    return Ok(o + 1 + |seg|);
  }

  /** What Place answers. */
  function Placed(seg: bytes, o: nat, cap: nat): Result<nat> {
    if Dropped(seg) then Ok(o)
    else if Forbidden(seg) then Err(EINVAL)
    else if o + 1 + |seg| >= cap then Err(ENAMETOOLONG)
    else Ok(o + 1 + |seg|)
  }

  function Piece(seg: bytes): bytes {
    if Dropped(seg) then [] else [SLASH] + seg
  }

  /** One turn of the main loop moves a piece from what is still to come to what is done. */
  lemma WalkTurn(s: bytes, i: nat, start: nat, end: nat, done: bytes, o: nat, cap: nat)
    requires i <= start <= end <= |s| && SLASH !in s[start..end] && (end < |s| ==> s[end] == SLASH)
    requires Walk(Split(s[i..]), o, cap) == Walk(Split(s[start..]), o, cap)
    ensures var seg, whole := s[start..end], Joined(done, Walk(Split(s[i..]), o, cap));
            match Placed(seg, o, cap)
            case Err(why) => whole == Err(why)
            case Ok(o') => whole == Joined(done + Piece(seg), Walk(Split(s[end..]), o', cap))
  {
    var seg := s[start..end];
    assert s[start..][..end - start] == seg && s[start..][end - start..] == s[end..];
    WalkSegment(s[start..], end - start, o, cap);
    if Dropped(seg) {
      assert done + [] == done;
    } else if Placed(seg, o, cap).Ok? {
      JoinedTwice(done, [SLASH] + seg, Walk(Split(s[end..]), o + 1 + |seg|, cap));
    }
  }

  /** What has been put out, followed by what the walk from s[i..] on will add, is the answer. */
  ghost predicate Pending(s: bytes, i: nat, done: bytes, o: nat, cap: nat, answer: Result<bytes>)
    requires i <= |s|
  {
    Joined(done, Walk(Split(s[i..]), o, cap)) == answer
  }

  lemma TurnGoesOn(
      s: bytes, i: nat, start: nat, end: nat, done: bytes, o: nat, cap: nat, answer: Result<bytes>)
    requires i <= start <= end <= |s| && SLASH !in s[start..end] && (end < |s| ==> s[end] == SLASH)
    requires Walk(Split(s[i..]), o, cap) == Walk(Split(s[start..]), o, cap)
    requires Pending(s, i, done, o, cap, answer)
    ensures match Placed(s[start..end], o, cap)
            case Err(why) => answer == Err(why)
            case Ok(o') => Pending(s, end, done + Piece(s[start..end]), o', cap, answer)
  {
    WalkTurn(s, i, start, end, done, o, cap);
  }

  lemma PutBehind(root: bytes, done: bytes, piece: bytes)
    ensures (root + done) + piece == root + (done + piece)
  {}

  /** One turn of the main loop; where in the text and in the path it leaves off. */
  method Turn(s: bytes, i: nat, o: nat, out: array<byte>,
              ghost root: bytes, ghost done: bytes, ghost answer: Result<bytes>)
    returns (r: Result<(nat, nat)>, ghost more: bytes)
    requires i < |s| && o < out.Length && out[..o] == root + done
    requires Pending(s, i, done, o, out.Length, answer)
    modifies out
    ensures r.Err? ==> answer == Err(r.why)
    ensures r.Ok? ==>
              && i < r.value.0 <= |s| && o <= r.value.1 < out.Length && out[..r.value.1] == root + more
              && Pending(s, r.value.0, more, r.value.1, out.Length, answer)
  {
    var start, end := NextSegment(s, i);
    TurnGoesOn(s, i, start, end, done, o, out.Length, answer);
    var seg := s[start..end];
    var placed := Place(seg, o, out);
    if placed.Err? {
      return Err(placed.why), [];
    }
    PutBehind(root, done, Piece(seg));
    more := done + Piece(seg);
    r := Ok((end, placed.value));
  }

  /** The main loop over the segments. */
  method AddSegments(s: bytes, root: bytes, out: array<byte>) returns (r: Result<nat>)
    requires |root| < out.Length && out[..|root|] == root
    modifies out
    ensures r.Err? ==> Walk(Split(s), |root|, out.Length) == Err(r.why)
    ensures r.Ok? ==> |root| <= r.value < out.Length
                      && Walk(Split(s), |root|, out.Length).Ok?
                      && out[..r.value] == root + Walk(Split(s), |root|, out.Length).value
  {
    var o, i := |root|, 0;
    ghost var done: bytes := [];
    ghost var answer := Walk(Split(s), |root|, out.Length);
    assert s[0..] == s && root + [] == root;
    JoinedNothing(answer);
    while i < |s|
      invariant 0 <= i <= |s| && |root| <= o < out.Length && out[..o] == root + done
      invariant Pending(s, i, done, o, out.Length, answer)
      decreases |s| - i
    {
      var turn, more := Turn(s, i, o, out, root, done, answer);
      if turn.Err? {
        return Err(turn.why);
      }
      done := more;
      i, o := turn.value.0, turn.value.1;
    }
    assert s[i..] == [] && Walk(Split([]), o, out.Length) == Ok([]) && done + [] == done;
    return Ok(o);
  }
}
