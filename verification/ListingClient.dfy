/**
 What a client makes of a directory listing: a reader of the format, and that it sees exactly the
 entries the listing was made from.
 */
module ListingClient {
  import opened Bytes
  import opened Decimal
  import opened Json
  import opened JsonInverse
  import opened Listing
  import Ranges
  import Strtoll

  /** An entry as a client takes it from the listing. */
  datatype Shown = Shown(name: bytes, kind: Kind, size: Option<int>, when: bytes, etag: bytes)

  /** The value of the first member with a key. */
  function Field(members: seq<(bytes, Json)>, key: bytes): Option<Json> {
    if members == [] then None
    else if members[0].0 == key then Some(members[0].1)
    else Field(members[1..], key)
  }

  function ReadString(j: Option<Json>): Option<bytes> {
    if j.Some? && j.value.JStr? then Some(j.value.s) else None
  }

  function ReadKind(j: Option<Json>): Option<Kind> {
    var word := ReadString(j);
    if word == Some(DIRWORD) then Some(IsDir)
    else if word == Some(FILEWORD) then Some(IsRegular)
    else if word == Some(OTHERWORD) then Some(IsOther)
    else None
  }

  function ReadSize(j: Option<Json>): Option<int> {
    if j.Some? && j.value.JNum? then Some(Strtoll.Unbounded(j.value.lexeme)) else None
  }

  function ReadEntry(j: Json): Option<Shown> {
    if !j.JObj? then None
    else
      var name, kind := ReadString(Field(j.members, NAME)), ReadKind(Field(j.members, TYPE));
      var when, etag := ReadString(Field(j.members, MTIME)), ReadString(Field(j.members, ETAG));
      if name.None? || kind.None? || when.None? || etag.None? then None
      else Some(Shown(name.value, kind.value, ReadSize(Field(j.members, SIZE)), when.value, etag.value))
  }

  function ReadEntries(items: seq<Json>): Option<seq<Shown>> {
    if items == [] then Some([])
    else
      var one, rest := ReadEntry(items[0]), ReadEntries(items[1..]);
      if one.None? || rest.None? then None else Some([one.value] + rest.value)
  }

  /** The path and the entries of a listing. */
  function ReadListing(j: Json): Option<(bytes, seq<Shown>)> {
    if !j.JObj? then None
    else
      var path, entries := ReadString(Field(j.members, PATH)), Field(j.members, ENTRIES);
      if path.None? || entries.None? || !entries.value.JArr? then None
      else
        var shown := ReadEntries(entries.value.items);
        if shown.None? then None else Some((path.value, shown.value))
  }

  /** What there is to see of an entry: a size of regular files only, and what is not UTF-8 in
      its name replaced. */
  function Seen(e: Entry): Shown
    requires e.stat.Some?
  {
    var st := e.stat.value;
    Shown(Sanitize(e.name), st.kind, if st.kind.IsRegular? then Some(st.size) else None,
          Sanitize(st.when), Ranges.ETag(st.size, st.mtime))
  }

  /** In the directory's order, without "." and "..", and what cannot be examined. */
  function SeenAll(dir: bytes, entries: seq<Entry>): seq<Shown> {
    if entries == [] then []
    else
      var e, rest := entries[0], SeenAll(dir, entries[1..]);
      if e.name == [DOT] || e.name == [DOT, DOT] || |dir| + 1 + |e.name| >= 4096 || e.stat.None? then rest
      else [Seen(e)] + rest
  }

  lemma AsciiStays(s: bytes)
    requires forall c <- s :: c < 0x80
    ensures Sanitize(s) == s
  {
    AsciiIsUtf8(s);
    SanitizeKeeps(s);
  }

  /** Members with keys in ASCII, as a reader has them. */
  lemma NormOne(ms: seq<Member>, key: bytes, v: Value, rest: seq<Member>)
    requires ms == [Member(key, v)] + rest && forall c <- key :: c < 0x80
    ensures NormMembers(ms) == [(key, Norm(v))] + NormMembers(rest)
  {
    AsciiStays(key);
    assert ms[1..] == rest;
  }

  lemma FieldOf(key: bytes, j: Json, rest: seq<(bytes, Json)>, wanted: bytes)
    ensures Field([(key, j)] + rest, wanted) == if key == wanted then Some(j) else Field(rest, wanted)
  {
    assert ([(key, j)] + rest)[1..] == rest;
  }

  function NormBack(e: Entry): seq<(bytes, Json)>
    requires e.stat.Some?
  {
    var st := e.stat.value;
    [(MTIME, JStr(Sanitize(st.when)))] + [(ETAG, JStr(Ranges.ETag(st.size, st.mtime)))]
  }

  function NormSize(e: Entry): seq<(bytes, Json)>
    requires e.stat.Some?
  {
    if e.stat.value.kind.IsRegular? then [(SIZE, JNum(OfInt(e.stat.value.size)))] else []
  }

  function NormFront(e: Entry): seq<(bytes, Json)>
    requires e.stat.Some?
  {
    [(NAME, JStr(Sanitize(e.name)))] + [(TYPE, JStr(KindWord(e.stat.value.kind)))]
  }

  lemma NormedBack(e: Entry)
    requires e.stat.Some?
    ensures NormMembers(Back(e)) == NormBack(e)
  {
    var st := e.stat.value;
    var tag := Ranges.ETag(st.size, st.mtime);
    TagIsAscii(st.size, st.mtime);
    AsciiStays(tag);
    TwoMembers(MTIME, Str(st.when), ETAG, Str(tag));
  }

  lemma TwoMembers(key1: bytes, v1: Value, key2: bytes, v2: Value)
    requires (forall c <- key1 :: c < 0x80) && (forall c <- key2 :: c < 0x80)
    ensures NormMembers([Member(key1, v1), Member(key2, v2)]) == [(key1, Norm(v1))] + [(key2, Norm(v2))]
  {
    var last := [Member(key2, v2)];
    NormOne(last, key2, v2, []);
    NormOne([Member(key1, v1)] + last, key1, v1, last);
    assert [Member(key1, v1)] + last == [Member(key1, v1), Member(key2, v2)];
  }

  lemma TagIsAscii(size: nat, mtime: int)
    ensures forall c <- Ranges.ETag(size, mtime) :: c < 0x80
  {
    DigitsAreAscii(OfNat(size));
    DigitsAreAscii(if mtime < 0 then OfNat(-mtime) else OfNat(mtime));
  }

  lemma DigitsAreAscii(s: bytes)
    requires AllDigits(s)
    ensures forall c <- s :: c < 0x80
  {
    forall c | c in s
      ensures c < 0x80
    {
      assert IsDigit(c);
    }
  }

  lemma NormedMembers(e: Entry)
    requires e.stat.Some?
    ensures NormMembers(Members(e)) == NormFront(e) + (NormSize(e) + NormBack(e))
  {
    var word, rest := KindWord(e.stat.value.kind), SizeOf(e) + Back(e);
    NormedSize(e);
    KindStays(e.stat.value.kind);
    AsciiNames();
    TwoAndMore(NAME, Str(e.name), TYPE, Str(word), rest);
    MembersInOrder(e);
  }

  lemma MembersInOrder(e: Entry)
    requires e.stat.Some?
    ensures Members(e) == Front(e) + (SizeOf(e) + Back(e))
    ensures NormFront(e) + (NormSize(e) + NormBack(e)) == NormFront(e) + NormSize(e) + NormBack(e)
  {}

  lemma KindStays(k: Kind)
    ensures Sanitize(KindWord(k)) == KindWord(k)
  {
    AsciiStays(KindWord(k));
  }

  lemma AsciiNames()
    ensures (forall c <- NAME :: c < 0x80) && (forall c <- TYPE :: c < 0x80)
  {}

  lemma TwoAndMore(key1: bytes, v1: Value, key2: bytes, v2: Value, rest: seq<Member>)
    requires (forall c <- key1 :: c < 0x80) && (forall c <- key2 :: c < 0x80)
    ensures NormMembers([Member(key1, v1), Member(key2, v2)] + rest)
            == [(key1, Norm(v1))] + [(key2, Norm(v2))] + NormMembers(rest)
  {
    var ms, more := [Member(key1, v1), Member(key2, v2)] + rest, [Member(key2, v2)] + rest;
    assert ms == [Member(key1, v1)] + more;
    NormOne(more, key2, v2, rest);
    NormOne(ms, key1, v1, more);
  }

  lemma NormedSize(e: Entry)
    requires e.stat.Some?
    ensures NormMembers(SizeOf(e) + Back(e)) == NormSize(e) + NormBack(e)
  {
    NormedBack(e);
    if e.stat.value.kind.IsRegular? {
      NormOne(SizeOf(e) + Back(e), SIZE, Int(e.stat.value.size), Back(e));
    } else {
      assert [] + Back(e) == Back(e) && [] + NormBack(e) == NormBack(e);
    }
  }

  lemma FieldsBehind(e: Entry, wanted: bytes)
    requires e.stat.Some?
    ensures Field(NormBack(e), wanted) ==
            if wanted == MTIME then Some(JStr(Sanitize(e.stat.value.when)))
            else if wanted == ETAG then Some(JStr(Ranges.ETag(e.stat.value.size, e.stat.value.mtime)))
            else None
  {
    var tag := [(ETAG, JStr(Ranges.ETag(e.stat.value.size, e.stat.value.mtime)))];
    FieldOf(MTIME, JStr(Sanitize(e.stat.value.when)), tag, wanted);
    FieldOf(ETAG, tag[0].1, [], wanted);
    assert tag + [] == tag;
  }

  lemma FieldsOfEntry(e: Entry, wanted: bytes)
    requires e.stat.Some?
    ensures var st, field := e.stat.value, Field(NormFront(e) + (NormSize(e) + NormBack(e)), wanted);
            field ==
            if wanted == NAME then Some(JStr(Sanitize(e.name)))
            else if wanted == TYPE then Some(JStr(KindWord(st.kind)))
            else if wanted == SIZE && st.kind.IsRegular? then Some(JNum(OfInt(st.size)))
            else if wanted == MTIME then Some(JStr(Sanitize(st.when)))
            else if wanted == ETAG then Some(JStr(Ranges.ETag(st.size, st.mtime)))
            else None
  {
    var st := e.stat.value;
    var kind, rest := (TYPE, JStr(KindWord(st.kind))), NormSize(e) + NormBack(e);
    FieldsBehind(e, wanted);
    if st.kind.IsRegular? {
      FieldOf(SIZE, JNum(OfInt(st.size)), NormBack(e), wanted);
    } else {
      assert rest == NormBack(e);
    }
    FieldOf(TYPE, kind.1, rest, wanted);
    FieldOf(NAME, JStr(Sanitize(e.name)), [kind] + rest, wanted);
    assert NormFront(e) + rest == [(NAME, JStr(Sanitize(e.name)))] + ([kind] + rest);
  }

  lemma EntryReadsBack(e: Entry)
    requires e.stat.Some?
    ensures ReadEntry(Norm(Obj(Members(e)))) == Some(Seen(e))
  {
    var ms := NormFront(e) + (NormSize(e) + NormBack(e));
    NormedMembers(e);
    NameReadsBack(e, ms);
    KindReadsBack(e, ms);
    SizeReadsBack(e, ms);
    TimeReadsBack(e, ms);
  }

  lemma NameReadsBack(e: Entry, ms: seq<(bytes, Json)>)
    requires e.stat.Some? && ms == NormFront(e) + (NormSize(e) + NormBack(e))
    ensures ReadString(Field(ms, NAME)) == Some(Sanitize(e.name))
  {
    FieldsOfEntry(e, NAME);
  }

  lemma KindReadsBack(e: Entry, ms: seq<(bytes, Json)>)
    requires e.stat.Some? && ms == NormFront(e) + (NormSize(e) + NormBack(e))
    ensures ReadKind(Field(ms, TYPE)) == Some(e.stat.value.kind)
  {
    FieldsOfEntry(e, TYPE);
  }

  lemma SizeReadsBack(e: Entry, ms: seq<(bytes, Json)>)
    requires e.stat.Some? && ms == NormFront(e) + (NormSize(e) + NormBack(e))
    ensures ReadSize(Field(ms, SIZE)) == if e.stat.value.kind.IsRegular? then Some(e.stat.value.size) else None
  {
    FieldsOfEntry(e, SIZE);
    Strtoll.IntReadsBack(e.stat.value.size);
  }

  lemma TimeReadsBack(e: Entry, ms: seq<(bytes, Json)>)
    requires e.stat.Some? && ms == NormFront(e) + (NormSize(e) + NormBack(e))
    ensures ReadString(Field(ms, MTIME)) == Some(Sanitize(e.stat.value.when))
    ensures ReadString(Field(ms, ETAG)) == Some(Ranges.ETag(e.stat.value.size, e.stat.value.mtime))
  {
    FieldsOfEntry(e, MTIME);
    FieldsOfEntry(e, ETAG);
  }

  lemma {:induction false} EntriesReadBack(dir: bytes, entries: seq<Entry>)
    ensures ReadEntries(NormItems(Items(dir, entries))) == Some(SeenAll(dir, entries))
    decreases entries
  {
    if entries != [] {
      var e, rest := entries[0], Items(dir, entries[1..]);
      EntriesReadBack(dir, entries[1..]);
      if Listed(dir, e) {
        EntryReadsBack(e);
        assert ([Obj(Members(e))] + rest)[1..] == rest;
        assert ([Norm(Obj(Members(e)))] + NormItems(rest))[1..] == NormItems(rest);
      } else {
        assert [] + rest == rest;
      }
    }
  }

  /** A client that knows the format sees exactly what there is to see, in order. */
  lemma ClientSees(dir: bytes, url: bytes, entries: seq<Entry>)
    ensures ReadListing(Norm(Document(url, Items(dir, entries)))) == Some((Sanitize(url), SeenAll(dir, entries)))
  {
    var items := Items(dir, entries);
    NormedDocument(url, items);
    var list := [(ENTRIES, Norm(Arr(items)))];
    FieldOf(PATH, JStr(Sanitize(url)), list, PATH);
    FieldOf(PATH, JStr(Sanitize(url)), list, ENTRIES);
    FieldOf(ENTRIES, Norm(Arr(items)), [], ENTRIES);
    assert list + [] == list;
    EntriesReadBack(dir, entries);
  }

  lemma NormedDocument(url: bytes, items: seq<Value>)
    ensures Norm(Document(url, items)) == JObj([(PATH, JStr(Sanitize(url)))] + [(ENTRIES, Norm(Arr(items)))])
  {
    AsciiKeys();
    TwoMembers(PATH, Str(url), ENTRIES, Arr(items));
  }

  lemma AsciiKeys()
    ensures (forall c <- PATH :: c < 0x80) && (forall c <- ENTRIES :: c < 0x80)
  {}
}
