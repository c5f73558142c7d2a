/**
 fsapi_list_json (src/core/fsapi.c): a directory listing built call by call on the JSON builder,
 proved to read back as the entries it was made from.
 */
module Listing {
  import opened Bytes
  import opened Json
  import opened JsonInverse
  import opened JsonBuilder
  import opened JsonTheorems
  import opened JsonBuf
  import Jail
  import Ranges

  datatype Kind = IsDir | IsRegular | IsOther

  /** What stat says of an entry, its time as already written out in text. */
  datatype Stat = Stat(kind: Kind, size: nat, mtime: int, when: bytes)

  /** One entry as readdir gives it; no `stat` when it has gone meanwhile. */
  datatype Entry = Entry(name: bytes, stat: Option<Stat>)

  const PATH: bytes := [0x70, 0x61, 0x74, 0x68]
  const ENTRIES: bytes := [0x65, 0x6E, 0x74, 0x72, 0x69, 0x65, 0x73]
  const NAME: bytes := [0x6E, 0x61, 0x6D, 0x65]
  const TYPE: bytes := [0x74, 0x79, 0x70, 0x65]
  const SIZE: bytes := [0x73, 0x69, 0x7A, 0x65]
  const MTIME: bytes := [0x6D, 0x74, 0x69, 0x6D, 0x65]
  const ETAG: bytes := [0x65, 0x74, 0x61, 0x67]
  const DIRWORD: bytes := [0x64, 0x69, 0x72]
  const FILEWORD: bytes := [0x66, 0x69, 0x6C, 0x65]
  const OTHERWORD: bytes := [0x6F, 0x74, 0x68, 0x65, 0x72]

  function KindWord(k: Kind): bytes {
    match k
    case IsDir => DIRWORD
    case IsRegular => FILEWORD
    case IsOther => OTHERWORD
  }

  /** Entries that are listed: not the dots, not what has a path too long or cannot be examined. */
  predicate Listed(dir: bytes, e: Entry) {
    e.name != [DOT] && e.name != [DOT, DOT] && |dir| + 1 + |e.name| < Jail.PATHCAP && e.stat.Some?
  }

  function Members(e: Entry): seq<Member>
    requires e.stat.Some?
  {
    Front(e) + SizeOf(e) + Back(e)
  }

  function SizeOf(e: Entry): seq<Member>
    requires e.stat.Some?
  {
    if e.stat.value.kind.IsRegular? then [Member(SIZE, Int(e.stat.value.size))] else []
  }

  function Front(e: Entry): seq<Member>
    requires e.stat.Some?
  {
    [Member(NAME, Str(e.name)), Member(TYPE, Str(KindWord(e.stat.value.kind)))]
  }

  function Back(e: Entry): seq<Member>
    requires e.stat.Some?
  {
    var st := e.stat.value;
    [Member(MTIME, Str(st.when)), Member(ETAG, Str(Ranges.ETag(st.size, st.mtime)))]
  }

  /** The listed entries, in order. */
  function Items(dir: bytes, entries: seq<Entry>): seq<Value> {
    if entries == [] then []
    else
      (if Listed(dir, entries[0]) then [Obj(Members(entries[0]))] else []) + Items(dir, entries[1..])
  }

  function Document(url: bytes, items: seq<Value>): Value {
    Obj([Member(PATH, Str(url)), Member(ENTRIES, Arr(items))])
  }

  // --- Calls ----------------------------------------------------------------------------------------

  lemma {:induction false} EmitMembersAppend(a: seq<Member>, b: seq<Member>)
    ensures EmitMembers(a + b) == EmitMembers(a) + EmitMembers(b)
    decreases a
  {
    if a == [] {
      assert a + b == b;
    } else {
      assert (a + b)[1..] == a[1..] + b;
      EmitMembersAppend(a[1..], b);
    }
  }

  lemma EmitMembersSnoc(ms: seq<Member>, m: Member)
    ensures EmitMembers(ms + [m]) == EmitMembers(ms) + EmitMember(m)
  {
    EmitMembersAppend(ms, [m]);
    assert [m][1..] == [] && EmitMember(m) + [] == EmitMember(m);
  }

  lemma {:induction false} EmitItemsAppend(a: seq<Value>, b: seq<Value>)
    ensures EmitItems(a + b) == EmitItems(a) + EmitItems(b)
    decreases a
  {
    if a == [] {
      assert a + b == b;
    } else {
      assert (a + b)[1..] == a[1..] + b;
      EmitItemsAppend(a[1..], b);
    }
  }

  function ItemIf(dir: bytes, e: Entry): seq<Value> {
    if Listed(dir, e) then [Obj(Members(e))] else []
  }

  lemma FirstItem(dir: bytes, entries: seq<Entry>)
    requires entries != []
    ensures Items(dir, entries) == ItemIf(dir, entries[0]) + Items(dir, entries[1..])
  {}

  lemma {:induction false} ItemsAppend(dir: bytes, a: seq<Entry>, b: seq<Entry>)
    ensures Items(dir, a + b) == Items(dir, a) + Items(dir, b)
    decreases a
  {
    if a == [] {
      assert a + b == b;
    } else {
      assert (a + b)[0] == a[0] && (a + b)[1..] == a[1..] + b;
      ItemsAppend(dir, a[1..], b);
      FirstItem(dir, a);
      FirstItem(dir, a + b);
    }
  }

  lemma ApplyAllSnoc(b: Builder, calls: seq<Call>, c: Call)
    requires Shaped(b)
    ensures ApplyAll(b, calls + [c]) == Apply(ApplyAll(b, calls), c)
  {
    ApplyAllAppend(b, calls, [c]);
    assert [c][1..] == [];
  }

  /** All that precedes the entries, and all that follows. */
  function Opening(url: bytes): seq<Call> {
    [ObjOpen, Key(PATH), Scalar(Str(url)), Key(ENTRIES), ArrOpen]
  }

  lemma DocumentCalls(url: bytes, items: seq<Value>)
    ensures Opening(url) + EmitItems(items) + [ArrClose, ObjClose] == Emit(Document(url, items))
  {
    var path, list := Member(PATH, Str(url)), Member(ENTRIES, Arr(items));
    assert EmitMember(path) == [Key(PATH), Scalar(Str(url))];
    assert Emit(Arr(items)) == [ArrOpen] + EmitItems(items) + [ArrClose];
    EmitMembersSnoc([path], list);
    EmitMembersSnoc([], path);
    assert [] + [path] == [path] && [path] + [list] == [path, list];
  }

  /** The listing is three levels deep at most. */
  lemma {:induction false} NestingOfItems(dir: bytes, entries: seq<Entry>)
    ensures NestingItems(Items(dir, entries)) <= 1
    decreases entries
  {
    if entries != [] {
      var e, rest := entries[0], Items(dir, entries[1..]);
      NestingOfItems(dir, entries[1..]);
      FirstItem(dir, entries);
      if Listed(dir, e) {
        FlatEntry(e);
        NestingOfOneMore(Obj(Members(e)), rest);
      } else {
        assert [] + rest == rest;
      }
    }
  }

  lemma FlatEntry(e: Entry)
    requires e.stat.Some?
    ensures Nesting(Obj(Members(e))) == 1
  {
    FlatMembers(Members(e));
  }

  lemma NestingOfOneMore(v: Value, rest: seq<Value>)
    requires Nesting(v) <= 1 && NestingItems(rest) <= 1
    ensures NestingItems([v] + rest) <= 1
  {
    assert ([v] + rest)[1..] == rest;
  }

  lemma {:induction false} FlatMembers(ms: seq<Member>)
    requires forall m <- ms :: IsScalar(m.value)
    ensures NestingMembers(ms) == 0
    decreases ms
  {
    if ms != [] {
      FlatMembers(ms[1..]);
      assert Nesting(ms[0].value) == 0;
      assert NestingMember(ms[0]) == 0;
    }
  }

  lemma NestingOfDocument(dir: bytes, url: bytes, entries: seq<Entry>)
    ensures Nesting(Document(url, Items(dir, entries))) <= 3
  {
    NestingOfItems(dir, entries);
    var path, list := Member(PATH, Str(url)), Member(ENTRIES, Arr(Items(dir, entries)));
    assert Nesting(path.value) == 0 && Nesting(list.value) <= 2;
    assert NestingMember(path) == 0 && NestingMember(list) <= 2;
    assert [list][1..] == [] && NestingMembers([list]) <= 2;
    assert [path, list][1..] == [list] && NestingMembers([path, list]) <= 2;
  }

  /** The buffer holds what `calls` lead to from an empty builder. */
  ghost predicate Holding(b: Buf, calls: seq<Call>)
    reads b, b.buf, b.need
  {
    b.Valid() && (!b.oom ==> b.Model() == ApplyAll(INIT, calls))
  }

  predicate Clean(c: Call) {
    && (c.Key? ==> NUL !in c.key)
    && (c.Scalar? ==> IsScalar(c.v) && (c.v.Str? ==> NUL !in c.v.s))
  }

  method Do(b: Buf, c: Call, ghost calls: seq<Call>) returns (ghost more: seq<Call>)
    requires Holding(b, calls) && Clean(c)
    modifies b, b.buf, b.need
    ensures (b.buf == old(b.buf) || fresh(b.buf)) && more == calls + [c] && Holding(b, more)
    ensures old(b.Plenty()) ==> b.Plenty() && b.oom == old(b.oom)
  {
    match c {
      case ObjOpen => b.Open(c);
      case ArrOpen => b.Open(c);
      case ObjClose => b.Close(c);
      case ArrClose => b.Close(c);
      case Key(key) => b.PutKey(key);
      case Scalar(v) => b.PutScalar(v);
    }
    more := calls + [c];
    ApplyAllSnoc(INIT, calls, c);
  }

  /** jb_kv_str and jb_kv_int, adding a member to the ones emitted since `base`. */
  method PutField(b: Buf, m: Member, ghost base: seq<Call>, ghost ms: seq<Member>) returns (ghost more: seq<Member>)
    requires Holding(b, base + EmitMembers(ms)) && NUL !in m.key && Clean(Scalar(m.value))
    modifies b, b.buf, b.need
    ensures (b.buf == old(b.buf) || fresh(b.buf)) && more == ms + [m] && Holding(b, base + EmitMembers(more))
    ensures old(b.Plenty()) ==> b.Plenty() && b.oom == old(b.oom)
  {
    ghost var calls := Do(b, Key(m.key), base + EmitMembers(ms));
    calls := Do(b, Scalar(m.value), calls);
    more := ms + [m];
    EmitMembersSnoc(ms, m);
    assert calls == base + EmitMembers(more);
  }

  predicate CleanEntry(e: Entry) {
    NUL !in e.name && (e.stat.Some? ==> NUL !in e.stat.value.when)
  }

  /** What every entry begins with. */
  method PutFront(b: Buf, e: Entry, ghost base: seq<Call>) returns (ghost ms: seq<Member>)
    requires Holding(b, base) && CleanEntry(e) && e.stat.Some?
    modifies b, b.buf, b.need
    ensures (b.buf == old(b.buf) || fresh(b.buf)) && ms == Front(e) && Holding(b, base + EmitMembers(ms))
    ensures old(b.Plenty()) ==> b.Plenty() && b.oom == old(b.oom)
  {
    ms := [];
    assert base + EmitMembers(ms) == base;
    ms := PutField(b, Member(NAME, Str(e.name)), base, ms);
    ms := PutField(b, Member(TYPE, Str(KindWord(e.stat.value.kind))), base, ms);
  }

  /** What every entry ends with. */
  method PutBack(b: Buf, e: Entry, ghost base: seq<Call>, ghost before: seq<Member>) returns (ghost ms: seq<Member>)
    requires Holding(b, base + EmitMembers(before)) && CleanEntry(e) && e.stat.Some?
    modifies b, b.buf, b.need
    ensures (b.buf == old(b.buf) || fresh(b.buf)) && ms == before + Back(e) && Holding(b, base + EmitMembers(ms))
    ensures old(b.Plenty()) ==> b.Plenty() && b.oom == old(b.oom)
  {
    var st := e.stat.value;
    Ranges.TagClean(st.size, st.mtime);
    ms := PutField(b, Member(MTIME, Str(st.when)), base, before);
    ms := PutField(b, Member(ETAG, Str(Ranges.ETag(st.size, st.mtime))), base, ms);
  }

  method PutFields(b: Buf, e: Entry, ghost base: seq<Call>)
    requires Holding(b, base) && CleanEntry(e) && e.stat.Some?
    modifies b, b.buf, b.need
    ensures (b.buf == old(b.buf) || fresh(b.buf)) && Holding(b, base + EmitMembers(Members(e)))
    ensures old(b.Plenty()) ==> b.Plenty() && b.oom == old(b.oom)
  {
    ghost var ms := PutFront(b, e, base);
    if e.stat.value.kind.IsRegular? {
      ms := PutField(b, Member(SIZE, Int(e.stat.value.size)), base, ms);
    } else {
      assert ms + [] == ms;
    }
    ms := PutBack(b, e, base, ms);
    assert ms == Members(e);
  }

  /** The body of the loop, for an entry that is listed. */
  method PutEntry(b: Buf, e: Entry, ghost calls: seq<Call>) returns (ghost more: seq<Call>)
    requires Holding(b, calls) && CleanEntry(e) && e.stat.Some?
    modifies b, b.buf, b.need
    ensures (b.buf == old(b.buf) || fresh(b.buf)) && more == calls + Emit(Obj(Members(e))) && Holding(b, more)
    ensures old(b.Plenty()) ==> b.Plenty() && b.oom == old(b.oom)
  {
    more := Do(b, ObjOpen, calls);
    PutFields(b, e, more);
    more := Do(b, ObjClose, more + EmitMembers(Members(e)));
    assert more == calls + Emit(Obj(Members(e)));
  }

  /** Everything before the loop. */
  method PutOpening(b: Buf, url: bytes) returns (ghost calls: seq<Call>)
    requires Holding(b, []) && NUL !in url
    modifies b, b.buf, b.need
    ensures (b.buf == old(b.buf) || fresh(b.buf)) && calls == Opening(url) && Holding(b, calls)
    ensures old(b.Plenty()) ==> b.Plenty() && b.oom == old(b.oom)
  {
    calls := Do(b, ObjOpen, []);
    calls := Do(b, Key(PATH), calls);
    calls := Do(b, Scalar(Str(url)), calls);
    calls := Do(b, Key(ENTRIES), calls);
    calls := Do(b, ArrOpen, calls);
  }

  /** fsapi_list_json. The text reads back as the path asked for and the entries listed, in
      order, with whatever was not UTF-8 in their names replaced; it comes unless an allocation
      fails. */
  method ListJson(dir: bytes, url: bytes, entries: seq<Entry>, grants: seq<bool>) returns (out: Option<bytes>)
    requires NUL !in url && forall e <- entries :: CleanEntry(e)
    ensures out.Some? ==> Parse(out.value) == Some(Norm(Document(url, Items(dir, entries))))
    ensures (forall g <- grants :: g) ==> out.Some?
  {
    var b := new Buf(grants);
    ghost var calls := PutOpening(b, url);
    calls := PutEntries(b, dir, entries, calls);
    calls := Do(b, ArrClose, calls);
    calls := Do(b, ObjClose, calls);
    DocumentCalls(url, Items(dir, entries));
    assert calls == Emit(Document(url, Items(dir, entries)));
    NestingOfDocument(dir, url, entries);
    FreshAgrees();
    EmittedReadsBack(INIT, Document(url, Items(dir, entries)));
    out := b.Take();
  }

  /** The loop over the directory. */
  method PutEntries(b: Buf, dir: bytes, entries: seq<Entry>, ghost calls: seq<Call>) returns (ghost more: seq<Call>)
    requires Holding(b, calls) && forall e <- entries :: CleanEntry(e)
    modifies b, b.buf, b.need
    ensures (b.buf == old(b.buf) || fresh(b.buf)) && Holding(b, more)
    ensures more == calls + EmitItems(Items(dir, entries))
    ensures old(b.Plenty()) ==> b.Plenty() && b.oom == old(b.oom)
  {
    more := calls;
    for i := 0 to |entries|
      invariant (b.buf == old(b.buf) || fresh(b.buf)) && Holding(b, more)
      invariant more == calls + EmitItems(Items(dir, entries[..i]))
      invariant old(b.Plenty()) ==> b.Plenty() && b.oom == old(b.oom)
    {
      OneEntryMore(dir, entries, i, i + 1);
      Joined(calls, EmitItems(Items(dir, entries[..i])), EmitIf(dir, entries[i]));
      if Listed(dir, entries[i]) {
        more := PutEntry(b, entries[i], more);
      }
    }
    assert entries[..|entries|] == entries;
  }

  lemma Joined(a: seq<Call>, b: seq<Call>, c: seq<Call>)
    ensures (a + b) + c == a + (b + c)
    ensures c == [] ==> a + (b + c) == a + b
  {}

  function EmitIf(dir: bytes, e: Entry): seq<Call> {
    if Listed(dir, e) then Emit(Obj(Members(e))) else []
  }

  lemma OneEntryMore(dir: bytes, entries: seq<Entry>, i: nat, j: nat)
    requires i < |entries| && j == i + 1
    ensures EmitItems(Items(dir, entries[..j])) == EmitItems(Items(dir, entries[..i])) + EmitIf(dir, entries[i])
  {
    var e := entries[i];
    assert entries[..j] == entries[..i] + [e];
    ItemsAppend(dir, entries[..i], [e]);
    EmitItemsAppend(Items(dir, entries[..i]), Items(dir, [e]));
    OneItem(dir, e);
  }

  lemma OneItem(dir: bytes, e: Entry)
    ensures EmitItems(Items(dir, [e])) == EmitIf(dir, e)
  {
    assert [e][1..] == [];
    if Listed(dir, e) {
      var item := Obj(Members(e));
      assert Items(dir, [e]) == [item] + [] == [item];
      assert [item][1..] == [] && EmitItems([item]) == Emit(item) + [] == Emit(item);
    }
  }
}
