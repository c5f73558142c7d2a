/** What the builder's callers get: a reference reader recovers every value they emit. */
module JsonTheorems {
  import opened Bytes
  import opened Json
  import opened JsonInverse
  import opened JsonBuilder

  /** The calls that emit a value. */
  function Emit(v: Value): seq<Call>
    decreases v
  {
    match v
    case Arr(items) => [ArrOpen] + EmitItems(items) + [ArrClose]
    case Obj(members) => [ObjOpen] + EmitMembers(members) + [ObjClose]
    case _ => [Scalar(v)]
  }

  function EmitItems(items: seq<Value>): seq<Call>
    decreases items
  {
    if items == [] then [] else Emit(items[0]) + EmitItems(items[1..])
  }

  function EmitMembers(members: seq<Member>): seq<Call>
    decreases members
  {
    if members == [] then [] else EmitMember(members[0]) + EmitMembers(members[1..])
  }

  function EmitMember(m: Member): seq<Call>
    decreases m
  {
    [Key(m.key)] + Emit(m.value)
  }

  function Max(a: nat, b: nat): nat {
    if a > b then a else b
  }

  /** How many containers are open at the deepest point inside a value. */
  function Nesting(v: Value): nat
    decreases v
  {
    match v
    case Arr(items) => 1 + NestingItems(items)
    case Obj(members) => 1 + NestingMembers(members)
    case _ => 0
  }

  function NestingItems(items: seq<Value>): nat
    decreases items
  {
    if items == [] then 0 else Max(Nesting(items[0]), NestingItems(items[1..]))
  }

  function NestingMembers(members: seq<Member>): nat
    decreases members
  {
    if members == [] then 0 else Max(NestingMember(members[0]), NestingMembers(members[1..]))
  }

  function NestingMember(m: Member): nat
    decreases m
  {
    Nesting(m.value)
  }

  // --- Emitting adds exactly the value ------------------------------------------------------

  /** `calls` lead from `d` to `d'`, with at most `n` containers open on the way. */
  predicate Goes(d: Doc, calls: seq<Call>, d': Doc, n: nat) {
    FeedAll(d, calls) == Some(d') && Peak(d, calls) == n
  }

  lemma {:induction false} GoesAppend(d: Doc, c1: seq<Call>, d1: Doc, n1: nat, c2: seq<Call>, d2: Doc, n2: nat)
    requires Goes(d, c1, d1, n1) && Goes(d1, c2, d2, n2)
    ensures Goes(d, c1 + c2, d2, Max(n1, n2))
    decreases c1
  {
    if c1 == [] {
      assert c1 + c2 == c2;
    } else {
      var next := Feed(d, c1[0]).value;
      assert (c1 + c2)[1..] == c1[1..] + c2;
      GoesAppend(next, c1[1..], d1, Peak(next, c1[1..]), c2, d2, n2);
    }
  }

  lemma GoesOne(d: Doc, c: Call)
    requires Feed(d, c).Some?
    ensures var d' := Feed(d, c).value; Goes(d, [c], d', Max(|d.stack|, |d'.stack|))
  {
    var d' := Feed(d, c).value;
    assert [c][1..] == [];
    assert FeedAll(d', []) == Some(d') && Peak(d', []) == |d'.stack|;
  }

  lemma {:induction false} EmitGoes(d: Doc, v: Value)
    requires WantsValue(d)
    ensures Goes(d, Emit(v), Add(d, v), |d.stack| + Nesting(v))
    decreases v, 1
  {
    match v
    case Arr(_) => EmitArrGoes(d, v);
    case Obj(_) => EmitObjGoes(d, v);
    case _ => GoesOne(d, Scalar(v));
  }

  lemma {:induction false} EmitArrGoes(d: Doc, v: Value)
    requires WantsValue(d) && v.Arr?
    ensures Goes(d, Emit(v), Add(d, v), |d.stack| + Nesting(v))
    decreases v, 0
  {
    var inside := Doc(d.stack + [InArr([])], d.done);
    GoesOne(d, ArrOpen);
    EmitItemsGoes(d, [], v.items);
    var full := Doc(d.stack + [InArr([] + v.items)], d.done);
    assert [] + v.items == v.items;
    GoesAppend(d, [ArrOpen], inside, |d.stack| + 1, EmitItems(v.items), full, |d.stack| + 1 + NestingItems(v.items));
    assert Doc(Under(full), full.done) == d;
    GoesOne(full, ArrClose);
    GoesAppend(d, [ArrOpen] + EmitItems(v.items), full, |d.stack| + 1 + NestingItems(v.items),
               [ArrClose], Add(d, v), |d.stack| + 1);
  }

  lemma {:induction false} EmitItemsGoes(d: Doc, before: seq<Value>, items: seq<Value>)
    ensures Goes(Doc(d.stack + [InArr(before)], d.done), EmitItems(items),
                 Doc(d.stack + [InArr(before + items)], d.done), |d.stack| + 1 + NestingItems(items))
    decreases items
  {
    var from := Doc(d.stack + [InArr(before)], d.done);
    if items == [] {
      assert before + items == before;
    } else {
      var mid := Doc(d.stack + [InArr(before + [items[0]])], d.done);
      assert Under(from) == d.stack && Top(from) == InArr(before);
      EmitGoes(from, items[0]);
      EmitItemsGoes(d, before + [items[0]], items[1..]);
      assert before + [items[0]] + items[1..] == before + items;
      GoesAppend(from, Emit(items[0]), mid, |d.stack| + 1 + Nesting(items[0]), EmitItems(items[1..]),
                 Doc(d.stack + [InArr(before + items)], d.done), |d.stack| + 1 + NestingItems(items[1..]));
    }
  }

  lemma {:induction false} EmitObjGoes(d: Doc, v: Value)
    requires WantsValue(d) && v.Obj?
    ensures Goes(d, Emit(v), Add(d, v), |d.stack| + Nesting(v))
    decreases v, 0
  {
    var inside := Doc(d.stack + [InObj([])], d.done);
    GoesOne(d, ObjOpen);
    EmitMembersGoes(d, [], v.members);
    var full := Doc(d.stack + [InObj([] + v.members)], d.done);
    assert [] + v.members == v.members;
    GoesAppend(d, [ObjOpen], inside, |d.stack| + 1,
               EmitMembers(v.members), full, |d.stack| + 1 + NestingMembers(v.members));
    assert Doc(Under(full), full.done) == d;
    GoesOne(full, ObjClose);
    GoesAppend(d, [ObjOpen] + EmitMembers(v.members), full, |d.stack| + 1 + NestingMembers(v.members),
               [ObjClose], Add(d, v), |d.stack| + 1);
  }

  lemma {:induction false} EmitMemberGoes(d: Doc, before: seq<Member>, m: Member)
    ensures Goes(Doc(d.stack + [InObj(before)], d.done), EmitMember(m),
                 Doc(d.stack + [InObj(before + [m])], d.done), |d.stack| + 1 + NestingMember(m))
    decreases m
  {
    var from, keyed := Doc(d.stack + [InObj(before)], d.done), Doc(d.stack + [Keyed(before, m.key)], d.done);
    assert Under(from) == d.stack && Under(keyed) == d.stack;
    GoesOne(from, Key(m.key));
    EmitGoes(keyed, m.value);
    GoesAppend(from, [Key(m.key)], keyed, |d.stack| + 1, Emit(m.value),
               Doc(d.stack + [InObj(before + [m])], d.done), |d.stack| + 1 + Nesting(m.value));
  }

  lemma {:induction false} EmitMembersGoes(d: Doc, before: seq<Member>, members: seq<Member>)
    ensures Goes(Doc(d.stack + [InObj(before)], d.done), EmitMembers(members),
                 Doc(d.stack + [InObj(before + members)], d.done), |d.stack| + 1 + NestingMembers(members))
    decreases members
  {
    var from := Doc(d.stack + [InObj(before)], d.done);
    if members == [] {
      assert before + members == before;
    } else {
      var mid := Doc(d.stack + [InObj(before + [members[0]])], d.done);
      EmitMemberGoes(d, before, members[0]);
      EmitMembersGoes(d, before + [members[0]], members[1..]);
      assert before + [members[0]] + members[1..] == before + members;
      GoesAppend(from, EmitMember(members[0]), mid, |d.stack| + 1 + NestingMember(members[0]),
                 EmitMembers(members[1..]), Doc(d.stack + [InObj(before + members)], d.done),
                 |d.stack| + 1 + NestingMembers(members[1..]));
    }
  }

  // --- The theorems ---------------------------------------------------------------------------

  /** The builder inverts the reader: a value nested no deeper than the limit comes back as it
      was, its strings made UTF-8; a deeper one, and only a deeper one, sets the error latch.
      `b` is a new builder, or one whose document has been taken. */
  lemma EmittedReadsBack(b: Builder, v: Value)
    requires Agrees(b, EMPTY)
    ensures var b' := ApplyAll(b, Emit(v));
            && (b'.err <==> Nesting(v) > MAXDEPTH)
            && (!b'.err ==> Parse(b'.text) == Some(Norm(v)) && Agrees(b'.(text := []), EMPTY))
  {
    EmitGoes(EMPTY, v);
    Follows(b, EMPTY, Emit(v));
    DocumentReadsBack(v);
  }

  lemma FreshAgrees()
    ensures Agrees(INIT, EMPTY)
  {}

  predicate Waiting(d: Doc) {
    d.stack != [] && Top(d).Keyed?
  }

  /** One more call towards the end of an unfinished document. */
  function Closer(d: Doc): Call
    requires d.stack != []
  {
    match Top(d)
    case InArr(_) => ArrClose
    case InObj(_) => ObjClose
    case Keyed(_, _) => Scalar(Null)
  }

  lemma CloserGoes(d: Doc)
    requires WellNested(d) && d.stack != []
    ensures Feed(d, Closer(d)).Some?
    ensures var d' := Feed(d, Closer(d)).value;
            && WellNested(d') && Goes(d, [Closer(d)], d', |d.stack|)
            && (Waiting(d) ==> |d'.stack| == |d.stack| && !Waiting(d'))
            && (!Waiting(d) ==> |d'.stack| == |d.stack| - 1)
  {
    OuterWants(d);
    GoesOne(d, Closer(d));
    if Waiting(d) {
      assert forall i :: 0 <= i < |d.stack| - 1 ==> Feed(d, Closer(d)).value.stack[i] == d.stack[i];
    }
  }

  lemma OuterWants(d: Doc)
    requires WellNested(d) && d.stack != []
    ensures WantsValue(Doc(Under(d), d.done)) && WellNested(Doc(Under(d), d.done))
    ensures forall v :: WellNested(Add(Doc(Under(d), d.done), v))
  {
    var outer := Doc(Under(d), d.done);
    if outer.stack != [] {
      assert Top(outer) == d.stack[|d.stack| - 2];
      assert forall i :: 0 <= i < |outer.stack| ==> outer.stack[i] == d.stack[i];
    }
  }

  /** Any unfinished document can be finished, without opening anything more. */
  lemma {:induction false} Finish(d: Doc) returns (calls: seq<Call>, v: Value)
    requires WellNested(d)
    ensures Goes(d, calls, Doc([], Some(v)), |d.stack|)
    decreases |d.stack|, Waiting(d)
  {
    if d.stack != [] {
      CloserGoes(d);
      var d' := Feed(d, Closer(d)).value;
      calls, v := Finish(d');
      GoesAppend(d, [Closer(d)], d', |d.stack|, calls, Doc([], Some(v)), |d'.stack|);
      calls := [Closer(d)] + calls;
    } else if d.done.None? {
      GoesOne(d, Scalar(Null));
      calls, v := [Scalar(Null)], Null;
    } else {
      calls, v := [], d.done.value;
    }
  }

  lemma ApplyGrows(b: Builder, c: Call)
    requires Shaped(b)
    ensures b.text <= Apply(b, c).text
  {
    match c
    case Key(key) =>
      var b1 := if b.depth > 0 && b.need[b.depth] then Put(b, [COMMA]) else b;
      assert b.text <= b1.text <= Put(b1, PrintStr(key)).text;
    case Scalar(v) => assert b.text <= PreValue(b).text;
    case _ => assert b.text <= PreValue(b).text;
  }

  lemma {:induction false} TextGrows(b: Builder, calls: seq<Call>)
    requires Shaped(b)
    ensures b.text <= ApplyAll(b, calls).text
    decreases calls
  {
    if calls != [] {
      ApplyGrows(b, calls[0]);
      TextGrows(Apply(b, calls[0]), calls[1..]);
    }
  }

  lemma {:induction false} FeedKeepsNesting(d: Doc, calls: seq<Call>)
    requires WellNested(d) && FeedAll(d, calls).Some?
    ensures WellNested(FeedAll(d, calls).value)
    decreases calls
  {
    if calls != [] {
      var c := calls[0];
      if c.ObjClose? || c.ArrClose? {
        OuterWants(d);
      } else if d.stack != [] {
        assert forall i :: 0 <= i < |d.stack| - 1 ==> Feed(d, c).value.stack[i] == d.stack[i];
      }
      FeedKeepsNesting(Feed(d, c).value, calls[1..]);
    }
  }

  /** After every sensible sequence of calls within the nesting limit, the text is the beginning
      of some document the reader accepts. */
  lemma AlwaysCompletable(calls: seq<Call>) returns (more: seq<Call>, v: Value)
    requires FeedAll(EMPTY, calls).Some? && Peak(EMPTY, calls) <= MAXDEPTH
    ensures var b := ApplyAll(INIT, calls);
            var whole := ApplyAll(INIT, calls + more);
            && !b.err && !whole.err
            && b.text <= whole.text && Parse(whole.text) == Some(Norm(v))
  {
    var d := FeedAll(EMPTY, calls).value;
    FeedKeepsNesting(EMPTY, calls);
    more, v := Finish(d);
    Follows(INIT, EMPTY, calls);
    var b := ApplyAll(INIT, calls);
    Follows(b, d, more);
    ApplyAllAppend(INIT, calls, more);
    TextGrows(b, more);
    DocumentReadsBack(v);
  }
}
