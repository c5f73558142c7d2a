/**
 The JSON builder as a state machine: text so far, nesting depth, comma flags, the flag that
 jb_key raises, and the error latch (src/core/jsonw.c). Beside it stands a document that is
 being put together as a tree; the flags are proved to be exactly what that tree needs.
 */
module JsonBuilder {
  import opened Bytes
  import opened Decimal
  import opened Utf8
  import opened Json
  import opened JsonInverse

  const MAXDEPTH: nat := 32

  datatype Call =
    | ObjOpen | ObjClose | ArrOpen | ArrClose
    | Key(key: bytes)
    | Scalar(v: Value)         // jb_str, jb_int, jb_bool, jb_null

  predicate IsScalar(v: Value) {
    v.Null? || v.Bool? || v.Int? || v.Str?
  }

  /** `need[d]` says that the container at depth `d` already holds a value. */
  datatype Builder = Builder(text: bytes, err: bool, depth: nat, suppress: bool, need: seq<bool>)

  predicate Shaped(b: Builder) {
    b.depth <= MAXDEPTH && |b.need| == MAXDEPTH + 1
  }

  const INIT: Builder := Builder([], false, 0, false, seq(MAXDEPTH + 1, _ => false))

  /** jb_putc, jb_puts: nothing once the latch is set. */
  function Put(b: Builder, s: bytes): Builder {
    if b.err then b else b.(text := b.text + s)
  }

  function PreValue(b: Builder): Builder
    requires Shaped(b)
  {
    if b.suppress then b.(suppress := false)
    else if b.depth > 0 && b.need[b.depth] then Put(b, [COMMA])
    else b
  }

  function PostValue(b: Builder): Builder
    requires Shaped(b)
  {
    if b.depth > 0 then b.(need := b.need[b.depth := true]) else b
  }

  function Push(b: Builder): Builder
    requires Shaped(b)
  {
    if b.depth >= MAXDEPTH then b.(err := true)
    else b.(depth := b.depth + 1, need := b.need[b.depth + 1 := false])
  }

  function Pop(b: Builder): Builder
    requires Shaped(b)
  {
    PostValue(if b.depth > 0 then b.(depth := b.depth - 1) else b)
  }

  function Apply(b: Builder, c: Call): (b': Builder)
    requires Shaped(b)
    ensures Shaped(b')
  {
    match c
    case ObjOpen => Push(Put(PreValue(b), [LBRACE]))
    case ObjClose => Pop(Put(b, [RBRACE]))
    case ArrOpen => Push(Put(PreValue(b), [LBRACKET]))
    case ArrClose => Pop(Put(b, [RBRACKET]))
    case Key(key) =>
      var b1 := if b.depth > 0 && b.need[b.depth] then Put(b, [COMMA]) else b;
      Put(Put(b1, PrintStr(key)), [COLON]).(suppress := true)
    case Scalar(v) => PostValue(Put(PreValue(b), Print(v)))
  }

  function ApplyAll(b: Builder, calls: seq<Call>): (b': Builder)
    requires Shaped(b)
    ensures Shaped(b')
    decreases calls
  {
    if calls == [] then b else ApplyAll(Apply(b, calls[0]), calls[1..])
  }

  lemma {:induction false} ApplyAllAppend(b: Builder, c1: seq<Call>, c2: seq<Call>)
    requires Shaped(b)
    ensures ApplyAll(b, c1 + c2) == ApplyAll(ApplyAll(b, c1), c2)
    decreases c1
  {
    if c1 == [] {
      assert c1 + c2 == c2;
    } else {
      assert (c1 + c2)[1..] == c1[1..] + c2;
      ApplyAllAppend(Apply(b, c1[0]), c1[1..], c2);
    }
  }

  /** The error latch is for good, and the text is frozen with it. */
  lemma {:induction false} LatchIsSticky(b: Builder, calls: seq<Call>)
    requires Shaped(b) && b.err
    ensures ApplyAll(b, calls).err && ApplyAll(b, calls).text == b.text
    decreases calls
  {
    if calls != [] {
      LatchIsSticky(Apply(b, calls[0]), calls[1..]);
    }
  }

  // --- The document being built ---------------------------------------------------------------

  /** An open container; `Keyed` is an object whose last key still waits for its value. */
  datatype Frame =
    | InArr(items: seq<Value>)
    | InObj(members: seq<Member>)
    | Keyed(members: seq<Member>, key: bytes)

  /** Open containers, outermost first, and the finished top-level value if there is one. */
  datatype Doc = Doc(stack: seq<Frame>, done: Option<Value>)

  const EMPTY: Doc := Doc([], None)

  /** Whether a value may come next. */
  predicate WantsValue(d: Doc) {
    if d.stack == [] then d.done.None? else !Top(d).InObj?
  }

  function Top(d: Doc): Frame
    requires d.stack != []
  {
    d.stack[|d.stack| - 1]
  }

  function Under(d: Doc): seq<Frame>
    requires d.stack != []
  {
    d.stack[..|d.stack| - 1]
  }

  function FrameAdd(f: Frame, v: Value): Frame
    requires !f.InObj?
  {
    if f.InArr? then InArr(f.items + [v]) else InObj(f.members + [Member(f.key, v)])
  }

  function Add(d: Doc, v: Value): Doc
    requires WantsValue(d)
  {
    if d.stack == [] then Doc([], Some(v)) else Doc(Under(d) + [FrameAdd(Top(d), v)], d.done)
  }

  /** Which calls make sense when, and what they do to the document. */
  function Feed(d: Doc, c: Call): Option<Doc> {
    match c
    case ObjOpen => if WantsValue(d) then Some(Doc(d.stack + [InObj([])], d.done)) else None
    case ArrOpen => if WantsValue(d) then Some(Doc(d.stack + [InArr([])], d.done)) else None
    case ObjClose =>
      if d.stack != [] && Top(d).InObj? && WantsValue(Doc(Under(d), d.done))
      then Some(Add(Doc(Under(d), d.done), Obj(Top(d).members))) else None
    case ArrClose =>
      if d.stack != [] && Top(d).InArr? && WantsValue(Doc(Under(d), d.done))
      then Some(Add(Doc(Under(d), d.done), Arr(Top(d).items))) else None
    case Key(key) =>
      if d.stack != [] && Top(d).InObj?
      then Some(Doc(Under(d) + [Keyed(Top(d).members, key)], d.done)) else None
    case Scalar(v) => if WantsValue(d) && IsScalar(v) then Some(Add(d, v)) else None
  }

  function FeedAll(d: Doc, calls: seq<Call>): Option<Doc>
    decreases calls
  {
    if calls == [] then Some(d)
    else if Feed(d, calls[0]).None? then None
    else FeedAll(Feed(d, calls[0]).value, calls[1..])
  }

  lemma {:induction false} FeedAllAppend(d: Doc, c1: seq<Call>, c2: seq<Call>)
    requires FeedAll(d, c1).Some?
    ensures FeedAll(d, c1 + c2) == FeedAll(FeedAll(d, c1).value, c2)
    decreases c1
  {
    if c1 == [] {
      assert c1 + c2 == c2;
    } else {
      assert (c1 + c2)[1..] == c1[1..] + c2;
      FeedAllAppend(Feed(d, c1[0]).value, c1[1..], c2);
    }
  }

  // --- Text of an unfinished document ---------------------------------------------------------

  /** Whether a container holds a value already: what its comma flag should say. */
  predicate Holds(f: Frame) {
    match f
    case InArr(items) => items != []
    case InObj(members) => members != []
    case Keyed(members, _) => members != []
  }

  function Comma(b: bool): bytes {
    if b then [COMMA] else []
  }

  /** An open container as far as it has been printed. */
  function FrameText(f: Frame): bytes {
    match f
    case InArr(items) => [LBRACKET] + PrintItems(items)
    case InObj(members) => [LBRACE] + PrintMembers(members)
    case Keyed(members, key) =>
      [LBRACE] + PrintMembers(members) + Comma(members != []) + (PrintStr(key) + [COLON])
  }

  /** The same, once the next value in it has been begun. */
  function BegunText(f: Frame): bytes {
    FrameText(f) + Comma(f.InArr? && f.items != [])
  }

  function BelowText(stack: seq<Frame>): bytes {
    if stack == [] then []
    else BelowText(stack[..|stack| - 1]) + BegunText(stack[|stack| - 1])
  }

  function Text(d: Doc): bytes {
    if d.stack == [] then
      match d.done
      case None => []
      case Some(v) => Print(v)
    else BelowText(Under(d)) + FrameText(Top(d))
  }

  lemma {:induction false} ItemsSnoc(items: seq<Value>, v: Value)
    ensures PrintItems(items + [v]) == PrintItems(items) + Comma(items != []) + Print(v)
    decreases items
  {
    if items == [] {
      assert items + [v] == [v];
      assert [] + Print(v) == Print(v);
    } else {
      assert (items + [v])[1..] == items[1..] + [v];
      ItemsSnoc(items[1..], v);
      if |items| == 1 {
        assert items[1..] == [];
        assert PrintItems(items + [v]) == Print(items[0]) + [COMMA] + Print(v);
      } else {
        Unwrap2(Print(items[0]) + [COMMA], PrintItems(items[1..]), [COMMA], Print(v));
      }
    }
  }

  lemma Unwrap2(a: bytes, b: bytes, c: bytes, d: bytes)
    ensures a + (b + c + d) == (a + b) + c + d
  {}

  lemma {:induction false} MembersSnoc(members: seq<Member>, m: Member)
    ensures PrintMembers(members + [m]) == PrintMembers(members) + Comma(members != []) + PrintMember(m)
    decreases members
  {
    if members == [] {
      assert members + [m] == [m];
      assert [] + PrintMember(m) == PrintMember(m);
    } else {
      assert (members + [m])[1..] == members[1..] + [m];
      MembersSnoc(members[1..], m);
      if |members| == 1 {
        assert members[1..] == [];
        assert PrintMembers(members + [m]) == PrintMember(members[0]) + [COMMA] + PrintMember(m);
      } else {
        Unwrap2(PrintMember(members[0]) + [COMMA], PrintMembers(members[1..]), [COMMA], PrintMember(m));
      }
    }
  }

  /** Printing a value where one is wanted gives the text of the document that has it. */
  lemma AddText(d: Doc, v: Value)
    requires WantsValue(d) && d.stack != []
    ensures Text(Add(d, v)) == BelowText(d.stack) + Print(v)
  {
    AddParts(d, v);
    AddFrameText(Top(d), v, BelowText(Under(d)));
  }

  lemma AddParts(d: Doc, v: Value)
    requires WantsValue(d) && d.stack != []
    ensures Text(Add(d, v)) == BelowText(Under(d)) + FrameText(FrameAdd(Top(d), v))
    ensures BelowText(d.stack) == BelowText(Under(d)) + BegunText(Top(d))
  {
    var d' := Add(d, v);
    assert d'.stack == Under(d) + [FrameAdd(Top(d), v)];
    assert Under(d') == Under(d) && Top(d') == FrameAdd(Top(d), v);
    assert Text(d') == BelowText(Under(d')) + FrameText(Top(d'));
  }

  lemma AddFrameText(f: Frame, v: Value, below: bytes)
    requires !f.InObj?
    ensures below + FrameText(FrameAdd(f, v)) == (below + BegunText(f)) + Print(v)
  {
    if f.InArr? {
      ItemsSnoc(f.items, v);
      AddItemText(below, PrintItems(f.items), Comma(f.items != []), Print(v));
    } else {
      MembersSnoc(f.members, Member(f.key, v));
      AddMemberText(below, PrintMembers(f.members), Comma(f.members != []), PrintStr(f.key), Print(v));
    }
  }

  lemma AddItemText(below: bytes, items: bytes, comma: bytes, v: bytes)
    ensures below + ([LBRACKET] + (items + comma + v)) == (below + (([LBRACKET] + items) + comma)) + v
  {}

  lemma AddMemberText(below: bytes, members: bytes, comma: bytes, key: bytes, v: bytes)
    ensures below + ([LBRACE] + (members + comma + (key + [COLON] + v)))
            == (below + (([LBRACE] + members + comma + (key + [COLON])) + [])) + v
  {}

  // --- The builder keeps in step with the document --------------------------------------------

  /** Only the innermost container can be an object between members. */
  predicate WellNested(d: Doc) {
    && (d.stack != [] ==> d.done.None?)
    && forall i :: 0 <= i < |d.stack| - 1 ==> !d.stack[i].InObj?
  }

  predicate Agrees(b: Builder, d: Doc) {
    && Shaped(b) && WellNested(d) && !b.err
    && b.text == Text(d)
    && b.depth == |d.stack|
    && (b.suppress <==> d.stack != [] && Top(d).Keyed?)
    && forall i :: 0 <= i < |d.stack| ==> b.need[i + 1] == Holds(d.stack[i])
  }

  lemma BelowOfWhole(d: Doc)
    requires d.stack != []
    ensures BelowText(d.stack) == Text(d) + Comma(Top(d).InArr? && Top(d).items != [])
  {
    Assoc(BelowText(Under(d)), FrameText(Top(d)), Comma(Top(d).InArr? && Top(d).items != []));
  }

  lemma PreValueText(b: Builder, d: Doc)
    requires Agrees(b, d) && WantsValue(d)
    ensures PreValue(b) == b.(text := BelowText(d.stack), suppress := false)
  {
    if d.stack == [] {
      assert Text(d) == [];
    } else {
      BelowOfWhole(d);
      assert b.need[|d.stack| - 1 + 1] == Holds(Top(d));
      assert Text(d) + [] == Text(d);
    }
  }

  /** Adding a value changes only the innermost container, and leaves it open and non-empty. */
  lemma AddFrames(d: Doc, v: Value)
    requires WantsValue(d) && WellNested(d) && d.stack != []
    ensures var d' := Add(d, v);
            && |d'.stack| == |d.stack| && Under(d') == Under(d) && d'.done == d.done
            && Holds(Top(d')) && !Top(d').Keyed? && WellNested(d')
  {}

  /** What a value that has just been printed does to flags and document alike. */
  lemma Landed(b: Builder, d: Doc, v: Value)
    requires WantsValue(d) && WellNested(d)
    requires Shaped(b) && !b.err && !b.suppress && b.depth == |d.stack| && b.text == BelowText(d.stack) + Print(v)
    requires forall i :: 0 <= i < |d.stack| - 1 ==> b.need[i + 1] == Holds(d.stack[i])
    ensures Agrees(PostValue(b), Add(d, v))
  {
    if d.stack == [] {
      assert [] + Print(v) == Print(v);
    } else {
      AddText(d, v);
      AddFrames(d, v);
      LandedFlags(b, d.stack, Add(d, v).stack);
    }
  }

  lemma LandedFlags(b: Builder, stack: seq<Frame>, stack': seq<Frame>)
    requires Shaped(b) && stack != [] && b.depth == |stack| == |stack'| && Holds(stack'[|stack| - 1])
    requires stack'[..|stack| - 1] == stack[..|stack| - 1]
    requires forall i :: 0 <= i < |stack| - 1 ==> b.need[i + 1] == Holds(stack[i])
    ensures forall i :: 0 <= i < |stack'| ==> PostValue(b).need[i + 1] == Holds(stack'[i])
  {
    forall i | 0 <= i < |stack'|
      ensures PostValue(b).need[i + 1] == Holds(stack'[i])
    {
      if i < |stack| - 1 {
        assert stack'[i] == stack'[..|stack| - 1][i] == stack[..|stack| - 1][i] == stack[i];
      }
    }
  }

  lemma ScalarStep(b: Builder, d: Doc, v: Value)
    requires Agrees(b, d) && Feed(d, Scalar(v)).Some?
    ensures Agrees(Apply(b, Scalar(v)), Feed(d, Scalar(v)).value)
  {
    PreValueText(b, d);
    Landed(Put(PreValue(b), Print(v)), d, v);
  }

  lemma OpenedDoc(d: Doc, f: Frame)
    requires WantsValue(d) && WellNested(d) && (f == InObj([]) || f == InArr([]))
    ensures var d' := Doc(d.stack + [f], d.done);
            && Under(d') == d.stack && Top(d') == f && WellNested(d')
            && Text(d') == BelowText(d.stack) + [if f.InObj? then LBRACE else LBRACKET]
  {
    var d' := Doc(d.stack + [f], d.done);
    assert Under(d') == d.stack && Top(d') == f;
    assert FrameText(f) == [if f.InObj? then LBRACE else LBRACKET];
    assert d.stack != [] ==> !Top(d).InObj?;
  }

  lemma OpenStep(b: Builder, d: Doc, c: Call)
    requires Agrees(b, d) && (c.ObjOpen? || c.ArrOpen?) && Feed(d, c).Some?
    ensures |d.stack| < MAXDEPTH ==> Agrees(Apply(b, c), Feed(d, c).value)
    ensures |d.stack| == MAXDEPTH ==> Apply(b, c).err
  {
    PreValueText(b, d);
    var f := if c.ObjOpen? then InObj([]) else InArr([]);
    OpenedDoc(d, f);
    var begun := b.(text := BelowText(d.stack) + [if f.InObj? then LBRACE else LBRACKET], suppress := false);
    assert Apply(b, c) == Push(begun);
    if |d.stack| < MAXDEPTH {
      PushedAgrees(b, begun, d, f);
    }
  }

  lemma PushedAgrees(b: Builder, begun: Builder, d: Doc, f: Frame)
    requires Agrees(b, d) && |d.stack| < MAXDEPTH && (f == InObj([]) || f == InArr([]))
    requires WellNested(Doc(d.stack + [f], d.done)) && begun.text == Text(Doc(d.stack + [f], d.done))
    requires begun == b.(text := begun.text, suppress := false)
    ensures Agrees(Push(begun), Doc(d.stack + [f], d.done))
  {
    PushedFlags(b.need, d.stack, f);
    assert Top(Doc(d.stack + [f], d.done)) == f;
  }

  lemma PushedFlags(need: seq<bool>, stack: seq<Frame>, f: Frame)
    requires |need| > |stack| + 1 && (f == InObj([]) || f == InArr([]))
    requires forall i :: 0 <= i < |stack| ==> need[i + 1] == Holds(stack[i])
    ensures var stack' := stack + [f];
            forall i :: 0 <= i < |stack'| ==> need[|stack| + 1 := false][i + 1] == Holds(stack'[i])
  {
    var need', stack' := need[|stack| + 1 := false], stack + [f];
    forall i | 0 <= i < |stack'|
      ensures need'[i + 1] == Holds(stack'[i])
    {
      if i < |stack| {
        assert need'[i + 1] == need[i + 1];
      }
    }
  }

  lemma KeyStep(b: Builder, d: Doc, key: bytes)
    requires Agrees(b, d) && Feed(d, Key(key)).Some?
    ensures Agrees(Apply(b, Key(key)), Feed(d, Key(key)).value)
  {
    var members, below := Top(d).members, BelowText(Under(d));
    var d' := Feed(d, Key(key)).value;
    assert Under(d') == Under(d) && Top(d') == Keyed(members, key);
    assert b.need[|d.stack| - 1 + 1] == Holds(Top(d));
    KeyText(below, PrintMembers(members), Comma(members != []), PrintStr(key));
    assert b.text + [] == b.text;
    KeyedFlags(b.need, d.stack, d'.stack);
  }

  lemma KeyedFlags(need: seq<bool>, stack: seq<Frame>, stack': seq<Frame>)
    requires stack != [] && |stack'| == |stack| < |need| && stack'[..|stack| - 1] == stack[..|stack| - 1]
    requires Holds(stack'[|stack| - 1]) == Holds(stack[|stack| - 1])
    requires forall i :: 0 <= i < |stack| ==> need[i + 1] == Holds(stack[i])
    ensures forall i :: 0 <= i < |stack'| ==> need[i + 1] == Holds(stack'[i])
  {
    forall i | 0 <= i < |stack'|
      ensures need[i + 1] == Holds(stack'[i])
    {
      if i < |stack| - 1 {
        assert stack'[i] == stack'[..|stack| - 1][i] == stack[..|stack| - 1][i] == stack[i];
      }
    }
  }

  lemma KeyText(below: bytes, members: bytes, comma: bytes, key: bytes)
    ensures below + ([LBRACE] + members) + comma + key + [COLON]
            == below + ([LBRACE] + members + comma + (key + [COLON]))
  {}

  /** What a closed container is worth. */
  function Closed(f: Frame): Value
    requires !f.Keyed?
  {
    if f.InObj? then Obj(f.members) else Arr(f.items)
  }

  function CloseMark(f: Frame): bytes {
    [if f.InArr? then RBRACKET else RBRACE]
  }

  lemma CloseText(d: Doc)
    requires d.stack != [] && !Top(d).Keyed?
    ensures Text(d) + CloseMark(Top(d)) == BelowText(Under(d)) + Print(Closed(Top(d)))
  {
    Assoc(BelowText(Under(d)), FrameText(Top(d)), CloseMark(Top(d)));
    assert FrameText(Top(d)) + CloseMark(Top(d)) == Print(Closed(Top(d)));
  }

  lemma CloseStep(b: Builder, d: Doc, c: Call)
    requires Agrees(b, d) && (c.ObjClose? || c.ArrClose?) && Feed(d, c).Some?
    ensures Agrees(Apply(b, c), Feed(d, c).value)
  {
    var outer, mark := Doc(Under(d), d.done), CloseMark(Top(d));
    CloseText(d);
    assert forall i :: 0 <= i < |outer.stack| ==> outer.stack[i] == d.stack[i];
    var closed := b.(text := b.text + mark, depth := b.depth - 1);
    Landed(closed, outer, Closed(Top(d)));
    assert Apply(b, c) == PostValue(closed);
  }

  lemma Step(b: Builder, d: Doc, c: Call)
    requires Agrees(b, d) && Feed(d, c).Some?
    ensures |Feed(d, c).value.stack| <= MAXDEPTH ==> Agrees(Apply(b, c), Feed(d, c).value)
    ensures |Feed(d, c).value.stack| > MAXDEPTH ==> Apply(b, c).err
  {
    match c
    case Scalar(v) => ScalarStep(b, d, v);
    case Key(key) => KeyStep(b, d, key);
    case ObjOpen => OpenStep(b, d, c);
    case ArrOpen => OpenStep(b, d, c);
    case ObjClose => CloseStep(b, d, c);
    case ArrClose => CloseStep(b, d, c);
  }

  /** The deepest nesting on the way through `calls`. */
  function Peak(d: Doc, calls: seq<Call>): (n: nat)
    ensures n >= |d.stack|
    decreases calls
  {
    if calls == [] || Feed(d, calls[0]).None? then |d.stack|
    else
      var n := Peak(Feed(d, calls[0]).value, calls[1..]);
      if n > |d.stack| then n else |d.stack|
  }

  /** The builder follows every sensible sequence of calls, and latches an error exactly when
      the nesting goes beyond the limit. */
  lemma {:induction false} Follows(b: Builder, d: Doc, calls: seq<Call>)
    requires Agrees(b, d) && FeedAll(d, calls).Some?
    ensures Peak(d, calls) <= MAXDEPTH ==> Agrees(ApplyAll(b, calls), FeedAll(d, calls).value)
    ensures Peak(d, calls) > MAXDEPTH ==> ApplyAll(b, calls).err
    decreases calls
  {
    if calls != [] {
      var d' := Feed(d, calls[0]).value;
      Step(b, d, calls[0]);
      if |d'.stack| <= MAXDEPTH {
        Follows(Apply(b, calls[0]), d', calls[1..]);
      } else {
        LatchIsSticky(Apply(b, calls[0]), calls[1..]);
      }
    }
  }
}
