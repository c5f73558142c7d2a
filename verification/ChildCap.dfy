/**
 The cap on concurrent children: the accept loop of main and the SIGCHLD handler
 reap_children (src/core/unasd.c) share one counter, and neither its increment nor its
 decrement is a single step. `masked` says whether main holds SIGCHLD off around fork, as the
 source does; with it off, the last lemmas show what goes wrong.
 */
module ChildCap {
  import opened Bytes

  /** Where main is. `room` is remembered from the comparison with the cap. */
  datatype Main =
    | Accepting
    | Accepted                   // a connection is in hand, the counter not yet compared
    | Admitted                   // below the cap (or no cap): about to block SIGCHLD
    | Forking                    // SIGCHLD blocked (if `masked`)
    | Forked                     // the child exists, the counter does not know it yet
    | Loaded(v: nat)             // the increment has read the counter
    | Counted                    // the increment has written it; SIGCHLD still blocked
    | Serving                    // fork failed: serving inline, SIGCHLD open again

  /** Where the handler is, if it is running at all: main stands still meanwhile. */
  datatype Handler =
    | Idle
    | Waiting                    // about to call waitpid(-1, NULL, WNOHANG)
    | Reaped                     // it returned a child; about to test the counter
    | Passed                     // the test `> 0` held; about to read for the decrement
    | Fetched(v: nat)            // the decrement has read the counter

  datatype State = State(
    main: Main, handler: Handler, live: int,
    running: set<nat>, zombies: set<nat>, pending: bool)

  datatype Action =
    | Accept | Refuse503 | Admit | Block | Fork(child: nat) | ForkFails | Load | Store | Unblock | Served
    | Exit(child: nat)
    | Deliver | Reap(child: nat) | NoneLeft | TestPositive | TestZero | Fetch | Decrement

  /** SIGCHLD is held off by main's mask, or because its handler is already running. */
  predicate Blocked(masked: bool, s: State) {
    || s.handler != Idle
    || (masked && (s.main.Forking? || s.main.Forked? || s.main.Loaded? || s.main.Counted?))
  }

  predicate Enabled(masked: bool, max: nat, s: State, a: Action) {
    match a
    case Accept => s.handler.Idle? && s.main.Accepting?
    case Refuse503 => s.handler.Idle? && s.main.Accepted? && max > 0 && s.live >= max
    case Admit => s.handler.Idle? && s.main.Accepted? && !(max > 0 && s.live >= max)
    case Block => s.handler.Idle? && s.main.Admitted?
    case Fork(child) => s.handler.Idle? && s.main.Forking? && child !in s.running + s.zombies
    case ForkFails => s.handler.Idle? && s.main.Forking?
    case Load => s.handler.Idle? && s.main.Forked? && s.live >= 0
    case Store => s.handler.Idle? && s.main.Loaded?
    case Unblock => s.handler.Idle? && s.main.Counted?
    case Served => s.handler.Idle? && s.main.Serving?
    case Exit(child) => child in s.running
    case Deliver => s.pending && !Blocked(masked, s)
    case Reap(child) => s.handler.Waiting? && child in s.zombies
    case NoneLeft => s.handler.Waiting? && s.zombies == {}
    case TestPositive => s.handler.Reaped? && s.live > 0
    case TestZero => s.handler.Reaped? && s.live <= 0
    case Fetch => s.handler.Passed? && s.live >= 0
    case Decrement => s.handler.Fetched?
  }

  function After(s: State, a: Action): State
    requires a.Store? ==> s.main.Loaded?
    requires a.Decrement? ==> s.handler.Fetched?
    requires a.Load? || a.Fetch? ==> s.live >= 0
  {
    match a
    case Accept => s.(main := Accepted)
    case Refuse503 => s.(main := Accepting)
    case Admit => s.(main := Admitted)
    case Block => s.(main := Forking)
    case Fork(child) => s.(main := Forked, running := s.running + {child})
    case ForkFails => s.(main := Serving)
    case Load => s.(main := Loaded(s.live))
    case Store => s.(main := Counted, live := s.main.v + 1)
    case Unblock => s.(main := Accepting)
    case Served => s.(main := Accepting)
    case Exit(child) => s.(running := s.running - {child}, zombies := s.zombies + {child}, pending := true)
    case Deliver => s.(handler := Waiting, pending := false)
    case Reap(child) => s.(handler := Reaped, zombies := s.zombies - {child})
    case NoneLeft => s.(handler := Idle)
    case TestPositive => s.(handler := Passed)
    case TestZero => s.(handler := Waiting)
    case Fetch => s.(handler := Fetched(s.live))
    case Decrement => s.(handler := Waiting, live := s.handler.v - 1)
  }

  const START: State := State(Accepting, Idle, 0, {}, {}, false)

  /** Where a run of actions leads from `s`; None when one of them could not happen. */
  function Leads(masked: bool, max: nat, s: State, acts: seq<Action>): Option<State>
    decreases acts
  {
    if acts == [] then Some(s)
    else if Enabled(masked, max, s, acts[0]) then Leads(masked, max, After(s, acts[0]), acts[1..])
    else None
  }

  /** Children that exist: not yet reaped. */
  function Unreaped(s: State): nat {
    |s.running| + |s.zombies|
  }

  /** The one increment or decrement that may be under way. */
  function Owed(s: State): int {
    (if s.main.Forked? || s.main.Loaded? then 1 else 0) -
    (if s.handler.Reaped? || s.handler.Passed? || s.handler.Fetched? then 1 else 0)
  }

  ghost predicate Inv(max: nat, s: State) {
    && s.running !! s.zombies
    && s.live + Owed(s) == Unreaped(s) && s.live >= 0
    && (s.main.Loaded? ==> s.main.v == s.live)
    && (s.handler.Fetched? ==> s.handler.v == s.live)
    && (!s.handler.Idle? ==> !(s.main.Forking? || s.main.Forked? || s.main.Loaded? || s.main.Counted?))
    && (s.zombies != {} ==> s.pending || !s.handler.Idle?)
    && (max > 0 ==> s.live <= max)
    && (max > 0 && (s.main.Admitted? || s.main.Forking? || s.main.Forked? || s.main.Loaded?) ==> s.live < max)
  }

  predicate IsMain(a: Action) {
    || a.Accept? || a.Refuse503? || a.Admit? || a.Block? || a.ForkFails?
    || a.Load? || a.Store? || a.Unblock? || a.Served?
  }

  lemma MainKeeps(max: nat, s: State, a: Action)
    requires Inv(max, s) && Enabled(true, max, s, a) && IsMain(a)
    ensures Inv(max, After(s, a))
  {}

  lemma ForkKeeps(max: nat, s: State, child: nat)
    requires Inv(max, s) && Enabled(true, max, s, Fork(child))
    ensures Inv(max, After(s, Fork(child)))
  {
    assert |s.running + {child}| == |s.running| + 1;
  }

  lemma ExitKeeps(max: nat, s: State, child: nat)
    requires Inv(max, s) && Enabled(true, max, s, Exit(child))
    ensures Inv(max, After(s, Exit(child)))
  {
    assert |s.running - {child}| == |s.running| - 1;
    assert |s.zombies + {child}| == |s.zombies| + 1;
  }

  lemma ReapKeeps(max: nat, s: State, child: nat)
    requires Inv(max, s) && Enabled(true, max, s, Reap(child))
    ensures Inv(max, After(s, Reap(child)))
  {
    assert |s.zombies - {child}| == |s.zombies| - 1;
  }

  lemma HandlerKeeps(max: nat, s: State, a: Action)
    requires Inv(max, s) && Enabled(true, max, s, a) && !IsMain(a) && !a.Fork? && !a.Exit? && !a.Reap?
    ensures Inv(max, After(s, a))
  {}

  lemma InvStep(max: nat, s: State, a: Action)
    requires Inv(max, s) && Enabled(true, max, s, a)
    ensures Inv(max, After(s, a))
  {
    match a
    case Fork(child) => ForkKeeps(max, s, child);
    case Exit(child) => ExitKeeps(max, s, child);
    case Reap(child) => ReapKeeps(max, s, child);
    case _ => if IsMain(a) { MainKeeps(max, s, a); } else { HandlerKeeps(max, s, a); }
  }

  lemma {:induction false} InvAlong(max: nat, s: State, acts: seq<Action>)
    requires Inv(max, s) && Leads(true, max, s, acts).Some?
    ensures Inv(max, Leads(true, max, s, acts).value)
    decreases acts
  {
    if acts != [] {
      InvStep(max, s, acts[0]);
      InvAlong(max, After(s, acts[0]), acts[1..]);
    }
  }

  // --- The daemon as written: SIGCHLD blocked around fork ----------------------------------

  /** In every interleaving the counter is the number of unreaped children, but for the one
      increment or decrement under way. */
  lemma CountIsTrue(max: nat, acts: seq<Action>)
    requires Leads(true, max, START, acts).Some?
    ensures var s := Leads(true, max, START, acts).value;
            s.running !! s.zombies && s.live + Owed(s) == Unreaped(s) && s.live >= 0
  {
    InvAlong(max, START, acts);
  }

  /** The cap bounds the counter and the children themselves. */
  lemma CapHolds(max: nat, acts: seq<Action>)
    requires Leads(true, max, START, acts).Some? && max > 0
    ensures var s := Leads(true, max, START, acts).value; s.live <= max && Unreaped(s) <= max
  {
    InvAlong(max, START, acts);
  }

  /** The handler's test `live_children > 0` never suppresses a decrement. */
  lemma GuardAlwaysPasses(max: nat, acts: seq<Action>)
    requires Leads(true, max, START, acts).Some?
    ensures !Enabled(true, max, Leads(true, max, START, acts).value, TestZero)
  {
    InvAlong(max, START, acts);
  }

  /** No zombie is forgotten: the signal is pending, or the handler will call waitpid again. */
  lemma ZombiesWillBeReaped(max: nat, acts: seq<Action>)
    requires Leads(true, max, START, acts).Some?
    ensures var s := Leads(true, max, START, acts).value;
            s.zombies != {} ==> s.pending || !s.handler.Idle?
  {
    InvAlong(max, START, acts);
  }

  /** Whenever main waits for a connection with nothing left to reap, it will admit the next one
      exactly if fewer than `max` children are running. */
  lemma RoomIsReal(max: nat, acts: seq<Action>)
    requires Leads(true, max, START, acts).Some?
    ensures var s := Leads(true, max, START, acts).value;
            s.main.Accepted? && s.handler.Idle? && !s.pending ==>
              && s.live == |s.running|
              && (Enabled(true, max, s, Admit) <==> max == 0 || |s.running| < max)
              && (Enabled(true, max, s, Refuse503) <==> max > 0 && |s.running| == max)
  {
    InvAlong(max, START, acts);
  }

  // --- Progress ----------------------------------------------------------------------------------

  /** What the daemon does by itself: neither a connection that comes nor a child that ends. */
  predicate Own(a: Action) {
    !a.Accept? && !a.Exit?
  }

  function MainRank(m: Main): nat {
    match m
    case Accepting => 0
    case Accepted => 6
    case Admitted => 5
    case Forking => 4
    case Forked => 3
    case Loaded(_) => 2
    case Counted => 1
    case Serving => 1
  }

  function HandlerRank(h: Handler): nat {
    match h
    case Idle => 0
    case Waiting => 1
    case Reaped => 4
    case Passed => 3
    case Fetched(_) => 2
  }

  /** How much is left to do before the daemon rests. */
  function Rank(s: State): nat {
    MainRank(s.main) + HandlerRank(s.handler) + 4 * |s.zombies| + (if s.pending then 2 else 0)
  }

  lemma RankFalls(masked: bool, max: nat, s: State, a: Action)
    requires Enabled(masked, max, s, a) && Own(a)
    ensures Rank(After(s, a)) < Rank(s)
  {
    if a.Reap? {
      OneLess(s.zombies, a.child);
    }
  }

  /** However main and the handler take turns, they come to rest, unless a connection comes or a
      child ends meanwhile. */
  lemma {:induction false} OwnActionsEnd(masked: bool, max: nat, s: State, acts: seq<Action>)
    requires Leads(masked, max, s, acts).Some? && forall a <- acts :: Own(a)
    ensures |acts| <= Rank(s)
    decreases acts
  {
    if acts != [] {
      RankFalls(masked, max, s, acts[0]);
      OwnActionsEnd(masked, max, After(s, acts[0]), acts[1..]);
    }
  }

  /** Main waits for a connection, no signal waits for main, and nobody waits to be reaped. */
  predicate Drained(s: State) {
    s.main.Accepting? && s.handler.Idle? && s.zombies == {} && !s.pending
  }

  /** With the mask there is always something to go on with, and no fork is needed for it. */
  lemma GoesOn(max: nat, s: State) returns (a: Action)
    requires Inv(max, s) && !Drained(s)
    ensures Own(a) && !a.Fork? && Enabled(true, max, s, a)
  {
    match s.handler
    case Idle => a := MainGoesOn(max, s);
    case Waiting =>
      if child :| child in s.zombies {
        a := Reap(child);
      } else {
        a := NoneLeft;
      }
    case Reaped => a := if s.live > 0 then TestPositive else TestZero;
    case Passed => a := Fetch;
    case Fetched(_) => a := Decrement;
  }

  lemma MainGoesOn(max: nat, s: State) returns (a: Action)
    requires Inv(max, s) && !Drained(s) && s.handler.Idle?
    ensures Own(a) && !a.Fork? && Enabled(true, max, s, a)
  {
    match s.main
    case Accepting => a := Deliver;
    case Accepted => a := if max > 0 && s.live >= max then Refuse503 else Admit;
    case Admitted => a := Block;
    case Forking => a := ForkFails;
    case Forked => a := Load;
    case Loaded(_) => a := Store;
    case Counted => a := Unblock;
    case Serving => a := Served;
  }

  /** When nothing is left to do, every zombie has been reaped and the count is that of the
      children running. */
  lemma RestIsDrained(max: nat, s: State)
    requires Inv(max, s) && forall a :: Own(a) ==> !Enabled(true, max, s, a)
    ensures Drained(s) && s.live == |s.running|
  {
    if !Drained(s) {
      var a := GoesOn(max, s);
    }
  }

  lemma {:induction false} Drains(max: nat, s: State) returns (acts: seq<Action>, t: State)
    requires Inv(max, s)
    ensures Leads(true, max, s, acts) == Some(t) && forall a <- acts :: Own(a) && !a.Fork?
    ensures Drained(t) && t.running == s.running && t.live == |t.running|
    decreases Rank(s)
  {
    acts, t := [], s;
    if !Drained(s) {
      var a := GoesOn(max, s);
      RankFalls(true, max, s, a);
      InvStep(max, s, a);
      var rest;
      rest, t := Drains(max, After(s, a));
      acts := [a] + rest;
      assert acts[1..] == rest;
    }
  }

  /** So the cap never jams: whatever has happened, the daemon can go on by itself to where every
      child that has ended is reaped and off the counter, and then admits the next connection
      exactly if fewer than `max` children are running. */
  lemma NeverJams(max: nat, acts: seq<Action>) returns (more: seq<Action>, t: State)
    requires Leads(true, max, START, acts).Some?
    ensures var s := Leads(true, max, START, acts).value;
            && Leads(true, max, START, acts + more) == Some(t) && (forall a <- more :: Own(a) && !a.Fork?)
            && Drained(t) && t.running == s.running && t.live == |t.running|
            && Enabled(true, max, t, Accept)
            && (Enabled(true, max, After(t, Accept), Admit) <==> max == 0 || |t.running| < max)
  {
    InvAlong(max, START, acts);
    more, t := Drains(max, Leads(true, max, START, acts).value);
    LeadsAppend(true, max, START, acts, more);
  }

  // --- Without the mask ------------------------------------------------------------------------

  /** A decrement that is lost: suppressed by the guard, or overwritten by an increment that had
      read the counter before. */
  predicate Loses(s: State, a: Action) {
    a.TestZero? || (a.Decrement? && s.main.Loaded?)
  }

  function Lost(masked: bool, max: nat, s: State, acts: seq<Action>): nat
    decreases acts
  {
    if acts == [] || !Enabled(masked, max, s, acts[0]) then 0
    else (if Loses(s, acts[0]) then 1 else 0) + Lost(masked, max, After(s, acts[0]), acts[1..])
  }

  /** By how much the counter is too high, once the updates under way are through. */
  function Excess(s: State): int {
    (if s.main.Loaded? then s.main.v else s.live) + Owed(s) - Unreaped(s)
  }

  /** What the handler knows of the counter: enough to keep it from going below zero. */
  ghost predicate Sound(s: State) {
    && s.running !! s.zombies && s.live >= 0
    && (s.handler.Passed? ==> s.live > 0)
    && (s.handler.Fetched? ==> s.handler.v == s.live > 0)
  }

  lemma ExcessByChild(max: nat, s: State, a: Action)
    requires Sound(s) && Enabled(false, max, s, a) && (a.Fork? || a.Exit? || a.Reap?)
    ensures Sound(After(s, a)) && Excess(After(s, a)) == Excess(s)
  {
    match a
    case Fork(child) => OneMore(s.running, child);
    case Exit(child) =>
      OneLess(s.running, child);
      OneMore(s.zombies, child);
    case Reap(child) => OneLess(s.zombies, child);
  }

  lemma OneMore(children: set<nat>, child: nat)
    requires child !in children
    ensures |children + {child}| == |children| + 1
  {}

  lemma OneLess(children: set<nat>, child: nat)
    requires child in children
    ensures |children - {child}| == |children| - 1
  {}

  lemma ExcessStep(max: nat, s: State, a: Action)
    requires Sound(s) && Enabled(false, max, s, a)
    ensures Sound(After(s, a)) && Excess(After(s, a)) == Excess(s) + (if Loses(s, a) then 1 else 0)
  {
    if a.Fork? || a.Exit? || a.Reap? {
      ExcessByChild(max, s, a);
    }
  }

  lemma {:induction false} ExcessAlong(max: nat, s: State, acts: seq<Action>)
    requires Sound(s) && Leads(false, max, s, acts).Some?
    ensures Excess(Leads(false, max, s, acts).value) == Excess(s) + Lost(false, max, s, acts)
    decreases acts
  {
    if acts != [] {
      ExcessStep(max, s, acts[0]);
      ExcessAlong(max, After(s, acts[0]), acts[1..]);
    }
  }

  /** Without the mask, in every interleaving: the counter is too high by exactly the number of
      decrements that the guard suppressed at zero or that an increment overwrote. A decrement
      that merely comes before the increment is none of these. */
  lemma DriftIsExactly(max: nat, acts: seq<Action>)
    requires Leads(false, max, START, acts).Some?
    ensures Excess(Leads(false, max, START, acts).value) == Lost(false, max, START, acts)
  {
    ExcessAlong(max, START, acts);
  }

  /** With nothing under way the count is true if and only if no decrement was lost. */
  lemma CountIsTrueExactly(max: nat, acts: seq<Action>)
    requires Leads(false, max, START, acts).Some?
    ensures var s := Leads(false, max, START, acts).value;
            Owed(s) == 0 && !s.main.Loaded? ==> (s.live == Unreaped(s) <==> Lost(false, max, START, acts) == 0)
  {
    DriftIsExactly(max, acts);
  }

  /** What the mask does: the runs it leaves are runs without it, and lose nothing. */
  lemma {:induction false} MaskedLosesNothing(max: nat, s: State, acts: seq<Action>)
    requires Inv(max, s) && Leads(true, max, s, acts).Some?
    ensures Leads(false, max, s, acts) == Leads(true, max, s, acts) && Lost(false, max, s, acts) == 0
    decreases acts
  {
    if acts != [] {
      assert Enabled(false, max, s, acts[0]);
      InvStep(max, s, acts[0]);
      assert !Loses(s, acts[0]);
      MaskedLosesNothing(max, After(s, acts[0]), acts[1..]);
    }
  }

  /** Nobody at work, no child in existence, and yet `k` on the counter. */
  function Rest(k: nat): State {
    START.(live := k)
  }

  lemma {:induction false} LeadsAppend(masked: bool, max: nat, s: State, a: seq<Action>, b: seq<Action>)
    requires Leads(masked, max, s, a).Some?
    ensures Leads(masked, max, s, a + b) == Leads(masked, max, Leads(masked, max, s, a).value, b)
    decreases a
  {
    if a == [] {
      assert a + b == b;
    } else {
      assert (a + b)[1..] == a[1..] + b;
      LeadsAppend(masked, max, After(s, a[0]), a[1..], b);
    }
  }

  lemma LeadsSnoc(masked: bool, max: nat, from: State, acts: seq<Action>, s: State, a: Action)
    requires Leads(masked, max, from, acts) == Some(s) && Enabled(masked, max, s, a)
    ensures Leads(masked, max, from, acts + [a]) == Some(After(s, a))
  {
    LeadsAppend(masked, max, from, acts, [a]);
    assert Leads(masked, max, After(s, a), [a][1..]) == Some(After(s, a));
  }

  lemma Go(max: nat, from: State, s: State, acts: seq<Action>, a: Action) returns (s': State, acts': seq<Action>)
    requires Leads(false, max, from, acts) == Some(s) && Enabled(false, max, s, a)
    ensures s' == After(s, a) && acts' == acts + [a]
    ensures Leads(false, max, from, acts') == Some(s')
  {
    LeadsSnoc(false, max, from, acts, s, a);
    s', acts' := After(s, a), acts + [a];
  }

  /** One whole run of the handler, with one child to reap and `k` on the counter. */
  function Handling(child: nat, k: nat): seq<Action> {
    [Deliver, Reap(child)] + (if k == 0 then [TestZero] else [TestPositive, Fetch, Decrement]) + [NoneLeft]
  }

  lemma HandlerRuns(max: nat, from: State, s: State, acts: seq<Action>, child: nat)
    requires Leads(false, max, from, acts) == Some(s)
    requires s.handler == Idle && s.zombies == {child} && s.pending && s.live >= 0
    ensures Leads(false, max, from, acts + Handling(child, s.live))
            == Some(s.(zombies := {}, pending := false, live := if s.live == 0 then 0 else s.live - 1))
  {
    var t, done := Go(max, from, s, acts, Deliver);
    t, done := Go(max, from, t, done, Reap(child));
    assert t.zombies == {};
    if s.live == 0 {
      t, done := Go(max, from, t, done, TestZero);
    } else {
      t, done := Go(max, from, t, done, TestPositive);
      t, done := Go(max, from, t, done, Fetch);
      t, done := Go(max, from, t, done, Decrement);
    }
    t, done := Go(max, from, t, done, NoneLeft);
    assert done == acts + Handling(child, s.live);
  }

  /** Main waits for a connection, every child runs, and there is room for one more. */
  ghost predicate Quiet(max: nat, s: State, child: nat) {
    && s.main.Accepting? && s.handler.Idle? && s.zombies == {} && !s.pending
    && s.live >= 0 && (max == 0 || s.live < max) && child !in s.running
  }

  lemma UpToFork(max: nat, s: State, child: nat)
    requires Quiet(max, s, child)
    ensures Leads(false, max, s, [Accept, Admit, Block, Fork(child)])
            == Some(s.(main := Forked, running := s.running + {child}))
  {
    var t, done := s, [];
    t, done := Go(max, s, t, done, Accept);
    t, done := Go(max, s, t, done, Admit);
    t, done := Go(max, s, t, done, Block);
    t, done := Go(max, s, t, done, Fork(child));
    assert done == [Accept, Admit, Block, Fork(child)];
  }

  function LostDecrement(k: nat): seq<Action> {
    [Accept, Admit, Block, Fork(0), Load, Exit(0)] + Handling(0, k) + [Store, Unblock]
  }

  /** The handler's decrement falls between main's read and write, and is lost. */
  lemma DriftOnce(max: nat, k: nat)
    requires max == 0 || k < max
    ensures Leads(false, max, Rest(k), LostDecrement(k)) == Some(Rest(k + 1))
  {
    var from := Rest(k);
    UpToFork(max, from, 0);
    var s, acts := from.(main := Forked, running := {} + {0}), [Accept, Admit, Block, Fork(0)];
    s, acts := Go(max, from, s, acts, Load);
    s, acts := Go(max, from, s, acts, Exit(0));
    assert s.zombies == {0} && s.running == {};
    HandlerRuns(max, from, s, acts, 0);
    var live := if k == 0 then 0 else k - 1;
    StoreRuns(max, from, s.(zombies := {}, pending := false, live := live), acts + Handling(0, k));
    assert acts + Handling(0, k) + [Store, Unblock] == LostDecrement(k);
  }

  lemma StoreRuns(max: nat, from: State, s: State, acts: seq<Action>)
    requires Leads(false, max, from, acts) == Some(s) && s.handler == Idle && s.main.Loaded?
    ensures Leads(false, max, from, acts + [Store, Unblock]) == Some(s.(main := Accepting, live := s.main.v + 1))
  {
    var t, done := Go(max, from, s, acts, Store);
    t, done := Go(max, from, t, done, Unblock);
    assert done == acts + [Store, Unblock];
  }

  /** Dropping the mask lets the count drift as far up as the cap allows... */
  lemma {:induction false} DriftsAway(max: nat, k: nat) returns (acts: seq<Action>)
    requires max == 0 || k <= max
    ensures Leads(false, max, START, acts) == Some(Rest(k)) && Lost(false, max, START, acts) == k
  {
    if k == 0 {
      acts := [];
    } else {
      acts := DriftsAway(max, k - 1);
      DriftOnce(max, k - 1);
      LeadsAppend(false, max, START, acts, LostDecrement(k - 1));
      acts := acts + LostDecrement(k - 1);
    }
    DriftIsExactly(max, acts);
  }

  /** ... until the daemon has no children at all and refuses every connection. */
  lemma CapJams(max: nat) returns (acts: seq<Action>)
    requires max > 0
    ensures Leads(false, max, START, acts) == Some(Rest(max).(main := Accepted))
    ensures !Enabled(false, max, Rest(max).(main := Accepted), Admit)
    ensures Unreaped(Rest(max)) == 0 && !Rest(max).pending
  {
    acts := DriftsAway(max, max);
    LeadsSnoc(false, max, START, acts, Rest(max), Accept);
    acts := acts + [Accept];
  }

  /** A child that is reaped before it is counted, beside any number of running children: the
      decrement that comes first is made up for by the increment, unless it finds zero. */
  lemma EarlyDecrementOnlyHurtsAtZero(max: nat, s: State, child: nat)
    requires Quiet(max, s, child)
    ensures Leads(false, max, s, [Accept, Admit, Block, Fork(child), Exit(child)]
                                 + Handling(child, s.live) + [Load, Store, Unblock])
            == Some(s.(live := if s.live == 0 then 1 else s.live))
  {
    UpToFork(max, s, child);
    var t, acts := s.(main := Forked, running := s.running + {child}), [Accept, Admit, Block, Fork(child)];
    t, acts := Go(max, s, t, acts, Exit(child));
    assert t.zombies == {child} && t.running == s.running;
    HandlerRuns(max, s, t, acts, child);
    var k := if s.live == 0 then 0 else s.live - 1;
    acts := acts + Handling(child, s.live);
    t := t.(zombies := {}, pending := false, live := k);
    IncrementRuns(max, s, t, acts);
    assert acts + [Load, Store, Unblock]
           == [Accept, Admit, Block, Fork(child), Exit(child)] + Handling(child, s.live) + [Load, Store, Unblock];
    assert t.(main := Accepting, live := t.live + 1) == s.(live := if s.live == 0 then 1 else s.live);
  }

  lemma IncrementRuns(max: nat, from: State, s: State, acts: seq<Action>)
    requires Leads(false, max, from, acts) == Some(s)
    requires s.handler == Idle && s.main.Forked? && s.live >= 0
    ensures Leads(false, max, from, acts + [Load, Store, Unblock])
            == Some(s.(main := Accepting, live := s.live + 1))
  {
    var t, done := Go(max, from, s, acts, Load);
    t, done := Go(max, from, t, done, Store);
    t, done := Go(max, from, t, done, Unblock);
    assert done == acts + [Load, Store, Unblock];
  }
}
