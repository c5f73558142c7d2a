/**
 Power failures, durability, create-only publication and temporary names, over whole runs of
 the share.
 */
module ShareCrash {
  import opened Bytes
  import opened Posix
  import opened Publication
  import opened Share
  import opened ShareRuns

  // --- Crashes -----------------------------------------------------------------------------

  /** The bodies of the uploads whose clients sent, or would have sent, all of them. */
  ghost function Uploads(procs: map<nat, Proc>): set<bytes> {
    set p | p in procs && procs[p].job.Upload? && |procs[p].job.head| + |procs[p].input| >= procs[p].job.length
      :: Body(procs[p].job.head, procs[p].input, procs[p].job.length)
  }

  /** What is found after the machine stops in state `s` and comes back. */
  ghost function Crash(s: State): State {
    var nodes := map i | i in s.nodes ::
                   if s.nodes[i].Dir? then Dir else if i in s.disk then s.disk[i] else File([]);
    State(s.durable, nodes, s.durable, nodes, s.clean, map[], map[], {})
  }

  /** Stop any run anywhere: what is left is a share to start from, and every file in it holds
      a body from before or one whole upload. */
  lemma CrashLeavesAShare(first: set<bytes>, ss: seq<State>, acts: seq<Action>, n: nat)
    requires IsRun(first, ss, acts) && n <= |acts|
    ensures Init(first + Uploads(ss[n].procs), Crash(ss[n]))
  {
    InvAlong(first, ss, acts, n);
    var s := ss[n];
    forall k <- s.durable | k.base.Plain?
      ensures s.durable[k] in s.nodes
      ensures s.nodes[s.durable[k]].File? ==>
                && s.durable[k] in s.clean && Crash(s).nodes[s.durable[k]] == s.nodes[s.durable[k]]
                && s.nodes[s.durable[k]].data in first + Uploads(s.procs)
    {
      assert Settled(first, s, s.durable[k]);
    }
  }

  function Lookup(m: map<Key, Ino>, k: Key): Option<Ino> {
    if k in m then Some(m[k]) else None
  }

  predicate Syncs(a: Action, d: Ino) {
    a == SyncDirectory(d) || (a.Do? && a.c == Did(SyncDir, None) && a.at.dir == d)
  }

  lemma StepDurable(s: State, a: Action, k: Key)
    requires Enabled(s, a)
    ensures var s' := After(s, a);
            || Lookup(s'.durable, k) == Lookup(s.durable, k)
            || Lookup(s'.durable, k) == Lookup(s'.entries, k)
    ensures Syncs(a, k.dir) ==> Lookup(After(s, a).durable, k) == Lookup(After(s, a).entries, k)
  {}

  /** After a crash a name has a binding it really had, at or after the last fsync of its
      directory: never another name's, never none if it was always bound. */
  lemma {:induction false} CrashShowsRecentBinding(
      first: set<bytes>, ss: seq<State>, acts: seq<Action>, j: nat, n: nat, k: Key) returns (m: nat)
    requires IsRun(first, ss, acts) && j <= n <= |acts|
    requires j == 0 || Syncs(acts[j - 1], k.dir)
    ensures j <= m <= n && Lookup(Crash(ss[n]).entries, k) == Lookup(ss[m].entries, k)
    decreases n
  {
    if n > 0 {
      StepDurable(ss[n - 1], acts[n - 1], k);
    }
    if n == j || Lookup(ss[n].durable, k) == Lookup(ss[n].entries, k) {
      m := n;
    } else {
      m := CrashShowsRecentBinding(first, ss, acts, j, n - 1, k);
    }
  }

  /** Following ordinary names down from directory `root`. */
  function Find(entries: map<Key, Ino>, root: Ino, path: seq<Base>): Option<Ino> {
    if path == [] then Some(root)
    else
      var dir := Find(entries, root, path[..|path| - 1]);
      if dir.None? then None else Lookup(entries, Key(dir.value, path[|path| - 1]))
  }

  /** Once the directory has been fsynced, an acknowledged body survives any later crash, for
      as long as nobody rebinds its name; and it is found again under its path whenever the
      path of its directory survived. */
  lemma AcknowledgedIsDurable(
      first: set<bytes>, ss: seq<State>, acts: seq<Action>, m: nat, j: nat, n: nat, p: nat, at: Key,
      root: Ino, parent: seq<Base>)
    requires IsRun(first, ss, acts) && m < j <= n <= |acts| && PublishedAt(first, ss, acts, m, p, at)
    requires Syncs(acts[j - 1], at.dir)
    requires forall i :: j <= i <= n ==> Lookup(ss[i].entries, at) == Some(ss[m].procs[p].ino)
    ensures var ino, crash := ss[m].procs[p].ino, Crash(ss[n]);
            && Lookup(crash.entries, at) == Some(ino)
            && ino in crash.nodes && crash.nodes[ino] == ss[m].nodes[ino]
            && crash.nodes[ino].File? && Full(first, ss[m], ss[m].procs[p], crash.nodes[ino].data)
            && (Find(crash.entries, root, parent) == Some(at.dir) ==>
                  Find(crash.entries, root, parent + [at.base]) == Some(ino))
            && (Find(crash.entries, root, parent) == None ==>
                  Find(crash.entries, root, parent + [at.base]) == None)
  {
    var i := CrashShowsRecentBinding(first, ss, acts, j, n, at);
    ExtendsAlong(first, ss, acts, m, n);
    NamingPublishes(first, ss, acts, m);
    var ino := ss[m].procs[p].ino;
    assert ino in ss[m].clean by {
      PublishesSettled(first, ss[m], p, acts[m].c, at, acts[m].ino);
    }
    assert ino in ss[n].clean;
    assert (parent + [at.base])[..|parent|] == parent;
  }

  // --- Create-only publication ------------------------------------------------------------

  /** The process serves a create-only request. */
  predicate Exclusive(pr: Proc) {
    pr.job.Upload? && pr.job.excl
  }

  /** The publishing call of such a process, whichever call that is. */
  predicate Creates(s: State, a: Action, k: Key) {
    a.Do? && a.p in s.procs && Exclusive(s.procs[a.p]) && Named(a.c) && a.at == k
  }

  /** It binds a name that was free to the file it has written, and touches no other name. */
  lemma CreateNeverReplaces(first: set<bytes>, s: State, a: Action, k: Key)
    requires Inv(first, s) && Enabled(s, a) && Creates(s, a, k)
    ensures k !in s.entries && After(s, a).entries == s.entries[k := s.procs[a.p].ino]
  {
    var pr := s.procs[a.p];
    assert Turn(pr.job, pr.pc, a.c.op);
    assert HoldsTemp(pr.pc) && pr.temp.value.base == Temp(a.p);
  }

  /** Only a DELETE or a MOVE of that very name can take an ordinary name away. */
  lemma NameTaken(first: set<bytes>, s: State, a: Action, k: Key)
    requires Inv(first, s) && Enabled(s, a) && k.base.Plain?
    requires k in s.entries && k !in After(s, a).entries
    ensures a == RemoveName(k) || (a.MoveName? && a.from == k)
  {
    if a.Do? {
      NamesByCall(first, s, a.p, a.c, a.at, a.ino, k);
    }
  }

  lemma CreateAt(first: set<bytes>, ss: seq<State>, acts: seq<Action>, i: nat, k: Key)
    requires IsRun(first, ss, acts) && i < |acts| && Creates(ss[i], acts[i], k)
    ensures k !in ss[i].entries && k in ss[i + 1].entries
  {
    InvAlong(first, ss, acts, i);
    CreateNeverReplaces(first, ss[i], acts[i], k);
  }

  /** Of any two create-only publications of one name, the name was removed in between. */
  lemma CreatesAreSeparated(
      first: set<bytes>, ss: seq<State>, acts: seq<Action>, i: nat, j: nat, k: Key) returns (m: nat)
    requires IsRun(first, ss, acts) && i < j < |acts| && k.base.Plain?
    requires Creates(ss[i], acts[i], k) && Creates(ss[j], acts[j], k)
    ensures i < m < j && (acts[m] == RemoveName(k) || (acts[m].MoveName? && acts[m].from == k))
  {
    CreateAt(first, ss, acts, i, k);
    CreateAt(first, ss, acts, j, k);
    m := LossBetween(ss, i + 1, j, k);
    InvAlong(first, ss, acts, m);
    NameTaken(first, ss[m], acts[m], k);
  }

  lemma {:induction false} LossBetween(ss: seq<State>, i: nat, j: nat, k: Key) returns (m: nat)
    requires i <= j < |ss| && k in ss[i].entries && k !in ss[j].entries
    ensures i <= m < j && k in ss[m].entries && k !in ss[m + 1].entries
    decreases j
  {
    if k in ss[j - 1].entries {
      m := j - 1;
    } else {
      m := LossBetween(ss, i, j - 1, k);
    }
  }

  lemma CarriedByAction(s: State, a: Action, p: nat)
    requires Enabled(s, a) && p in s.procs && Carried(s.procs[p].pc).Some?
    ensures p in After(s, a).procs && Carried(After(s, a).procs[p].pc) == Carried(s.procs[p].pc)
  {
    if a.Do? && a.p == p {
      CarriedByStep(s.procs[p].job, s.procs[p].pc, a.c);
      SteppedKeeps(s.procs[p], a.c, a.at, a.ino);
    }
  }

  lemma {:induction false} CarriedAlong(
      first: set<bytes>, ss: seq<State>, acts: seq<Action>, m: nat, n: nat, p: nat)
    requires IsRun(first, ss, acts) && m <= n <= |acts|
    requires p in ss[m].procs && Carried(ss[m].procs[p].pc).Some?
    ensures p in ss[n].procs && Carried(ss[n].procs[p].pc) == Carried(ss[m].procs[p].pc)
    decreases n
  {
    if m < n {
      CarriedAlong(first, ss, acts, m, n - 1, p);
      CarriedByAction(ss[n - 1], acts[n - 1], p);
    }
  }

  /** Whoever finds the name bound is a create-only upload that has lost the race; it reports
      EEXIST whatever happens afterwards, and when it has ended its temporary name is gone unless the very
      unlink of it failed. */
  lemma LoserReportsExists(
      first: set<bytes>, ss: seq<State>, acts: seq<Action>, m: nat, n: nat, p: nat, at: Key, ino: Ino, k: Key)
    requires IsRun(first, ss, acts) && m < n <= |acts|
    requires acts[m] == Do(p, Did(Link, Some(EEXIST)), at, ino)
    requires p in ss[n].procs && ss[n].procs[p].pc.Done?
    ensures Exclusive(ss[m].procs[p]) && at in ss[m].entries
    ensures ss[n].procs[p].pc == Done(Some(EEXIST))
    ensures k in ss[n].entries && k.base == Temp(p) ==> ss[n].procs[p].leaked
  {
    var s := ss[m];
    CarriedByStep(s.procs[p].job, s.procs[p].pc, acts[m].c);
    SteppedKeeps(s.procs[p], acts[m].c, at, ino);
    CarriedAlong(first, ss, acts, m + 1, n, p);
    InvAlong(first, ss, acts, n);
  }

  /** Temporary names are exactly those of the operations under way, up to the unlinks that
      failed and the names a recursive DELETE swept away. */
  lemma TempsAreInFlight(first: set<bytes>, ss: seq<State>, acts: seq<Action>, n: nat, p: nat)
    requires IsRun(first, ss, acts) && n <= |acts| && p in ss[n].procs
    requires !ss[n].procs[p].leaked && p !in ss[n].swept
    ensures (exists k :: k in ss[n].entries && k.base == Temp(p)) <==> HoldsTemp(ss[n].procs[p].pc)
  {
    InvAlong(first, ss, acts, n);
    var s := ss[n];
    if HoldsTemp(s.procs[p].pc) {
      assert s.procs[p].temp.value in s.entries;
    }
  }

  // --- A new directory's own entry ----------------------------------------------------------

  const A: Base := Plain([0x61])
  const F: Base := Plain([0x66])
  const EMPTY: Job := Upload([], 0, false)

  const BARE: State := State(map[], map[0 := Dir], map[], map[], {}, map[], map[], {})

  function Client(pc: Pc): Proc {
    Proc(EMPTY, [], 0, pc, None, 0, 0, false)
  }

  function Writer(pc: Pc): Proc {
    Proc(EMPTY, [], 0, pc, Some(Key(1, Temp(0))), 2, 0, false)
  }

  // The run: an empty upload of "a/f", where directory "a" (inode 1) has to be made first.

  const ROOT: map<Ino, Node> := map[0 := Dir]
  const DIRS: map<Ino, Node> := map[0 := Dir, 1 := Dir]
  const ALL: map<Ino, Node> := map[0 := Dir, 1 := Dir, 2 := File([])]
  const MADE: map<Key, Ino> := map[Key(0, A) := 1]
  const TEMP: map<Key, Ino> := map[Key(0, A) := 1, Key(1, Temp(0)) := 2]
  const NAMED: map<Key, Ino> := map[Key(0, A) := 1, Key(1, F) := 2]
  const KEPT: map<Key, Ino> := map[Key(1, F) := 2]

  function Stage(entries: map<Key, Ino>, nodes: map<Ino, Node>, durable: map<Key, Ino>, synced: bool, pr: Proc): State {
    State(entries, nodes, durable, if synced then map[2 := File([])] else map[], if synced then {2} else {},
          map[0 := pr], map[], {})
  }

  const S1: State := Stage(map[], ROOT, map[], false, Client(Making))
  const S2: State := Stage(MADE, DIRS, map[], false, Client(Making))
  const S3: State := Stage(TEMP, ALL, map[], false, Writer(Filling([], [])))
  const S4: State := Stage(TEMP, ALL, map[], true, Writer(Closing([])))
  const S5: State := Stage(TEMP, ALL, map[], true, Writer(Publishing([])))
  const S6: State := Stage(NAMED, ALL, map[], true, Writer(SyncingDir([])))
  const S7: State := Stage(NAMED, ALL, KEPT, true, Writer(Done(None)))

  lemma FirstSteps()
    ensures var a := Begin(0, EMPTY, []); Enabled(BARE, a) && After(BARE, a) == S1
    ensures var a := Do(0, Did(Mkdir, None), Key(0, A), 1); Enabled(S1, a) && After(S1, a) == S2
  {
    assert S1.entries[Key(0, A) := 1] == S2.entries;
    assert S1.procs[0 := Client(Making)] == S2.procs;
  }

  lemma TempStep()
    ensures var a := Do(0, Did(OpenTemp, None), Key(1, Temp(0)), 2); Enabled(S2, a) && After(S2, a) == S3
  {
    assert S2.procs[0].pc == Making;
    assert S2.entries[Key(1, Temp(0)) := 2] == S3.entries;
    assert S2.nodes[2 := File([])] == S3.nodes;
    assert S2.procs[0 := Writer(Filling([], []))] == S3.procs;
  }

  lemma FsyncStep()
    ensures var a := Do(0, Did(Fsync, None), Key(0, A), 0); Enabled(S3, a) && After(S3, a) == S4
  {
    assert S3.procs[0 := Writer(Closing([]))] == S4.procs;
    assert S3.disk[2 := File([])] == S4.disk && S3.clean + {2} == S4.clean;
  }

  lemma CloseStep()
    ensures var a := Do(0, Did(CloseTemp, None), Key(0, A), 0); Enabled(S4, a) && After(S4, a) == S5
  {
    assert S4.procs[0 := Writer(Publishing([]))] == S5.procs;
  }

  lemma NameStep()
    ensures var a := Do(0, Did(Rename, None), Key(1, F), 0); Enabled(S5, a) && After(S5, a) == S6
  {
    assert Renamed(S5.entries, Key(1, Temp(0)), Key(1, F)) == S6.entries;
    assert S5.procs[0 := Writer(SyncingDir([]))] == S6.procs;
  }

  lemma DirStep()
    ensures var a := Do(0, Did(SyncDir, None), Key(1, F), 0); Enabled(S6, a) && After(S6, a) == S7
  {
    assert Synced(S6, 1) == S7.durable;
    assert S6.procs[0 := Writer(Done(None))] == S7.procs;
  }

  /** fsync_dir covers only the immediate parent: an upload into a directory it had to create
      is acknowledged, its directory fsynced, and a crash still loses it, because the entry of
      the new directory itself was never fsynced. */
  lemma NewParentCanBeLost() returns (ss: seq<State>, acts: seq<Action>)
    ensures IsRun({}, ss, acts) && |acts| == 7 && Syncs(acts[6], 1)
    ensures 0 in ss[7].procs && ss[7].procs[0].pc == Done(None)
    ensures Find(ss[7].entries, 0, [A, F]) == Some(2)
    ensures Lookup(Crash(ss[7]).entries, Key(1, F)) == Some(2)
    ensures Find(Crash(ss[7]).entries, 0, [A, F]) == None
  {
    ss, acts := [BARE], [];
    FirstSteps();
    ss, acts := RunSnoc({}, ss, acts, Begin(0, EMPTY, []), S1);
    ss, acts := RunSnoc({}, ss, acts, Do(0, Did(Mkdir, None), Key(0, A), 1), S2);
    TempStep();
    ss, acts := RunSnoc({}, ss, acts, Do(0, Did(OpenTemp, None), Key(1, Temp(0)), 2), S3);
    FsyncStep();
    ss, acts := RunSnoc({}, ss, acts, Do(0, Did(Fsync, None), Key(0, A), 0), S4);
    CloseStep();
    ss, acts := RunSnoc({}, ss, acts, Do(0, Did(CloseTemp, None), Key(0, A), 0), S5);
    NameStep();
    ss, acts := RunSnoc({}, ss, acts, Do(0, Did(Rename, None), Key(1, F), 0), S6);
    DirStep();
    ss, acts := RunSnoc({}, ss, acts, Do(0, Did(SyncDir, None), Key(1, F), 0), S7);
    LostInTheEnd();
  }

  lemma RunSnoc(first: set<bytes>, ss: seq<State>, acts: seq<Action>, a: Action, s: State)
    returns (ss': seq<State>, acts': seq<Action>)
    requires IsRun(first, ss, acts) && Enabled(ss[|acts|], a) && s == After(ss[|acts|], a)
    ensures IsRun(first, ss', acts') && |acts'| == |acts| + 1
    ensures ss'[|acts'|] == s && acts'[|acts|] == a
  {
    ss', acts' := ss + [s], acts + [a];
  }

  lemma LostInTheEnd()
    ensures S7.procs[0].pc == Done(None)
    ensures Find(S7.entries, 0, [A, F]) == Some(2)
    ensures Lookup(Crash(S7).entries, Key(1, F)) == Some(2)
    ensures Find(Crash(S7).entries, 0, [A, F]) == None
  {
    assert [A, F][..1] == [A] && [A][..0] == [];
    assert Find(S7.entries, 0, [A]) == Some(1) && Find(S7.durable, 0, [A]) == None;
  }
}
