/**
 Where an acknowledged upload is found again after a power failure: under its whole path, if
 every directory on the way had its own entry on disk, and only then.
 */
module ShareDurable {
  import opened Bytes
  import opened Posix
  import opened Publication
  import opened Share
  import opened ShareRuns
  import opened ShareCrash

  function Up(path: seq<Base>): seq<Base>
    requires path != []
  {
    path[..|path| - 1]
  }

  /** The last name of a path as an entry of the directory the rest of it leads to. */
  function EntryOf(s: State, root: Ino, path: seq<Base>): Option<Key>
    requires path != []
  {
    var dir := Find(s.entries, root, Up(path));
    if dir.None? then None else Some(Key(dir.value, path[|path| - 1]))
  }

  /** The name is on disk as running processes see it. */
  predicate Persisted(s: State, k: Key) {
    k in s.entries && Lookup(s.durable, k) == Lookup(s.entries, k)
  }

  /** Every name on the way is. */
  predicate OnDisk(s: State, root: Ino, path: seq<Base>)
    decreases |path|
  {
    path == [] ||
    (OnDisk(s, root, Up(path)) && EntryOf(s, root, path).Some? && Persisted(s, EntryOf(s, root, path).value))
  }

  /** Every name on the way is, or is not on disk at all: none has an older meaning there. */
  predicate OnDiskOrNew(s: State, root: Ino, path: seq<Base>)
    decreases |path|
  {
    path == [] ||
    (OnDiskOrNew(s, root, Up(path)) && EntryOf(s, root, path).Some?
     && var k := EntryOf(s, root, path).value; k in s.entries && (k !in s.durable || Persisted(s, k)))
  }

  /** Every part of the path leads to the same place in both states. */
  predicate SameWay(s: State, s': State, root: Ino, path: seq<Base>)
    decreases |path|
  {
    && Find(s'.entries, root, path) == Find(s.entries, root, path)
    && (path == [] || SameWay(s, s', root, Up(path)))
  }

  /** Nobody rebinds a name on the way from moment `j` to moment `n`. */
  ghost predicate WayKept(ss: seq<State>, j: nat, n: nat, root: Ino, path: seq<Base>)
    requires j <= n < |ss|
  {
    forall x :: j <= x <= n ==> SameWay(ss[j], ss[x], root, path)
  }

  lemma {:induction false} SameWayTwice(s: State, s1: State, s2: State, root: Ino, path: seq<Base>)
    requires SameWay(s, s1, root, path) && SameWay(s, s2, root, path)
    ensures SameWay(s1, s2, root, path)
    decreases |path|
  {
    if path != [] {
      SameWayTwice(s, s1, s2, root, Up(path));
    }
  }

  lemma {:induction false} StepOnDisk(s: State, a: Action, root: Ino, path: seq<Base>)
    requires Enabled(s, a) && SameWay(s, After(s, a), root, path)
    ensures OnDisk(s, root, path) ==> OnDisk(After(s, a), root, path)
    ensures OnDiskOrNew(s, root, path) ==> OnDiskOrNew(After(s, a), root, path)
    decreases |path|
  {
    if path != [] {
      StepOnDisk(s, a, root, Up(path));
      if EntryOf(s, root, path).Some? {
        StepDurable(s, a, EntryOf(s, root, path).value);
      }
    }
  }

  lemma {:induction false} AlongOnDisk(
      first: set<bytes>, ss: seq<State>, acts: seq<Action>, j: nat, n: nat, root: Ino, path: seq<Base>)
    requires IsRun(first, ss, acts) && j <= n <= |acts| && WayKept(ss, j, n, root, path)
    ensures OnDisk(ss[j], root, path) ==> OnDisk(ss[n], root, path)
    ensures OnDiskOrNew(ss[j], root, path) ==> OnDiskOrNew(ss[n], root, path)
    decreases n
  {
    if j < n {
      AlongOnDisk(first, ss, acts, j, n - 1, root, path);
      SameWayTwice(ss[j], ss[n - 1], ss[n], root, path);
      StepOnDisk(ss[n - 1], acts[n - 1], root, path);
    }
  }

  /** What a crash leaves of the way: all of it, or nothing. */
  lemma {:induction false} FoundExactly(s: State, root: Ino, path: seq<Base>)
    requires OnDiskOrNew(s, root, path)
    ensures Find(s.entries, root, path).Some?
    ensures Find(Crash(s).entries, root, path) == if OnDisk(s, root, path) then Find(s.entries, root, path) else None
    decreases |path|
  {
    if path != [] {
      FoundExactly(s, root, Up(path));
    }
  }

  /** fsync of a directory puts its names on disk. */
  lemma SyncPersists(s: State, a: Action, k: Key)
    requires Enabled(s, a) && Syncs(a, k.dir) && k in After(s, a).entries
    ensures Persisted(After(s, a), k)
  {
    StepDurable(s, a, k);
  }

  /** fsync of a directory whose own path is on disk puts the paths of all its names on disk. */
  lemma SyncPutsOnDisk(s: State, a: Action, root: Ino, path: seq<Base>)
    requires Enabled(s, a) && path != [] && OnDisk(s, root, Up(path)) && SameWay(s, After(s, a), root, Up(path))
    requires Find(s.entries, root, Up(path)).Some? && Syncs(a, Find(s.entries, root, Up(path)).value)
    requires Find(After(s, a).entries, root, path).Some?
    ensures OnDisk(After(s, a), root, path)
  {
    StepOnDisk(s, a, root, Up(path));
    SyncPersists(s, a, EntryOf(After(s, a), root, path).value);
  }

  // --- What an acknowledgement is worth -------------------------------------------------------

  lemma DoneByStep(s: State, a: Action, p: nat)
    requires Enabled(s, a) && p in After(s, a).procs && After(s, a).procs[p].pc == Done(None)
    ensures (a.Do? && a.p == p && a.c.Did? && a.c.op == SyncDir && s.procs[p].pc.SyncingDir?)
            || (p in s.procs && s.procs[p].pc == Done(None))
  {
    if a.Do? && a.p == p {
      CameBy(s.procs[p].job, s.procs[p].pc, a.c);
      SteppedKeeps(s.procs[p], a.c, a.at, a.ino);
    }
  }

  /** Whoever has reported success has bound its name, and called fsync on the directory after. */
  lemma {:induction false} AcknowledgedWasSynced(
      first: set<bytes>, ss: seq<State>, acts: seq<Action>, n: nat, p: nat) returns (m: nat, j: nat)
    requires IsRun(first, ss, acts) && n <= |acts|
    requires p in ss[n].procs && ss[n].procs[p].pc == Done(None)
    ensures m < j < n && acts[m].Do? && acts[m].p == p && Named(acts[m].c)
    ensures acts[j].Do? && acts[j].p == p && acts[j].c.Did? && acts[j].c.op == SyncDir
    decreases n
  {
    assert n != 0;
    var s, a := ss[n - 1], acts[n - 1];
    assert Enabled(s, a) && ss[n] == After(s, a);
    DoneByStep(s, a, p);
    if p in s.procs && s.procs[p].pc == Done(None) {
      m, j := AcknowledgedWasSynced(first, ss, acts, n - 1, p);
    } else {
      m := AcknowledgedWasNamed(first, ss, acts, n - 1, p);
      j := n - 1;
    }
  }

  /** Call `j` of process `p` was an fsync of directory `d`, and did not fail. */
  predicate SyncedBy(acts: seq<Action>, j: nat, p: nat, d: Ino)
    requires j < |acts|
  {
    acts[j].Do? && acts[j].p == p && acts[j].c == Did(SyncDir, None) && acts[j].at.dir == d
  }

  /** Nobody has rebound the name after step `j`. */
  ghost predicate NameKept(ss: seq<State>, j: nat, n: nat, at: Key, ino: Ino)
    requires n < |ss|
  {
    forall i :: j < i <= n ==> Lookup(ss[i].entries, at) == Some(ino)
  }

  /** After a crash at `n` the name is there, with the whole body that `p` published at `m`. */
  ghost predicate Survives(first: set<bytes>, ss: seq<State>, m: nat, n: nat, p: nat, at: Key)
    requires m < |ss| && n < |ss| && p in ss[m].procs
  {
    var ino, crash := ss[m].procs[p].ino, Crash(ss[n]);
    && Lookup(crash.entries, at) == Some(ino) && ino in crash.nodes && crash.nodes[ino].File?
    && Full(first, ss[m], ss[m].procs[p], crash.nodes[ino].data)
  }

  lemma SyncedSyncs(acts: seq<Action>, j: nat, k: nat, p: nat, d: Ino)
    requires k == j + 1 <= |acts| && SyncedBy(acts, j, p, d)
    ensures Syncs(acts[k - 1], d)
  {}

  lemma SyncedSurvives(
      first: set<bytes>, ss: seq<State>, acts: seq<Action>, m: nat, j: nat, k: nat, n: nat, p: nat, at: Key)
    requires IsRun(first, ss, acts) && m < j && k == j + 1 <= n <= |acts| && PublishedAt(first, ss, acts, m, p, at)
    requires SyncedBy(acts, j, p, at.dir) && NameKept(ss, j, n, at, ss[m].procs[p].ino)
    ensures Survives(first, ss, m, n, p, at)
  {
    SyncedSyncs(acts, j, k, p, at.dir);
    assert forall i :: k <= i <= n ==> Lookup(ss[i].entries, at) == Some(ss[m].procs[p].ino);
    AcknowledgedIsDurable(first, ss, acts, m, k, n, p, at, at.dir, []);
  }

  /** So whatever has been acknowledged survives a crash at any later moment, as an entry of its
      directory and with its whole body, given that this fsync did not fail, that the directory it
      reached was the one of the name, and that nobody has rebound the name since. */
  lemma AcknowledgedSurvives(first: set<bytes>, ss: seq<State>, acts: seq<Action>, n: nat, p: nat)
    returns (m: nat, j: nat, at: Key)
    requires IsRun(first, ss, acts) && n <= |acts|
    requires p in ss[n].procs && ss[n].procs[p].pc == Done(None)
    ensures m < j < n && PublishedAt(first, ss, acts, m, p, at)
    ensures acts[j].Do? && acts[j].p == p && acts[j].c.Did? && acts[j].c.op == SyncDir
    ensures SyncedBy(acts, j, p, at.dir) && NameKept(ss, j, n, at, ss[m].procs[p].ino) ==>
              Survives(first, ss, m, n, p, at)
  {
    m, j := AcknowledgedWasSynced(first, ss, acts, n, p);
    NamingPublishes(first, ss, acts, m);
    at := acts[m].at;
    if SyncedBy(acts, j, p, at.dir) && NameKept(ss, j, n, at, ss[m].procs[p].ino) {
      SyncedSurvives(first, ss, acts, m, j, j + 1, n, p, at);
    }
  }

  // --- MOVE and DELETE -------------------------------------------------------------------------

  /** A name that has stayed as it is since its directory was last synced is what a crash shows. */
  lemma StaysAfterSync(first: set<bytes>, ss: seq<State>, acts: seq<Action>, j: nat, n: nat, k: Key)
    requires IsRun(first, ss, acts) && 0 < j <= n <= |acts| && Syncs(acts[j - 1], k.dir)
    requires forall i :: j <= i <= n ==> Lookup(ss[i].entries, k) == Lookup(ss[j].entries, k)
    ensures Lookup(Crash(ss[n]).entries, k) == Lookup(ss[j].entries, k)
  {
    var m := CrashShowsRecentBinding(first, ss, acts, j, n, k);
  }

  /** A MOVE from one name to another, of another file or none: once both directories have been
      synced, a crash finds the file under its new name and nothing under the old one, as long
      as nobody has touched either name since the rename. */
  lemma MoveIsDurable(
      first: set<bytes>, ss: seq<State>, acts: seq<Action>, m: nat, j: nat, k: nat, n: nat, from: Key, to: Key)
    requires IsRun(first, ss, acts) && m < j <= n <= |acts| && m < k <= n
    requires acts[m] == MoveName(from, to) && from != to && Lookup(ss[m].entries, to) != Lookup(ss[m].entries, from)
    requires Syncs(acts[j - 1], to.dir) && Syncs(acts[k - 1], from.dir)
    requires forall i :: m < i <= n ==> Lookup(ss[i].entries, to) == Lookup(ss[m + 1].entries, to)
    requires forall i :: m < i <= n ==> Lookup(ss[i].entries, from) == Lookup(ss[m + 1].entries, from)
    ensures Lookup(Crash(ss[n]).entries, to) == Lookup(ss[m].entries, from)
    ensures Lookup(Crash(ss[n]).entries, from) == None
  {
    MoveMoves(ss[m], from, to, to);
    MoveMoves(ss[m], from, to, from);
    StaysAfterSync(first, ss, acts, j, n, to);
    StaysAfterSync(first, ss, acts, k, n, from);
  }

  /** A rename takes one name to another and leaves the rest alone. */
  lemma MoveMoves(s: State, from: Key, to: Key, x: Key)
    requires Enabled(s, MoveName(from, to)) && from != to && Lookup(s.entries, to) != Lookup(s.entries, from)
    ensures Lookup(After(s, MoveName(from, to)).entries, x) ==
            if x == to then Lookup(s.entries, from) else if x == from then None else Lookup(s.entries, x)
  {}

  /** Every name is what it was, but for those that the action names. */
  predicate Touches(s: State, a: Action, k: Key) {
    match a
    case Do(p, c, at, _) =>
      k == at || (p in s.procs && s.procs[p].temp == Some(k) && (c == Did(Rename, None) || c == Did(Unlink, None)))
    case MoveName(from, to) => k == from || k == to
    case RemoveName(x) => k == x
    case MakeDir(x, _) => k == x
    case _ => false
  }

  lemma OnlyTouched(s: State, a: Action, k: Key)
    requires Enabled(s, a)
    ensures !Touches(s, a, k) ==> Lookup(After(s, a).entries, k) == Lookup(s.entries, k)
    ensures a == RemoveName(k) ==> Lookup(After(s, a).entries, k) == None
  {}

  /** An acknowledged upload survives under its whole path, if the directory it went to, and
      those above it, had their own entries on disk at some moment up to the publication, and
      nobody has rebound a name on the way since. */
  lemma AcknowledgedIsFound(
      first: set<bytes>, ss: seq<State>, acts: seq<Action>, i: nat, m: nat, j: nat, n: nat, p: nat, at: Key,
      root: Ino, parent: seq<Base>)
    requires IsRun(first, ss, acts) && i <= m < j <= n <= |acts| && PublishedAt(first, ss, acts, m, p, at)
    requires Syncs(acts[j - 1], at.dir)
    requires forall x :: j <= x <= n ==> Lookup(ss[x].entries, at) == Some(ss[m].procs[p].ino)
    requires Find(ss[i].entries, root, parent) == Some(at.dir) && WayKept(ss, i, n, root, parent)
    requires OnDisk(ss[i], root, parent)
    ensures Find(Crash(ss[n]).entries, root, parent + [at.base]) == Some(ss[m].procs[p].ino)
  {
    AlongOnDisk(first, ss, acts, i, n, root, parent);
    OnDiskIsOrNew(ss[n], root, parent);
    FoundExactly(ss[n], root, parent);
    AcknowledgedIsDurable(first, ss, acts, m, j, n, p, at, root, parent);
  }

  lemma {:induction false} OnDiskIsOrNew(s: State, root: Ino, path: seq<Base>)
    requires OnDisk(s, root, path)
    ensures OnDiskOrNew(s, root, path)
    decreases |path|
  {
    if path != [] {
      OnDiskIsOrNew(s, root, Up(path));
    }
  }

  /** And only then: where the names on the way were on disk or new, as those that mkdir -p has
      just made, the upload is found after a crash if each of them had come to disk by then, and
      lost if one had not. */
  lemma AcknowledgedIsFoundExactly(
      first: set<bytes>, ss: seq<State>, acts: seq<Action>, i: nat, m: nat, j: nat, n: nat, p: nat, at: Key,
      root: Ino, parent: seq<Base>)
    requires IsRun(first, ss, acts) && i <= m < j <= n <= |acts| && PublishedAt(first, ss, acts, m, p, at)
    requires Syncs(acts[j - 1], at.dir)
    requires forall x :: j <= x <= n ==> Lookup(ss[x].entries, at) == Some(ss[m].procs[p].ino)
    requires Find(ss[i].entries, root, parent) == Some(at.dir) && WayKept(ss, i, n, root, parent)
    requires OnDiskOrNew(ss[i], root, parent)
    ensures Find(Crash(ss[n]).entries, root, parent + [at.base])
            == if OnDisk(ss[n], root, parent) then Some(ss[m].procs[p].ino) else None
  {
    AlongOnDisk(first, ss, acts, i, n, root, parent);
    FoundExactly(ss[n], root, parent);
    AcknowledgedIsDurable(first, ss, acts, m, j, n, p, at, root, parent);
  }

  /** A name is on disk at `n` exactly if it was at some moment since it got its binding. */
  lemma {:induction false} PersistedExactly(
      first: set<bytes>, ss: seq<State>, acts: seq<Action>, i: nat, n: nat, k: Key)
    requires IsRun(first, ss, acts) && i <= n <= |acts| && k in ss[i].entries
    requires forall x :: i <= x <= n ==> Lookup(ss[x].entries, k) == Lookup(ss[i].entries, k)
    ensures Persisted(ss[n], k) <==> exists x :: i <= x <= n && Persisted(ss[x], k)
    decreases n
  {
    if i < n {
      PersistedExactly(first, ss, acts, i, n - 1, k);
      StepDurable(ss[n - 1], acts[n - 1], k);
    }
  }
}
