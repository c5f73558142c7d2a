/**
 mkdir -p (fsapi_mkdirs in src/core/fsapi.c): exactly which directories it makes, when the path
 leads to a directory afterwards, and that it stays where the canonical-path check allows.
 */
module Mkdirs {
  import opened Bytes
  import opened Posix
  import opened Tree
  import opened Contained
  import opened Disks
  import opened Landing
  import Jail

  // --- What one mkdir leaves -----------------------------------------------------------------------

  /** What is there stays there for mkdir. */
  lemma {:induction false} StillExists(t: Tree, u: Tree, start: Path, parts: seq<bytes>)
    requires Within(t, u) && parts != [] && MkdirParts(t, start, parts) == Refused(EEXIST)
    ensures MkdirParts(u, start, parts) == Refused(EEXIST)
    decreases |parts|
  {
    if Last(parts) == [] && |parts| > 1 {
      StillExists(t, u, start, Init(parts));
    } else {
      WalkErrors(t, start, Init(parts), LINKS);
      FollowWithin(t, u, start, Init(parts), LINKS);
    }
  }

  lemma {:induction false} MadeExists(t: Tree, start: Path, parts: seq<bytes>)
    requires parts != [] && MkdirParts(t, start, parts).New? && MkdirParts(t, start, parts).path !in t.nodes
    ensures MkdirParts(Plus(t, MkdirParts(t, start, parts).path, Dir), start, parts) == Refused(EEXIST)
    decreases |parts|
  {
    var u := Plus(t, MkdirParts(t, start, parts).path, Dir);
    if Last(parts) == [] && |parts| > 1 {
      MadeExists(t, start, Init(parts));
    } else {
      FollowWithin(t, u, start, Init(parts), LINKS);
      var dir := DirOf(t, start, parts);
      assert Follow(u, start, Init(parts), LINKS) == dir;
      assert Searchable(t, dir.path).None?;
      assert DirOf(u, start, parts) == dir;
      assert MkdirParts(t, start, parts) == New(dir.path + [Last(parts)]);
      assert dir.path + [Last(parts)] in u.nodes;
      assert MkdirParts(u, start, parts) == Refused(EEXIST);
    }
  }

  // --- The directories that are made ---------------------------------------------------------------

  /** One directory after another under `at`, each in the one before. */
  function Built(t: Tree, at: Path, names: seq<bytes>): Tree {
    if names == [] then t else Plus(Built(t, at, Init(names)), at + names, Dir)
  }

  /** The new directories stand on the path, and nothing else has changed. */
  lemma {:induction false} BuiltNodes(t: Tree, at: Path, names: seq<bytes>, p: Path)
    ensures var u := Built(t, at, names);
            && u.walls == t.walls && u.cwd == t.cwd
            && (p in u.nodes <==> p in t.nodes || (at < p <= at + names))
            && (p in u.nodes ==> u.nodes[p] == if at < p <= at + names then Dir else t.nodes[p])
    decreases |names|
  {
    if names != [] {
      BuiltNodes(t, at, Init(names), p);
      assert Init(names) + [Last(names)] == names;
      OneLonger(at + Init(names), Last(names), p);
      assert at + Init(names) + [Last(names)] == at + names;
      Longer(at, names, p);
    } else {
      assert at + names == at;
    }
  }

  lemma OneLonger(p: Path, n: bytes, q: Path)
    ensures q <= p + [n] <==> q <= p || q == p + [n]
  {
    if q <= p + [n] && q != p + [n] {
      assert q == (p + [n])[..|q|] == p[..|q|];
    }
  }

  lemma Longer(at: Path, names: seq<bytes>, p: Path)
    requires names != []
    ensures at < at + names
  {}

  /** How mkdir -p has gone about it: the walk led to the first `k0` parts, and directories were
      made for the next ones up to `k`. */
  ghost predicate BuiltTo(t: Tree, u: Tree, start: Path, parts: seq<bytes>, k0: nat, k: nat) {
    && k0 <= k <= |parts| && EndsInside(t, [], start, parts, k0) && EndsInside(u, [], start, parts, k)
    && var at := Reach(t, start, parts, k0).path;
       && u == Built(t, at, parts[k0..k]) && Reach(u, start, parts, k).path == at + parts[k0..k]
       && (k0 < k ==> at + [parts[k0]] !in t.nodes && IsDir(u, at + parts[k0..k]) && Childless(u, at + parts[k0..k]))
  }

  ghost predicate BuiltAlong(t: Tree, u: Tree, start: Path, parts: seq<bytes>, base: nat) {
    exists k0: nat, k: nat :: base <= k0 && BuiltTo(t, u, start, parts, k0, k)
  }

  lemma BuiltNothing(t: Tree, start: Path, parts: seq<bytes>, base: nat)
    requires Inside(t, [], start, parts, base)
    ensures BuiltAlong(t, t, start, parts, base)
  {
    var k: nat :| base <= k && EndsInside(t, [], start, parts, k);
    assert parts[k..k] == [];
    assert Reach(t, start, parts, k).path + [] == Reach(t, start, parts, k).path;
    assert BuiltTo(t, t, start, parts, k, k);
  }

  lemma BuiltOneMore(t: Tree, u: Tree, start: Path, parts: seq<bytes>, base: nat, j: nat)
    requires WellFormed(u) && 0 < base <= |parts| && PlainNames(parts[base..])
    requires BuiltAlong(t, u, start, parts, base)
    requires 0 < j <= |parts| && MkdirParts(u, start, parts[..j]).New?
    ensures BuiltAlong(t, Plus(u, MkdirParts(u, start, parts[..j]).path, Dir), start, parts, base)
  {
    var k0: nat, k: nat :| base <= k0 && BuiltTo(t, u, start, parts, k0, k);
    MkdirAtDeepest(u, [], start, parts, base, k, j);
    BuiltOne(t, u, start, parts, base, k0, k, j);
  }

  lemma BuiltOne(t: Tree, u: Tree, start: Path, parts: seq<bytes>, base: nat, k0: nat, k: nat, j: nat)
    requires WellFormed(u) && 0 < base <= k0 <= k && j == k + 1 <= |parts| && PlainNames(parts[base..])
    requires BuiltTo(t, u, start, parts, k0, k) && MkdirParts(u, start, parts[..j]).New?
    ensures BuiltTo(t, Plus(u, MkdirParts(u, start, parts[..j]).path, Dir), start, parts, k0, j)
  {
    assert IsName(parts[base..][k - base]);
    MkdirNeedsDir(u, start, parts, k, j);
    var w := Reach(u, start, parts, k);
    BuiltStep(t, u, start, parts, base, k0, k, j, Reach(t, start, parts, k0).path, w.path, w.left);
  }

  lemma BuiltStep(
      t: Tree, u: Tree, start: Path, parts: seq<bytes>, base: nat, k0: nat, k: nat, j: nat,
      at: Path, dir: Path, left: nat)
    requires WellFormed(u) && 0 < base <= k0 <= k && j == k + 1 <= |parts|
    requires PlainNames(parts[base..]) && IsName(parts[k]) && |parts[k]| <= NAMEMAX
    requires BuiltTo(t, u, start, parts, k0, k) && Reach(t, start, parts, k0).path == at
    requires Reach(u, start, parts, k) == At(dir, left) && Searchable(u, dir).None? && dir + [parts[k]] !in u.nodes
    ensures BuiltTo(t, Plus(u, dir + [parts[k]], Dir), start, parts, k0, j)
  {
    var v, made := Plus(u, dir + [parts[k]], Dir), dir + [parts[k]];
    MadeIsReached(u, start, parts, k, j, dir, left);
    MadeEndsInside(u, [], start, parts, base, k, j, dir, left);
    NewIsChildless(u, made);
    Slices(parts, k0, k, j, at);
    assert Built(t, at, parts[k0..j]) == v;
    if k0 == k {
      assert parts[k0..k] == [] && at + [] == at;
    }
  }

  lemma Slices(parts: seq<bytes>, k0: nat, k: nat, j: nat, at: Path)
    requires k0 <= k && j == k + 1 <= |parts|
    ensures Init(parts[k0..j]) == parts[k0..k] && parts[k0..j] != []
    ensures at + parts[k0..k] + [parts[k]] == at + parts[k0..j]
    ensures parts[k0] == parts[k0..j][0]
  {}

  lemma NewIsChildless(t: Tree, p: Path)
    requires WellFormed(t) && p != [] && p !in t.nodes
    ensures Childless(Plus(t, p, Dir), p)
  {
    assert Init(p) != p;
  }

  // --- The text and its cuts ---------------------------------------------------------------------------

  ghost predicate TextInside(t: Tree, rc: Path, text: bytes, base: nat) {
    Inside(t, rc, Start(t.cwd, text), Jail.Split(text), base)
  }

  /** Something stands at the cut, if only a dangling link. */
  ghost predicate Taken(t: Tree, text: bytes, n: nat)
    requires n <= |text|
  {
    MkdirAnswer(t, text[..n]) == Refused(EEXIST)
  }

  /** Nothing was lost and only directories came; and where the path is a root that can be walked
      and then plain names, they are exactly the next ones on the path. */
  ghost predicate Grown(t: Tree, u: Tree, text: bytes, base: nat) {
    && WellFormed(u) && Within(t, u) && u.cwd == t.cwd && (forall p <- u.nodes :: p !in t.nodes ==> u.nodes[p].Dir?)
    && (TextInside(t, [], text, base) ==> BuiltAlong(t, u, Start(t.cwd, text), Jail.Split(text), base))
  }

  lemma StaysTaken(t: Tree, u: Tree, text: bytes, n: nat)
    requires n <= |text| && Within(t, u) && t.cwd == u.cwd && Taken(t, text, n)
    ensures Taken(u, text, n)
  {
    StillExists(t, u, Start(t.cwd, text[..n]), Jail.Split(text[..n]));
  }

  /** One mkdir more, for a cut of the path. */
  lemma MadeGrows(first: Tree, t: Tree, text: bytes, base: nat, n: nat)
    requires WellFormed(t) && NUL !in text && 0 < n <= |text| && Cut(text, n) && MkdirAnswer(t, text[..n]).New?
    requires Grown(first, t, text, base)
    ensures var u := Plus(t, MkdirAnswer(t, text[..n]).path, Dir);
            WellFormed(u) && Within(t, u) && Grown(first, u, text, base) && Taken(u, text, n)
  {
    var start, cut := Start(t.cwd, text), Jail.Split(text[..n]);
    assert Start(t.cwd, text[..n]) == start;
    SplitClean(text[..n]);
    MkdirIsNew(t, start, cut);
    MadeExists(t, start, cut);
    SplitCut(text, n);
    assert cut == Jail.Split(text)[..|cut|];
    if TextInside(first, [], text, base) {
      BuiltOneMore(first, t, start, Jail.Split(text), base, |cut|);
    }
  }

  ghost predicate AllTaken(t: Tree, text: bytes, end: nat) {
    forall n :: 0 < n < end && n <= |text| && Cut(text, n) ==> Taken(t, text, n)
  }

  lemma AllStayTaken(t: Tree, u: Tree, text: bytes, end: nat)
    requires Within(t, u) && t.cwd == u.cwd && AllTaken(t, text, end)
    ensures AllTaken(u, text, end)
  {
    forall n | 0 < n < end && n <= |text| && Cut(text, n)
      ensures Taken(u, text, n)
    {
      StaysTaken(t, u, text, n);
    }
  }

  /** How far mkdir -p has come since the tree was `first`. */
  ghost predicate SoFar(first: Tree, t: Tree, text: bytes, base: nat, end: nat) {
    Grown(first, t, text, base) && AllTaken(t, text, end)
  }

  lemma SoFarNothing(t: Tree, text: bytes, base: nat)
    requires WellFormed(t)
    ensures SoFar(t, t, text, base, 1)
  {
    if TextInside(t, [], text, base) {
      BuiltNothing(t, Start(t.cwd, text), Jail.Split(text), base);
    }
  }

  lemma SoFarSkip(first: Tree, t: Tree, text: bytes, base: nat, p: nat)
    requires SoFar(first, t, text, base, p) && p < |text| && text[p] != SLASH
    ensures SoFar(first, t, text, base, p + 1)
  {}

  /** A component of the path cannot be made, for a reason mkdir gives. */
  ghost predicate Stopped(t: Tree, text: bytes, e: Errno) {
    && e != EEXIST
    && exists n :: 0 < n <= |text| && Cut(text, n) && MkdirAnswer(t, text[..n]) == Refused(e)
  }

  // --- fsapi_mkdirs --------------------------------------------------------------------------------------

  /** The mkdir for one cut. */
  method MkdirCut(d: Disk, text: bytes, n: nat, ghost first: Tree, ghost base: nat) returns (err: Option<Errno>)
    requires NUL !in text && 0 < n <= |text| && Cut(text, n) && SoFar(first, d.t, text, base, n)
    modifies d
    ensures err.None? || err.value == EEXIST ==> SoFar(first, d.t, text, base, n + 1)
    ensures Grown(first, d.t, text, base)
    ensures old(d.Calm()) ==> d.Calm() && (err.Some? && err.value != EEXIST ==> Stopped(d.t, text, err.value))
  {
    err := d.Mkdir(text[..n]);
    if err.None? {
      MadeGrows(first, old(d.t), text, base, n);
      AllStayTaken(old(d.t), d.t, text, n);
    }
  }

  /** The loop of fsapi_mkdirs: one mkdir at each slash but the first byte. */
  method MkdirParents(d: Disk, text: bytes, ghost base: nat) returns (err: Option<Errno>)
    requires WellFormed(d.t) && NUL !in text && text != []
    modifies d
    ensures Grown(old(d.t), d.t, text, base)
    ensures err.None? ==> SoFar(old(d.t), d.t, text, base, |text|)
    ensures old(d.Calm()) ==> d.Calm() && (err.Some? ==> Stopped(d.t, text, err.value))
  {
    var p := 1;
    SoFarNothing(d.t, text, base);
    while p < |text|
      invariant 1 <= p <= |text| && SoFar(old(d.t), d.t, text, base, p)
      invariant old(d.Calm()) ==> d.Calm()
    {
      if text[p] == SLASH {
        err := MkdirCut(d, text, p, old(d.t), base);
        if err.Some? && err.value != EEXIST {
          return err;
        }
      } else {
        SoFarSkip(old(d.t), d.t, text, base, p);
      }
      p := p + 1;
    }
    return None;
  }

  /** fsapi_mkdirs. Only the next directories on the path are made. On success something stands
      at every component of the path; unless a call is refused without reason, it fails only
      for a component where nothing stands and nothing can be made. */
  method MakeDirs(d: Disk, text: bytes, ghost base: nat) returns (err: Option<Errno>)
    requires WellFormed(d.t) && NUL !in text && text != []
    modifies d
    ensures |text| >= Jail.PATHCAP ==> err == Some(ENAMETOOLONG) && d.t == old(d.t)
    ensures Grown(old(d.t), d.t, text, base)
    ensures err.None? ==> AllTaken(d.t, text, |text| + 1)
    ensures old(d.Calm()) ==> d.Calm() && (|text| < Jail.PATHCAP && err.Some? ==> Stopped(d.t, text, err.value))
  {
    if |text| >= Jail.PATHCAP {
      SoFarNothing(d.t, text, base);
      return Some(ENAMETOOLONG);
    }
    err := MkdirParents(d, text, base);
    if err.None? {
      err := MkdirCut(d, text, |text|, old(d.t), base);
      if err == Some(EEXIST) {
        err := None;
      }
    }
  }

  // --- Containment ------------------------------------------------------------------------------------------

  /** If the walk through the path ends inside `rc`, so do the new directories. */
  lemma GrownStaysInside(t: Tree, u: Tree, rc: Path, text: bytes, base: nat)
    requires TextInside(t, rc, text, base) && Grown(t, u, text, base)
    ensures GrownUnder(t, u, rc) && TextInside(u, rc, text, base)
  {
    var start, parts := Start(t.cwd, text), Jail.Split(text);
    var k1: nat :| base <= k1 && EndsInside(t, rc, start, parts, k1);
    assert EndsInside(t, [], start, parts, k1);
    var k0: nat, k: nat :| base <= k0 && BuiltTo(t, u, start, parts, k0, k);
    DeepestIsOne(t, start, parts, k0, k1);
    var at := Reach(t, start, parts, k0).path;
    forall p <- u.nodes | p !in t.nodes
      ensures rc <= p && u.nodes[p].Dir?
    {
      BuiltNodes(t, at, parts[k0..k], p);
      PrefixTwice(rc, at, p);
    }
    PrefixTwice(rc, at, at + parts[k0..k]);
    assert EndsInside(u, rc, start, parts, k);
  }

  lemma DeepestIsOne(t: Tree, start: Path, parts: seq<bytes>, j: nat, k: nat)
    requires EndsInside(t, [], start, parts, j) && EndsInside(t, [], start, parts, k)
    ensures j == k
  {
    if j < k {
      OneMore(t, start, parts, j, j + 1);
      ReachFailsOn(t, start, parts, j + 1, k);
    } else if k < j {
      OneMore(t, start, parts, k, k + 1);
      ReachFailsOn(t, start, parts, k + 1, j);
    }
  }

  lemma PrefixTwice(a: Path, b: Path, c: Path)
    requires a <= b <= c
    ensures a <= c
  {
    assert c[..|b|] == b && b[..|a|] == a;
  }

  // --- When the path leads to a directory afterwards -----------------------------------------------------

  predicate LeadsToDir(t: Tree, text: bytes) {
    var w := Follow(t, Start(t.cwd, text), Jail.Split(text), LINKS);
    text != [] && w.At? && IsDir(t, w.path)
  }

  lemma {:induction false} DeepestExists(t: Tree, start: Path, parts: seq<bytes>, k: nat) returns (deepest: nat)
    requires k <= |parts| && Reach(t, start, parts, k).At?
    ensures k <= deepest && EndsInside(t, [], start, parts, deepest)
    decreases |parts| - k
  {
    deepest := k;
    if k < |parts| {
      OneMore(t, start, parts, k, k + 1);
      if Reach(t, start, parts, k + 1).At? {
        deepest := DeepestExists(t, start, parts, k + 1);
      }
    }
  }

  /** A root that can be walked, and plain names after it. */
  lemma RootedInside(t: Tree, root: bytes, names: seq<bytes>)
    requires root != [] && PlainNames(names) && RealPath(t, root).At?
    ensures TextInside(t, [], root + Jail.Path(names), |Jail.Split(root)|)
  {
    var parts, base := Parts(root, names), |Jail.Split(root)|;
    SplitRooted(root, names);
    StartRooted(t.cwd, root, Jail.Path(names));
    assert parts[..base] == Jail.Split(root) && parts[base..] == names;
    var k := DeepestExists(t, Start(t.cwd, root), parts, base);
  }

  /** What can be walked to can be looked up. */
  lemma ResolvedIsLocated(t: Tree, text: bytes)
    requires text != [] && Follow(t, Start(t.cwd, text), Jail.Split(text), LINKS).At?
    ensures Locate(t, text).At?
  {
    var start, parts := Start(t.cwd, text), Jail.Split(text);
    assert Init(parts) + [Last(parts)] == parts;
    FollowAppend(t, start, Init(parts), [Last(parts)], LINKS);
  }

  /** Where mkdir meets something under a name, so does a lookup. */
  lemma TakenIsLocated(t: Tree, text: bytes)
    requires text != [] && IsName(Last(Jail.Split(text)))
    ensures MkdirAnswer(t, text) == Refused(EEXIST) <==> Locate(t, text).At?
  {
    WalkErrors(t, Start(t.cwd, text), Init(Jail.Split(text)), LINKS);
  }

  lemma LastOfRooted(root: bytes, names: seq<bytes>)
    requires root != [] && PlainNames(names) && names != []
    ensures var parts := Jail.Split(root + Jail.Path(names));
            && Last(parts) == Last(names) && IsName(Last(parts)) && Init(parts) == Parts(root, Init(names))
  {
    SplitRooted(root, names);
    assert Parts(root, names) == Parts(root, Init(names)) + [Last(names)];
  }

  /** Nothing was made: then something stands at the end of the path. */
  lemma NothingMade(t: Tree, root: bytes, names: seq<bytes>)
    requires root != [] && PlainNames(names) && RealPath(t, root).At?
    requires MkdirAnswer(t, root + Jail.Path(names)) == Refused(EEXIST)
    ensures Locate(t, root + Jail.Path(names)).At?
  {
    if names == [] {
      assert root + Jail.Path(names) == root;
      ResolvedIsLocated(t, root);
    } else {
      LastOfRooted(root, names);
      TakenIsLocated(t, root + Jail.Path(names));
    }
  }

  /** Something was made, and mkdir -p went through to the end: then all of the rest was made. */
  lemma MadeToTheEnd(t: Tree, u: Tree, root: bytes, names: seq<bytes>, k0: nat, k: nat)
    requires root != [] && PlainNames(names) && |Jail.Split(root)| <= k0 < k
    requires BuiltTo(t, u, Start(u.cwd, root), Parts(root, names), k0, k)
    requires AllTaken(u, root + Jail.Path(names), |root + Jail.Path(names)| + 1)
    ensures k == |Parts(root, names)|
  {
    var parts, m := Parts(root, names), k - |Jail.Split(root)|;
    if k < |parts| {
      NextIsTaken(u, root, names, m, m + 1);
      assert Parts(root, names[..m]) == parts[..k] && parts[k] == names[m];
      NoChildren(u, Reach(u, Start(u.cwd, root), parts, k).path, parts[k]);
    }
  }

  /** The cut after one more name is taken: that name stands where the names before it lead. */
  lemma NextIsTaken(u: Tree, root: bytes, names: seq<bytes>, m: nat, i: nat)
    requires root != [] && PlainNames(names) && i == m + 1 <= |names|
    requires AllTaken(u, root + Jail.Path(names), |root + Jail.Path(names)| + 1)
    ensures var w := Follow(u, Start(u.cwd, root), Parts(root, names[..m]), LINKS);
            w.At? && w.path + [names[m]] in u.nodes
  {
    var cut := root + Jail.Path(names[..i]);
    NextCut(root, names, m, i);
    assert Taken(u, root + Jail.Path(names), |cut|);
    assert MkdirAnswer(u, cut) == Refused(EEXIST);
    CutParts(u, root, names, i);
    LastOfRooted(root, names[..i]);
    assert Init(names[..i]) == names[..m] && Last(names[..i]) == names[m];
    TakenIsLocated(u, cut);
  }

  lemma NoChildren(t: Tree, dir: Path, name: bytes)
    requires Childless(t, dir)
    ensures dir + [name] !in t.nodes
  {
    assert Init(dir + [name]) == dir;
  }

  /** What was made was not there before. */
  lemma MadeWasNotLocated(t: Tree, root: bytes, names: seq<bytes>, k0: nat, n: nat, at: Path, left: nat)
    requires root != [] && PlainNames(names) && |Jail.Split(root)| <= k0 <= n && n + 1 == |Parts(root, names)|
    requires Reach(t, Start(t.cwd, root), Parts(root, names), k0) == At(at, left)
    requires at + [Parts(root, names)[k0]] !in t.nodes
    ensures Locate(t, root + Jail.Path(names)).Fails?
  {
    var start, parts := Start(t.cwd, root), Parts(root, names);
    LastOfRooted(root, names);
    StartRooted(t.cwd, root, Jail.Path(names));
    assert Parts(root, Init(names)) == parts[..n];
    if k0 < n {
      assert parts[k0] in names;
      MissesFirst(t, start, parts, k0, k0 + 1, n, at, left);
    }
  }

  lemma MissesFirst(t: Tree, start: Path, parts: seq<bytes>, k0: nat, j: nat, n: nat, at: Path, left: nat)
    requires j == k0 + 1 <= n <= |parts| && Reach(t, start, parts, k0) == At(at, left)
    requires IsName(parts[k0]) && at + [parts[k0]] !in t.nodes
    ensures Reach(t, start, parts, n).Fails?
  {
    OneMore(t, start, parts, k0, j);
    FollowOne(t, at, parts[k0], left);
    ReachFailsOn(t, start, parts, j, n);
  }

  /** Success of mkdir -p does not mean that there are directories, for EEXIST counts as success
      whatever it is that exists. Exactly when it does, for a path of plain names after a root
      that resolves: unless, before the call, something stood at the end of the path that did
      not lead to a directory. */
  lemma DirectoryExactly(t: Tree, u: Tree, root: bytes, names: seq<bytes>)
    requires root != [] && PlainNames(names) && RealPath(t, root).At?
    requires Grown(t, u, root + Jail.Path(names), |Jail.Split(root)|)
    requires AllTaken(u, root + Jail.Path(names), |root + Jail.Path(names)| + 1)
    ensures var text := root + Jail.Path(names);
            LeadsToDir(u, text) <==> !(Locate(t, text).At? && !LeadsToDir(t, text))
  {
    var text, parts, base := root + Jail.Path(names), Parts(root, names), |Jail.Split(root)|;
    RootedInside(t, root, names);
    SplitRooted(root, names);
    StartRooted(t.cwd, root, Jail.Path(names));
    var k0: nat, k: nat :| base <= k0 && BuiltTo(t, u, Start(t.cwd, text), parts, k0, k);
    assert text[..|text|] == text && Taken(u, text, |text|);
    if k0 == k {
      assert parts[k0..k] == [];
      NothingMade(t, root, names);
    } else {
      MadeToTheEnd(t, u, root, names, k0, k);
      assert parts[..k] == parts;
      var w := Reach(t, Start(t.cwd, root), parts, k0);
      MadeWasNotLocated(t, root, names, k0, |parts| - 1, w.path, w.left);
    }
  }
}
