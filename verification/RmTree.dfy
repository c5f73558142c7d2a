/**
 Removing files and directories (fsapi_rmtree in src/core/fsapi.c): exactly the subtree, from
 the leaves up, symbolic links removed like files. Calls may be refused at any point.
 */
module RmTree {
  import opened Bytes
  import opened Posix
  import opened Tree
  import opened Disks
  import opened Contained
  import Jail

  ghost function Subtree(t: Tree, at: Path): set<Path> {
    set p <- t.nodes | at <= p
  }

  /** How much there is to remove. */
  ghost function Size(t: Tree, text: bytes): nat {
    var w := Locate(t, text);
    if w.Fails? then 0 else |Subtree(t, w.path)|
  }

  /** The tree without what is at `at` and below. */
  function Without(t: Tree, at: Path): Tree {
    t.(nodes := map p <- t.nodes | !(at <= p) :: t.nodes[p], cwd := if at <= t.cwd then GONE else t.cwd)
  }

  /** The tree without what is below `at`. */
  function Pruned(t: Tree, at: Path): Tree {
    t.(nodes := map p <- t.nodes | !(at < p) :: t.nodes[p], cwd := if at < t.cwd then GONE else t.cwd)
  }

  /** Nodes were removed, and none but `at` and what is below it. */
  ghost predicate RemovedWithin(t: Tree, u: Tree, at: Path) {
    && Within(u, t) && u.cwd == (if t.cwd in u.nodes then t.cwd else GONE)
    && forall p <- t.nodes :: p !in u.nodes ==> at <= p
  }

  /** Nothing stands in the way: every directory may be searched, no path gets too long, and the
      way to `text` does not lead through what is to be removed. */
  ghost predicate Clear(t: Tree, text: bytes) {
    && t.walls == {} && EndsInName(text) && Locate(t, text).At?
    && var at := Locate(t, text).path;
       && Locate(Pruned(t, at), text).At?
       && forall p <- t.nodes :: at <= p ==> |text| + |Jail.Path(p[|at|..])| < Jail.PATHCAP
  }

  // --- Paths of children ----------------------------------------------------------------------------

  lemma ChildEndsInName(text: bytes, name: bytes)
    requires NUL !in text && IsName(name)
    ensures EndsInName(Child(text, name))
  {
    ChildParts(text, name);
  }

  /** What is found is found from where everybody starts. */
  lemma StartsAlike(t: Tree, u: Tree, text: bytes)
    requires Within(t, u) && Locate(t, text).At?
    ensures Start(t.cwd, text) == Start(u.cwd, text)
  {
    if t.cwd != u.cwd && Start(t.cwd, text) == GONE {
      FromGone(t, Jail.Split(text));
    }
  }

  /** The path of a child finds the child or nothing, however much has been removed since. */
  lemma LocateChild(t: Tree, u: Tree, text: bytes, name: bytes)
    requires Within(u, t) && text != [] && IsName(name)
    requires Locate(t, text).At? && IsDir(t, Locate(t, text).path)
    requires Locate(u, Child(text, name)).At?
    ensures Locate(u, Child(text, name)).path == Locate(t, text).path + [name]
  {
    ChildParts(text, name);
    LocateIsFollow(t, text);
    var child, parts := Child(text, name), Jail.Split(text);
    assert Init(parts + [name]) == parts;
    StartsAlike(u, t, child);
    assert Start(u.cwd, child) == Start(t.cwd, text);
    FollowWithin(u, t, Start(u.cwd, child), parts, LINKS);
  }

  lemma ChildIsFound(t: Tree, u: Tree, text: bytes, name: bytes)
    requires Within(t, u) && IsName(name) && |name| <= NAMEMAX && t.walls == {}
    requires Locate(t, text).At? && IsDir(t, Locate(t, text).path)
    requires Locate(t, text).path + [name] in u.nodes
    ensures Locate(u, Child(text, name)).At? && Locate(u, Child(text, name)).path == Locate(t, text).path + [name]
  {
    ChildParts(text, name);
    LocateIsFollow(t, text);
    var child, parts := Child(text, name), Jail.Split(text);
    assert Init(parts + [name]) == parts && Last(parts + [name]) == name;
    StartsAlike(t, u, text);
    assert Start(u.cwd, child) == Start(t.cwd, text);
    FollowWithin(t, u, Start(u.cwd, child), parts, LINKS);
  }

  lemma PathOfChild(at: Path, name: bytes, p: Path)
    requires at + [name] <= p
    ensures |Jail.Path(p[|at|..])| == 1 + |name| + |Jail.Path(p[|at + [name]|..])|
  {
    assert p[|at|..][0] == (at + [name])[|at|] == name;
    assert p[|at|..][1..] == p[|at + [name]|..];
  }

  lemma PrunedWithin(t: Tree, u: Tree, at: Path)
    requires WellFormed(t) && RemovedWithin(t, u, at) && (at in t.nodes ==> at in u.nodes)
    ensures Within(Pruned(t, at), u)
  {
    assert at <= t.cwd && !(at < t.cwd) ==> t.cwd == at;
    forall p <- Pruned(t, at).nodes
      ensures p in u.nodes
    {
      assert at <= p ==> p == at;
    }
  }

  lemma PrunedBelow(t: Tree, u: Tree, at: Path, name: bytes)
    requires WellFormed(t) && RemovedWithin(t, u, at) && (at in t.nodes ==> at in u.nodes)
    ensures Within(Pruned(t, at), Pruned(u, at + [name]))
  {
    PrunedWithin(t, u, at);
    forall p <- Pruned(t, at).nodes
      ensures p in Pruned(u, at + [name]).nodes
    {
      BelowChild(at, name, p);
    }
    BelowChild(at, name, u.cwd);
  }

  lemma BelowChild(at: Path, name: bytes, p: Path)
    ensures at + [name] < p ==> at < p
  {
    if at + [name] < p {
      assert p[..|at|] == (at + [name])[..|at|] == at;
    }
  }

  lemma ClearChild(t: Tree, u: Tree, text: bytes, name: bytes)
    requires WellFormed(t) && WellFormed(u) && Clear(t, text) && IsName(name)
    requires var at := Locate(t, text).path;
             IsDir(t, at) && RemovedWithin(t, u, at) && at in u.nodes && at + [name] in u.nodes
    ensures Clear(u, Child(text, name)) && |Child(text, name)| < Jail.PATHCAP
  {
    var at, child := Locate(t, text).path, Child(text, name);
    var bare, at' := Pruned(t, at), at + [name];
    assert |Last(at')| <= NAMEMAX;
    LocateWithin(t, bare, text);
    PrunedWithin(t, u, at);
    PrunedBelow(t, u, at, name);
    ChildIsFound(bare, u, text, name);
    ChildIsFound(bare, Pruned(u, at'), text, name);
    ChildEndsInName(text, name);
    forall p <- u.nodes | at' <= p
      ensures |child| + |Jail.Path(p[|at'|..])| < Jail.PATHCAP
    {
      PathOfChild(at, name, p);
      assert at <= p;
    }
  }

  // --- One child after another ------------------------------------------------------------------------

  /** The children that are left are the ones in `todo`. */
  ghost predicate Emptying(first: Tree, t: Tree, at: Path, todo: set<bytes>) {
    && WellFormed(first) && WellFormed(t) && RemovedWithin(first, t, at) && IsDir(t, at)
    && (forall p <- t.nodes :: p != [] && Init(p) == at ==> Last(p) in todo)
    && (forall n <- todo :: at + [n] in t.nodes)
  }

  lemma ChildRemoved(first: Tree, t: Tree, at: Path, todo: set<bytes>, n: bytes)
    requires Emptying(first, t, at, todo) && n in todo && WellFormed(Without(t, at + [n]))
    ensures Emptying(first, Without(t, at + [n]), at, todo - {n})
  {
    var u := Without(t, at + [n]);
    assert RemovedWithin(t, u, at + [n]);
    PartlyRemoved(first, t, u, at, n);
    forall m <- todo - {n}
      ensures at + [m] in u.nodes
    {
      OtherChild(at, m, n);
    }
    forall p <- u.nodes | p != [] && Init(p) == at
      ensures Last(p) in todo - {n}
    {
      ChildIsNot(at, n, p);
    }
  }

  lemma ChildIsNot(at: Path, n: bytes, p: Path)
    requires p != [] && Init(p) == at && !(at + [n] <= p)
    ensures Last(p) != n
  {
    assert p == at + [Last(p)];
  }

  lemma OtherChild(at: Path, m: bytes, n: bytes)
    requires m != n
    ensures !(at + [n] <= at + [m])
  {
    assert (at + [m])[|at|] == m && (at + [n])[|at|] == n;
  }

  lemma PartlyRemoved(first: Tree, t: Tree, u: Tree, at: Path, n: bytes)
    requires RemovedWithin(first, t, at) && RemovedWithin(t, u, at + [n])
    ensures RemovedWithin(first, u, at)
  {
    forall p <- first.nodes | p !in u.nodes
      ensures at <= p
    {
      if p in t.nodes {
        assert at + [n] <= p;
        assert p[..|at|] == (at + [n])[..|at|];
      }
    }
  }

  lemma SmallerBelow(first: Tree, t: Tree, at: Path, n: bytes)
    requires Within(t, first) && at in first.nodes
    ensures |Subtree(t, at + [n])| < |Subtree(first, at)|
  {
    var a, b := Subtree(t, at + [n]), Subtree(first, at);
    forall p <- a
      ensures p in b - {at}
    {
      assert p[..|at|] == (at + [n])[..|at|];
    }
    Fewer(a, b - {at});
  }

  lemma Fewer<T>(a: set<T>, b: set<T>)
    requires a <= b
    ensures |a| <= |b|
    decreases a
  {
    if a != {} {
      var x :| x in a;
      Fewer(a - {x}, b - {x});
    }
  }

  lemma LastRemoved(first: Tree, t: Tree, at: Path)
    requires Emptying(first, t, at, {})
    ensures Childless(t, at) && Minus(t, at) == Without(first, at)
  {
    var u, w := Minus(t, at), Without(first, at);
    forall p <- t.nodes | at <= p
      ensures p == at
    {
      ChildlessBelow(t, at, p);
    }
    assert u.nodes.Keys == w.nodes.Keys;
    assert forall p <- u.nodes :: u.nodes[p] == w.nodes[p];
  }

  function Names(t: Tree, at: Path): set<bytes> {
    set p <- t.nodes | p != [] && Init(p) == at :: Last(p)
  }

  /** The loop over a directory's entries, in whatever order they come. */
  method RemoveChildren(d: Disk, text: bytes, ghost at: Path, ghost calm: bool) returns (err: Option<Errno>)
    requires WellFormed(d.t) && NUL !in text
    requires Locate(d.t, text).At? && at == Locate(d.t, text).path && IsDir(d.t, at)
    requires calm ==> d.Calm() && Clear(d.t, text)
    modifies d
    ensures WellFormed(d.t) && RemovedWithin(old(d.t), d.t, at)
    ensures err.None? ==> Emptying(old(d.t), d.t, at, {})
    ensures calm ==> d.Calm() && err.None?
    decreases Size(d.t, text), 1
  {
    ghost var first := d.t;
    var todo := Names(d.t, Locate(d.t, text).path);
    ListedChildren(d.t, at);
    while todo != {}
      invariant Emptying(first, d.t, at, todo)
      invariant calm ==> d.Calm()
      decreases todo
    {
      var n :| n in todo;
      err := RemoveChild(d, text, n, first, at, todo, calm);
      if err.Some? {
        return;
      }
      todo := todo - {n};
    }
    err := None;
  }

  lemma ListedChildren(t: Tree, at: Path)
    requires WellFormed(t) && IsDir(t, at)
    ensures Emptying(t, t, at, Names(t, at))
  {
    forall n <- Names(t, at)
      ensures at + [n] in t.nodes
    {
      var p :| p in t.nodes && p != [] && Init(p) == at && Last(p) == n;
      assert p == at + [n];
    }
  }

  /** One turn of that loop. */
  method RemoveChild(
      d: Disk, text: bytes, n: bytes, ghost first: Tree, ghost at: Path, ghost todo: set<bytes>, ghost calm: bool)
    returns (err: Option<Errno>)
    requires NUL !in text && text != [] && Locate(first, text).At? && at == Locate(first, text).path && IsDir(first, at)
    requires Emptying(first, d.t, at, todo) && n in todo
    requires calm ==> d.Calm() && Clear(first, text)
    modifies d
    ensures WellFormed(d.t) && RemovedWithin(first, d.t, at)
    ensures err.None? ==> Emptying(first, d.t, at, todo - {n})
    ensures calm ==> d.Calm() && err.None?
    decreases Size(first, text), 0
  {
    assert IsName(Last(at + [n]));
    if calm {
      ClearChild(first, d.t, text, n);
    }
    if |Child(text, n)| >= Jail.PATHCAP {
      return Some(ENAMETOOLONG);
    }
    ChildEndsInName(text, n);
    ghost var before := d.t;
    if Locate(before, Child(text, n)).At? {
      LocateChild(first, before, text, n);
      SmallerBelow(first, before, at, n);
    } else {
      HasSome(first, at);
    }
    err := RemoveTree(d, Child(text, n), true);
    if Locate(before, Child(text, n)).At? {
      PartlyRemoved(first, before, d.t, at, n);
      if err.None? {
        ChildRemoved(first, before, at, todo, n);
      }
    }
  }

  lemma HasSome(t: Tree, at: Path)
    requires at in t.nodes
    ensures |Subtree(t, at)| > 0
  {
    assert at in Subtree(t, at);
  }

  /** fsapi_rmtree. On success exactly the subtree is gone; on failure nothing outside it is,
      and nothing at all unless the removal is recursive; and it does succeed unless a call is
      refused or something stands in the way. */
  method RemoveTree(d: Disk, text: bytes, recursive: bool) returns (err: Option<Errno>)
    requires WellFormed(d.t) && NUL !in text
    modifies d
    ensures WellFormed(d.t)
    ensures Locate(old(d.t), text).Fails? ==> err.Some? && d.t == old(d.t)
    ensures !EndsInName(text) ==> err.Some?
    ensures Locate(old(d.t), text).At? ==>
              var at := Locate(old(d.t), text).path;
              && RemovedWithin(old(d.t), d.t, at)
              && (err.None? ==> d.t == Without(old(d.t), at))
              && (err.Some? && !(recursive && IsDir(old(d.t), at)) ==> d.t == old(d.t))
              && (err.None? && IsDir(old(d.t), at) && !Childless(old(d.t), at) ==> recursive)
    ensures old(d.Calm()) && Clear(old(d.t), text) ==>
              && d.Calm()
              && var at := Locate(old(d.t), text).path;
                 (err.None? <==> recursive || !IsDir(old(d.t), at) || Childless(old(d.t), at))
    decreases Size(d.t, text), 2
  {
    var w := d.Lstat(text);
    if w.Fails? {
      return Some(w.e);
    }
    LocateEnds(d.t, text);
    if !d.t.nodes[w.path].Dir? {
      err := d.Unlink(text);
      LeafIsChildless(old(d.t), w.path);
      AloneRemoved(old(d.t), w.path);
      return;
    }
    if !recursive {
      err := d.Rmdir(text);
      if err.None? {
        AloneRemoved(old(d.t), w.path);
      }
      return;
    }
    err := d.Refusal();
    if err.Some? {
      return;
    }
    ghost var calm := old(d.Calm()) && Clear(old(d.t), text);
    err := RemoveChildren(d, text, w.path, calm);
    if err.Some? {
      return;
    }
    err := RemoveEmptied(d, text, w.path, old(d.t), calm);
  }

  lemma AloneRemoved(t: Tree, at: Path)
    requires WellFormed(t) && at in t.nodes && Childless(t, at)
    ensures Minus(t, at) == Without(t, at)
  {
    forall p <- t.nodes | at <= p
      ensures p == at
    {
      ChildlessBelow(t, at, p);
    }
    assert Minus(t, at).nodes == Without(t, at).nodes;
  }

  /** An emptied directory is still found, unless the way to it led through its contents. */
  lemma EmptiedIsFound(first: Tree, t: Tree, at: Path, text: bytes)
    requires Locate(first, text).At? && at == Locate(first, text).path && IsDir(first, at)
    requires Emptying(first, t, at, {})
    ensures Locate(t, text).At? ==> Locate(t, text).path == at
    ensures Clear(first, text) ==> Locate(t, text).At?
  {
    if Locate(t, text).At? {
      LocateWithin(first, t, text);
    }
    if Clear(first, text) {
      PrunedWithin(first, t, at);
      LocateWithin(t, Pruned(first, at), text);
    }
  }

  /** The rmdir of a directory that has been emptied. */
  method RemoveEmptied(d: Disk, text: bytes, ghost at: Path, ghost first: Tree, ghost calm: bool)
    returns (err: Option<Errno>)
    requires NUL !in text && text != [] && Locate(first, text).At? && at == Locate(first, text).path && IsDir(first, at)
    requires Emptying(first, d.t, at, {})
    requires calm ==> d.Calm() && Clear(first, text)
    modifies d
    ensures WellFormed(d.t) && RemovedWithin(first, d.t, at)
    ensures err.None? ==> d.t == Without(first, at) && EndsInName(text)
    ensures calm ==> d.Calm() && err.None?
  {
    LastRemoved(first, d.t, at);
    EmptiedIsFound(first, d.t, at, text);
    err := d.Rmdir(text);
  }
}
