/**
 MOVE (fsapi_move in src/core/fsapi.c): mkdir -p for the new parent, one rename, two fsyncs. A
 rename carries a whole subtree to its new place and loses nothing but what stood there before.
 */
module Moves {
  import opened Bytes
  import opened Posix
  import opened Tree
  import opened Disks
  import opened Contained
  import opened Landing
  import opened Mkdirs
  import opened Placement
  import Jail
  import Publication

  /** `from` can take the place `to`: not below itself, and over an equal and empty node at most. */
  ghost predicate CanMove(t: Tree, from: Path, to: Path) {
    && from != [] && from in t.nodes && !(from <= to)
    && to != [] && IsName(Last(to)) && |Last(to)| <= NAMEMAX && IsDir(t, Init(to))
    && (to in t.nodes ==> Childless(t, to) && (t.nodes[to].Dir? <==> t.nodes[from].Dir?))
  }

  /** Where a node is found after the move. */
  function Carried(from: Path, to: Path, p: Path): Path {
    if from <= p then to + p[|from|..] else p
  }

  lemma CarriedBack(from: Path, to: Path, p: Path)
    requires from <= p
    ensures to <= Carried(from, to, p) && Carried(to, from, Carried(from, to, p)) == p
  {
    assert (to + p[|from|..])[|to|..] == p[|from|..];
    assert from + p[|from|..] == p;
  }

  /** The part of the tree that moves, at its new place. */
  function Arrived(t: Tree, from: Path, to: Path): set<Path> {
    set p <- t.nodes | from <= p :: Carried(from, to, p)
  }

  lemma ArrivedFrom(t: Tree, from: Path, to: Path, q: Path)
    ensures q in Arrived(t, from, to) <==> to <= q && Carried(to, from, q) in t.nodes
  {
    if q in Arrived(t, from, to) {
      var p :| p in t.nodes && from <= p && q == Carried(from, to, p);
      CarriedBack(from, to, p);
    }
    if to <= q && Carried(to, from, q) in t.nodes {
      CarriedBack(to, from, q);
    }
  }

  function Moved(t: Tree, from: Path, to: Path): Tree {
    var stay := map p <- t.nodes | !(from <= p) && p != to :: t.nodes[p];
    var go := map q <- Arrived(t, from, to) :: (ArrivedFrom(t, from, to, q); t.nodes[Carried(to, from, q)]);
    t.(nodes := stay + go, cwd := if t.cwd == to then GONE else Carried(from, to, t.cwd))
  }

  /** rename(2) of one name to another; the same name is no change. */
  datatype Renamed = Now(t: Tree) | Not(e: Errno)

  function RenameAnswer(t: Tree, src: bytes, dst: bytes): Renamed {
    var source, dir, name := Locate(t, src), DirOf(t, Start(t.cwd, dst), Jail.Split(dst)), Last(Jail.Split(dst));
    if source.Fails? then Not(source.e)
    else if !IsName(Last(Jail.Split(src))) || !IsName(name) then Not(EBUSY)
    else if source.path !in t.nodes then Not(ENOENT)
    else if dst == [] then Not(ENOENT)
    else if dir.Fails? then Not(dir.e)
    else
      var from, to := source.path, dir.path + [name];
      if |name| > NAMEMAX then Not(ENAMETOOLONG)
      else if from == to then Now(t)
      else if from <= to then Not(EINVAL)
      else if to !in t.nodes then Now(Moved(t, from, to))
      else if t.nodes[to].Dir? && !t.nodes[from].Dir? then Not(EISDIR)
      else if !t.nodes[to].Dir? && t.nodes[from].Dir? then Not(ENOTDIR)
      else if !Childless(t, to) then Not(ENOTEMPTY)
      else Now(Moved(t, from, to))
  }

  // --- What a move keeps ------------------------------------------------------------------------------

  /** What stands at `q` after the move. */
  lemma MovedAt(t: Tree, from: Path, to: Path, q: Path)
    ensures var u := Moved(t, from, to).nodes;
            if to <= q then
              && (Carried(to, from, q) in t.nodes ==> q in u && u[q] == t.nodes[Carried(to, from, q)])
              && (q in u ==> Carried(to, from, q) in t.nodes || (q in t.nodes && !(from <= q) && q != to))
            else
              && (q in u <==> q in t.nodes && !(from <= q))
              && (q in u ==> u[q] == t.nodes[q])
  {
    ArrivedFrom(t, from, to, q);
  }

  /** Every node but the one replaced is still there, with the same content, at the place it was
      or was carried to... */
  lemma StillThere(t: Tree, from: Path, to: Path, p: Path)
    requires WellFormed(t) && CanMove(t, from, to) && p in t.nodes && p != to
    ensures Carried(from, to, p) in Moved(t, from, to).nodes
    ensures Moved(t, from, to).nodes[Carried(from, to, p)] == t.nodes[p]
  {
    MovedAt(t, from, to, Carried(from, to, p));
    if from <= p {
      CarriedBack(from, to, p);
    } else if to <= p {
      NothingBelowTarget(t, from, to, p);
    }
  }

  /** ... and nothing else is. */
  lemma CameFrom(t: Tree, from: Path, to: Path, q: Path) returns (p: Path)
    requires WellFormed(t) && CanMove(t, from, to) && q in Moved(t, from, to).nodes
    ensures p in t.nodes && p != to && q == Carried(from, to, p)
  {
    MovedAt(t, from, to, q);
    p := q;
    if to <= q && Carried(to, from, q) in t.nodes {
      p := Carried(to, from, q);
      CarriedBack(to, from, q);
    }
  }

  /** Where the subtree goes there was nothing, but for the node it replaces. */
  lemma NothingBelowTarget(t: Tree, from: Path, to: Path, q: Path)
    requires WellFormed(t) && CanMove(t, from, to) && q in t.nodes && to <= q
    ensures q == to
  {
    assert q[..|to|] == to;
    if |to| < |q| {
      Above(t, q, |to|);
    }
    if to in t.nodes {
      ChildlessBelow(t, to, q);
    }
  }

  /** A move keeps the shape of the tree, and the daemon's working directory goes along. */
  lemma MovedWellFormed(t: Tree, from: Path, to: Path)
    requires WellFormed(t) && CanMove(t, from, to)
    ensures WellFormed(Moved(t, from, to))
  {
    var u := Moved(t, from, to);
    forall q <- u.nodes | q != []
      ensures IsName(Last(q)) && |Last(q)| <= NAMEMAX && IsDir(u, Init(q))
    {
      var p := CameFrom(t, from, to, q);
      ParentCarried(t, from, to, p);
    }
    MovedAt(t, from, to, []);
    CwdMoves(t, from, to);
  }

  lemma CwdMoves(t: Tree, from: Path, to: Path)
    requires WellFormed(t) && CanMove(t, from, to)
    ensures var u := Moved(t, from, to); u.cwd == GONE || IsDir(u, u.cwd)
  {
    if t.cwd == GONE {
      NotGone(t, from);
    } else if t.cwd != to {
      StillThere(t, from, to, t.cwd);
    }
  }

  lemma NotGone(t: Tree, p: Path)
    requires WellFormed(t) && p != [] && p in t.nodes
    ensures !(p <= GONE)
  {
    assert IsName(Last(p));
  }

  lemma ParentCarried(t: Tree, from: Path, to: Path, p: Path)
    requires WellFormed(t) && CanMove(t, from, to) && p in t.nodes && p != to && Carried(from, to, p) != []
    ensures var q, u := Carried(from, to, p), Moved(t, from, to);
            IsName(Last(q)) && |Last(q)| <= NAMEMAX && IsDir(u, Init(q))
  {
    if p == from {
      assert Carried(from, to, p) == to;
      StillThere(t, from, to, Init(to));
    } else {
      assert p != [] && Init(p) != to;
      StillThere(t, from, to, Init(p));
      InitCarried(from, to, p);
    }
  }

  lemma InitCarried(from: Path, to: Path, p: Path)
    requires p != [] && p != from
    ensures var q := Carried(from, to, p); q != [] && Last(q) == Last(p) && Init(q) == Carried(from, to, Init(p))
  {
    if from <= p {
      assert p[|from|..] != [];
      assert from <= Init(p) && Init(p)[|from|..] == Init(p[|from|..]);
      assert to + Init(p[|from|..]) == Init(to + p[|from|..]);
    } else {
      assert from <= Init(p) ==> from <= p;
    }
  }

  /** Moving back undoes a move that replaced nothing. */
  lemma MovingBack(t: Tree, from: Path, to: Path)
    requires WellFormed(t) && CanMove(t, from, to) && to !in t.nodes
    ensures Moved(Moved(t, from, to), to, from) == t
  {
    var back := Moved(Moved(t, from, to), to, from);
    forall p
      ensures p in back.nodes <==> p in t.nodes
      ensures p in t.nodes && p in back.nodes ==> back.nodes[p] == t.nodes[p]
    {
      BackAgain(t, from, to, p);
    }
    assert back.nodes == t.nodes;
    CwdBack(t, from, to);
  }

  lemma CwdBack(t: Tree, from: Path, to: Path)
    requires WellFormed(t) && CanMove(t, from, to) && to !in t.nodes
    ensures Moved(Moved(t, from, to), to, from).cwd == t.cwd
  {
    var q := Carried(from, to, t.cwd);
    if t.cwd == GONE {
      NotGone(t, from);
      assert IsName(Last(to));
    } else if from <= t.cwd {
      CarriedBack(from, to, t.cwd);
      if to <= from {
        NothingBelowTarget(t, from, to, from);
      }
      BelowItself(from, to, t.cwd);
    } else if to <= t.cwd {
      NothingBelowTarget(t, from, to, t.cwd);
    }
  }

  /** What has been carried to `to` is not at `from`. */
  lemma BelowItself(from: Path, to: Path, p: Path)
    requires from <= p && !(to <= from)
    ensures Carried(from, to, p) != from
  {
    assert (to + p[|from|..])[..|to|] == to;
  }

  lemma BackAgain(t: Tree, from: Path, to: Path, p: Path)
    requires WellFormed(t) && CanMove(t, from, to) && to !in t.nodes
    ensures var back := Moved(Moved(t, from, to), to, from);
            (p in back.nodes <==> p in t.nodes) && (p in t.nodes && p in back.nodes ==> back.nodes[p] == t.nodes[p])
  {
    MovedAt(Moved(t, from, to), to, from, p);
    if from <= p {
      var q := Carried(from, to, p);
      CarriedBack(from, to, p);
      MovedAt(t, from, to, q);
      MovedAt(t, from, to, p);
      if q in t.nodes {
        NothingBelowTarget(t, from, to, q);
      }
    } else {
      MovedAt(t, from, to, p);
      if p in t.nodes && to <= p {
        NothingBelowTarget(t, from, to, p);
      }
    }
  }

  // --- The calls --------------------------------------------------------------------------------------

  /** Where rename puts things: the last name of `dst` in the directory its other parts lead to. */
  function Target(t: Tree, dst: bytes): Walk {
    var dir := DirOf(t, Start(t.cwd, dst), Jail.Split(dst));
    if dir.Fails? then dir else At(dir.path + [Last(Jail.Split(dst))], dir.left)
  }

  /** A rename that succeeds is a move, or changes nothing because both names are one. */
  lemma RenameIsMove(t: Tree, src: bytes, dst: bytes)
    requires WellFormed(t) && RenameAnswer(t, src, dst).Now?
    ensures Locate(t, src).At? && Target(t, dst).At?
    ensures var from, to, u := Locate(t, src).path, Target(t, dst).path, RenameAnswer(t, src, dst).t;
            if from == to then u == t else CanMove(t, from, to) && u == Moved(t, from, to)
  {
    var dir := DirOf(t, Start(t.cwd, dst), Jail.Split(dst));
    var to := dir.path + [Last(Jail.Split(dst))];
    assert Init(to) == dir.path && Last(to) == Last(Jail.Split(dst));
  }

  /** The whole effect of a rename: none, if both names are one; else a move, that loses nothing
      and keeps the tree a tree. */
  ghost predicate Carries(t: Tree, src: bytes, dst: bytes, u: Tree) {
    && Locate(t, src).At? && Target(t, dst).At? && WellFormed(u)
    && var from, to := Locate(t, src).path, Target(t, dst).path;
       if from == to then u == t else CanMove(t, from, to) && u == Moved(t, from, to)
  }

  lemma RenameCarries(t: Tree, src: bytes, dst: bytes)
    requires WellFormed(t) && RenameAnswer(t, src, dst).Now?
    ensures Carries(t, src, dst, RenameAnswer(t, src, dst).t)
  {
    RenameIsMove(t, src, dst);
    var from, to := Locate(t, src).path, Target(t, dst).path;
    if from != to {
      MovedWellFormed(t, from, to);
    }
  }

  method Rename(d: Disk, src: bytes, dst: bytes) returns (err: Option<Errno>)
    requires WellFormed(d.t)
    modifies d
    ensures WellFormed(d.t)
    ensures err.None? ==> RenameAnswer(old(d.t), src, dst) == Now(d.t) && Carries(old(d.t), src, dst, d.t)
    ensures err.Some? ==> d.t == old(d.t)
    ensures old(d.Calm()) && err.Some? ==> RenameAnswer(d.t, src, dst) == Not(err.value)
  {
    err := d.Refusal();
    if err.None? {
      match RenameAnswer(d.t, src, dst)
      case Not(e) => err := Some(e);
      case Now(t) =>
        RenameCarries(d.t, src, dst);
        d.t := t;
    }
  }

  lemma ParentText(dst: bytes)
    requires NUL !in dst
    ensures Publication.ParentOf(dst) != [] && NUL !in Publication.ParentOf(dst)
    ensures |dst| < Jail.PATHCAP ==> |Publication.ParentOf(dst)| < Jail.PATHCAP
  {}

  /** fsapi_move. The directories for the new name come first and stay even if the rename fails;
      the rename happens as a whole or not at all, and then it carries everything over, and the
      directory of the new name is synced before that of the old one; it fails only for a reason. */
  method Move(d: Disk, src: bytes, dst: bytes, ghost base: nat) returns (err: Option<Errno>, ghost mid: Tree)
    requires WellFormed(d.t) && NUL !in dst
    modifies d
    ensures WellFormed(d.t) && Grown(old(d.t), mid, Publication.ParentOf(dst), base)
    ensures err.None? ==> RenameAnswer(mid, src, dst) == Now(d.t) && Carries(mid, src, dst, d.t)
    ensures err.Some? ==> d.t == mid
    ensures err.None? ==> EndsWith(d.synced, [Publication.ParentOf(dst), Publication.ParentOf(src)])
    ensures old(d.Calm()) && |dst| < Jail.PATHCAP && err.Some? ==>
              Stopped(mid, Publication.ParentOf(dst), err.value) || RenameAnswer(mid, src, dst) == Not(err.value)
  {
    err, mid := Carry(d, src, dst, base);
    if err.None? {
      SyncBoth(d, Publication.ParentOf(dst), Publication.ParentOf(src));
    }
  }

  /** What it does to the tree. */
  method Carry(d: Disk, src: bytes, dst: bytes, ghost base: nat) returns (err: Option<Errno>, ghost mid: Tree)
    requires WellFormed(d.t) && NUL !in dst
    modifies d
    ensures WellFormed(d.t) && Grown(old(d.t), mid, Publication.ParentOf(dst), base)
    ensures err.None? ==> RenameAnswer(mid, src, dst) == Now(d.t) && Carries(mid, src, dst, d.t)
    ensures err.Some? ==> d.t == mid
    ensures old(d.Calm()) && |dst| < Jail.PATHCAP && err.Some? ==>
              Stopped(mid, Publication.ParentOf(dst), err.value) || RenameAnswer(mid, src, dst) == Not(err.value)
  {
    var parent := Publication.ParentOf(dst);
    ParentText(dst);
    err := MakeDirs(d, parent, base);
    mid := d.t;
    if err.None? {
      err := Rename(d, src, dst);
    }
  }

  method SyncBoth(d: Disk, first: bytes, second: bytes)
    modifies d`step, d`synced
    ensures EndsWith(d.synced, [first, second])
  {
    d.SyncDir(first);
    d.SyncDir(second);
  }

  ghost predicate EndsWith(all: seq<bytes>, last: seq<bytes>) {
    |last| <= |all| && all[|all| - |last|..] == last
  }

  /** What a move brings stands inside if the check has accepted the new parent. */
  lemma MoveStaysInside(t: Tree, mid: Tree, root: bytes, names: seq<bytes>, name: bytes, src: bytes, dst: bytes)
    requires root != [] && PlainNames(names) && IsName(name) && dst == Child(root + Jail.Path(names), name)
    requires Accepted(t, root, root + Jail.Path(names))
    requires Grown(t, mid, root + Jail.Path(names), |Jail.Split(root)|)
    requires RenameAnswer(mid, src, dst).Now?
    ensures GrownUnder(t, mid, RealPath(t, root).path)
    ensures forall q <- RenameAnswer(mid, src, dst).t.nodes :: q !in mid.nodes ==> RealPath(t, root).path <= q
  {
    var rc, parent, u := RealPath(t, root).path, root + Jail.Path(names), RenameAnswer(mid, src, dst).t;
    UploadLandsInside(t, mid, root, names, name);
    TargetIsPlace(mid, parent, name);
    RenameTarget(mid, src, dst);
    var to := Target(mid, dst).path;
    forall q <- u.nodes | q !in mid.nodes
      ensures rc <= q
    {
      PrefixTwice(rc, to, q);
    }
  }

  lemma TargetIsPlace(t: Tree, parent: bytes, name: bytes)
    requires parent != [] && IsName(name) && Target(t, Child(parent, name)).At?
    ensures Place(t, parent, name) == Some(Target(t, Child(parent, name)).path)
  {
    ChildParts(parent, name);
    assert Init(Jail.Split(parent) + [name]) == Jail.Split(parent);
  }

  /** Whatever is new after a rename is at its target or below. */
  lemma RenameTarget(t: Tree, src: bytes, dst: bytes)
    requires RenameAnswer(t, src, dst).Now?
    ensures Target(t, dst).At?
    ensures forall q <- RenameAnswer(t, src, dst).t.nodes :: q !in t.nodes ==> Target(t, dst).path <= q
  {
    var from, to := Locate(t, src).path, Target(t, dst).path;
    forall q <- RenameAnswer(t, src, dst).t.nodes | q !in t.nodes
      ensures to <= q
    {
      MovedAt(t, from, to, q);
    }
  }
}
