/**
 DELETE and MOVE after the daemon's own check of the path (handle_request and dispatch_fs in
 src/core/unasd.c): what they touch stands at or under the root, and exactly when.
 */
module Checked {
  import opened Bytes
  import opened Posix
  import opened Tree
  import opened Contained
  import opened Landing
  import opened Mkdirs
  import opened Placement
  import opened RmTree
  import opened Moves
  import Jail

  /** What lstat finds under a name stands at its place. */
  lemma LocatedAtPlace(t: Tree, parent: bytes, name: bytes)
    requires parent != [] && IsName(name) && Locate(t, Child(parent, name)).At?
    ensures Locate(t, Child(parent, name)).path in t.nodes
    ensures Place(t, parent, name) == Some(Locate(t, Child(parent, name)).path)
  {
    ChildParts(parent, name);
    assert Init(Jail.Split(parent) + [name]) == Jail.Split(parent);
  }

  /** A DELETE of a path that the check has accepted removes nothing outside the root, if and
      only if what it removes is no symbolic link, or the check would accept its directory too. */
  lemma DeleteInsideExactly(t: Tree, root: bytes, parent: bytes, name: bytes)
    requires WellFormed(t) && parent != [] && IsName(name) && Accepted(t, root, Child(parent, name))
    requires Locate(t, Child(parent, name)).At?
    requires AtLink(t, Locate(t, Child(parent, name)).path) ==> RealPath(t, parent).At?
    ensures var at, rc := Locate(t, Child(parent, name)).path, RealPath(t, root).path;
            (forall p <- t.nodes :: p !in Without(t, at).nodes ==> rc <= p)
            <==> !AtLink(t, at) || Accepted(t, root, parent)
  {
    var at, rc := Locate(t, Child(parent, name)).path, RealPath(t, root).path;
    LocatedAtPlace(t, parent, name);
    TargetInsideExactly(t, root, parent, name);
    WithoutInside(t, at, rc);
  }

  lemma WithoutInside(t: Tree, at: Path, rc: Path)
    requires at in t.nodes
    ensures (forall p <- t.nodes :: p !in Without(t, at).nodes ==> rc <= p) <==> rc <= at
  {
    assert at !in Without(t, at).nodes;
    if rc <= at {
      forall p <- t.nodes | p !in Without(t, at).nodes
        ensures rc <= p
      {
        PrefixTwice(rc, at, p);
      }
    }
  }

  /** The share's root itself, unless it was given as a symbolic link, is its own place. */
  lemma DeleteOfRoot(t: Tree, root: bytes)
    requires RealPath(t, root).At? && Locate(t, root).At? && !AtLink(t, Locate(t, root).path)
    ensures Locate(t, root).path == RealPath(t, root).path
  {
    LocateIsFollow(t, root);
  }

  /** A DELETE that fails half way, too, has touched nothing outside then. */
  lemma DeleteStaysInside(t: Tree, u: Tree, root: bytes, parent: bytes, name: bytes)
    requires WellFormed(t) && parent != [] && IsName(name) && Accepted(t, root, Child(parent, name))
    requires Locate(t, Child(parent, name)).At? && RemovedWithin(t, u, Locate(t, Child(parent, name)).path)
    requires AtLink(t, Locate(t, Child(parent, name)).path) ==> Accepted(t, root, parent)
    ensures forall p <- t.nodes :: p !in u.nodes ==> RealPath(t, root).path <= p
  {
    var at, rc := Locate(t, Child(parent, name)).path, RealPath(t, root).path;
    LocatedAtPlace(t, parent, name);
    if AtLink(t, at) {
      AcceptedIsNotTooLong(t, root, parent);
    }
    TargetInsideExactly(t, root, parent, name);
    forall p <- t.nodes | p !in u.nodes
      ensures rc <= p
    {
      PrefixTwice(rc, at, p);
    }
  }

  /** A MOVE to a destination that the check has accepted: mkdir -p makes directories inside only,
      and what is moved comes to stand inside if and only if it replaces no symbolic link, or the
      check would accept the destination's directory too. */
  lemma MoveInsideExactly(
      t: Tree, mid: Tree, root: bytes, names: seq<bytes>, parent: bytes, name: bytes, src: bytes)
    requires WellFormed(t) && root != [] && PlainNames(names) && IsName(name) && parent == root + Jail.Path(names)
    requires Accepted(t, root, Child(parent, name)) && Grown(t, mid, parent, |Jail.Split(root)|)
    requires RenameAnswer(mid, src, Child(parent, name)).Now?
    requires Place(t, parent, name).Some? && AtLink(t, Place(t, parent, name).value) ==> RealPath(t, parent).At?
    ensures GrownUnder(t, mid, RealPath(t, root).path)
    ensures Target(mid, Child(parent, name)).At?
    ensures var to := Target(mid, Child(parent, name)).path;
            RealPath(t, root).path <= to <==> !AtLink(mid, to) || Accepted(t, root, parent)
  {
    var dst := Child(parent, name);
    RenameTarget(mid, src, dst);
    TargetIsPlace(mid, parent, name);
    if Follow(t, Start(t.cwd, parent), Jail.Split(parent), LINKS).At? {
      RootedInside(t, root, names);
      NothingToMake(t, mid, parent, |Jail.Split(root)|);
      TargetInsideExactly(t, root, parent, name);
    } else {
      ChildParts(parent, name);
      FollowAppend(t, Start(t.cwd, parent), Jail.Split(parent), [name], LINKS);
      NewTargetParentAccepted(t, root, parent, name);
      UploadLandsInside(t, mid, root, names, name);
    }
  }

  /** Then everything that is new anywhere in the tree stands inside. */
  lemma MovedStaysInside(t: Tree, mid: Tree, root: bytes, src: bytes, dst: bytes)
    requires RenameAnswer(mid, src, dst).Now? && Target(mid, dst).At? && RealPath(t, root).At?
    requires RealPath(t, root).path <= Target(mid, dst).path
    ensures forall q <- RenameAnswer(mid, src, dst).t.nodes :: q !in mid.nodes ==> RealPath(t, root).path <= q
  {
    RenameTarget(mid, src, dst);
    forall q <- RenameAnswer(mid, src, dst).t.nodes | q !in mid.nodes
      ensures RealPath(t, root).path <= q
    {
      PrefixTwice(RealPath(t, root).path, Target(mid, dst).path, q);
    }
  }

  /** The other end of a MOVE, whose source the check has accepted as well: nothing is taken from
      outside the root, if and only if what is moved is no symbolic link, or the check would
      accept the source's directory too. */
  lemma MoveTakesInsideExactly(t: Tree, mid: Tree, root: bytes, parent: bytes, name: bytes, dst: bytes)
    requires WellFormed(t) && parent != [] && IsName(name) && Accepted(t, root, Child(parent, name))
    requires Locate(t, Child(parent, name)).At?
    requires AtLink(t, Locate(t, Child(parent, name)).path) ==> RealPath(t, parent).At?
    requires WellFormed(mid) && Within(t, mid) && RenameAnswer(mid, Child(parent, name), dst).Now?
    requires Target(mid, dst).At? && Target(mid, dst).path != Locate(t, Child(parent, name)).path
    ensures var from, rc := Locate(t, Child(parent, name)).path, RealPath(t, root).path;
            (forall p <- t.nodes :: p !in RenameAnswer(mid, Child(parent, name), dst).t.nodes ==> rc <= p)
            <==> !AtLink(t, from) || Accepted(t, root, parent)
  {
    var src := Child(parent, name);
    var from, to, rc := Locate(t, src).path, Target(mid, dst).path, RealPath(t, root).path;
    LocatedAtPlace(t, parent, name);
    TargetInsideExactly(t, root, parent, name);
    LocateWithin(mid, t, src);
    RenameIsMove(mid, src, dst);
    TakenBelow(t, mid, from, to, rc);
  }

  /** A move takes its source away, and nothing that is not below. */
  lemma TakenBelow(t: Tree, mid: Tree, from: Path, to: Path, rc: Path)
    requires WellFormed(mid) && Within(t, mid) && CanMove(mid, from, to) && from in t.nodes
    ensures (forall p <- t.nodes :: p !in Moves.Moved(mid, from, to).nodes ==> rc <= p) <==> rc <= from
  {
    SourceLeaves(mid, from, to);
    forall p <- t.nodes | p !in Moves.Moved(mid, from, to).nodes && rc <= from
      ensures rc <= p
    {
      StillThere(mid, from, to, if p == to then from else p);
      if p != to {
        assert from <= p;
        PrefixTwice(rc, from, p);
      }
    }
  }

  lemma SourceLeaves(t: Tree, from: Path, to: Path)
    requires WellFormed(t) && CanMove(t, from, to)
    ensures from !in Moves.Moved(t, from, to).nodes
  {
    MovedAt(t, from, to, from);
    if to <= from {
      NothingBelowTarget(t, from, to, from);
    }
  }
}
