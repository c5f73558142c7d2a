/**
 Where the file of an upload comes to stand: the directory its path names, as far as mkdir -p
 has made it, once the canonical-path check has accepted the path.
 */
module Placement {
  import opened Bytes
  import opened Posix
  import opened Tree
  import opened Contained
  import opened Landing
  import opened Mkdirs
  import Jail
  import Publication

  /** The place of a new file in the directory `parent` names: nothing, if it cannot be reached. */
  function Place(t: Tree, parent: bytes, name: bytes): Option<Path> {
    var r := Follow(t, Start(t.cwd, parent), Jail.Split(parent), LINKS);
    if parent == [] || r.Fails? || Searchable(t, r.path).Some? then None else Some(r.path + [name])
  }

  /** After the check has accepted the parent, whatever mkdir -p made of it and whether or not
      links on the path dangle: the temporary file and the published name stand inside. */
  lemma UploadLandsInside(t: Tree, u: Tree, root: bytes, names: seq<bytes>, name: bytes)
    requires root != [] && PlainNames(names)
    requires Accepted(t, root, root + Jail.Path(names))
    requires Grown(t, u, root + Jail.Path(names), |Jail.Split(root)|)
    ensures GrownUnder(t, u, RealPath(t, root).path)
    ensures var at := Place(u, root + Jail.Path(names), name); at.Some? ==> RealPath(t, root).path <= at.value
  {
    var rc, text, base := RealPath(t, root).path, root + Jail.Path(names), |Jail.Split(root)|;
    AcceptedIsInside(t, root, names);
    SplitRooted(root, names);
    StartRooted(t.cwd, root, Jail.Path(names));
    GrownStaysInside(t, u, rc, text, base);
    if Place(u, text, name).Some? {
      InsideEndsInside(u, rc, Start(u.cwd, text), Jail.Split(text), base);
    }
  }

  /** parent_of takes the last name off. */
  lemma ParentOfTarget(parent: bytes, name: bytes)
    requires parent != [] && SLASH !in name && |parent| < Jail.PATHCAP
    ensures Publication.ParentOf(parent + [SLASH] + name) == parent
  {
    LastSlashAt(parent, name);
  }

  lemma LastSlashAt(parent: bytes, name: bytes)
    requires SLASH !in name
    ensures Publication.LastSlash(parent + [SLASH] + name) == Some(|parent|)
  {
    var text := parent + [SLASH] + name;
    var r := Publication.LastSlash(text);
    assert text[|parent|] == SLASH && SLASH in text;
    OnlyOneLast(text, r.value, |parent|);
  }

  lemma OnlyOneLast(text: bytes, i: nat, j: nat)
    requires i < |text| && text[i] == SLASH && SLASH !in text[i + 1..]
    requires j < |text| && text[j] == SLASH && SLASH !in text[j + 1..]
    ensures i == j
  {
    assert forall m :: i < m < |text| ==> text[m] in text[i + 1..];
    assert forall m :: j < m < |text| ==> text[m] in text[j + 1..];
  }

  /** A target that does not exist yet: accepting it is accepting its parent. */
  lemma NewTargetParentAccepted(t: Tree, root: bytes, parent: bytes, name: bytes)
    requires SLASH !in name && Accepted(t, root, parent + [SLASH] + name)
    requires RealPath(t, parent + [SLASH] + name).Fails?
    ensures Accepted(t, root, parent)
  {
    var text, rc := parent + [SLASH] + name, RealPath(t, root).path;
    var n: nat :| Deepest(t, rc, text, n);
    assert text[..|text|] == text;
    CutBelowLast(parent, name, n);
    DeepestOfPrefix(t, rc, text, parent, n);
  }

  lemma CutBelowLast(parent: bytes, name: bytes, n: nat)
    requires SLASH !in name && n < |parent + [SLASH] + name| && Cut(parent + [SLASH] + name, n)
    ensures n <= |parent|
  {
    var text := parent + [SLASH] + name;
    assert forall m :: |parent| < m < |text| ==> text[m] == name[m - |parent| - 1];
  }

  lemma DeepestOfPrefix(t: Tree, rc: Path, text: bytes, parent: bytes, n: nat)
    requires parent < text && text[|parent|] == SLASH && Deepest(t, rc, text, n) && n <= |parent|
    ensures Deepest(t, rc, parent, n)
  {
    assert text[..n] == parent[..n];
    forall m | n < m <= |parent| && Cut(parent, m)
      ensures Missing(RealPath(t, parent[..m]))
    {
      assert Cut(text, m) && text[..m] == parent[..m];
    }
  }

  /** A path that resolves is accepted exactly if it resolves inside. */
  lemma AcceptedResolved(t: Tree, root: bytes, text: bytes)
    requires RealPath(t, root).At? && RealPath(t, text).At? && |text| < Jail.PATHCAP
    ensures Accepted(t, root, text) <==> RealPath(t, root).path <= RealPath(t, text).path
  {
    assert text[..|text|] == text;
    Decided(t, RealPath(t, root).path, text, |text|);
  }

  lemma PrefixOfChild(p: Path, at: Path, name: bytes)
    requires p != at + [name]
    ensures p <= at + [name] <==> p <= at
  {
    if p <= at + [name] {
      assert (at + [name])[..|at|] == at;
      assert |p| == |at| + 1 ==> p == at + [name];
    }
  }

  /** A name in a directory that can be reached stands inside exactly if the check would accept
      the directory; whether there is anything of that name yet or not. */
  lemma PlaceInsideExactly(t: Tree, root: bytes, parent: bytes, name: bytes)
    requires WellFormed(t) && RealPath(t, root).At? && |parent| < Jail.PATHCAP && RealPath(t, parent).At?
    requires Place(t, parent, name).Some? && Place(t, parent, name).value != RealPath(t, root).path
    ensures RealPath(t, root).path <= Place(t, parent, name).value <==> Accepted(t, root, parent)
  {
    RealPathNames(t, root);
    AcceptedResolved(t, root, parent);
    PrefixOfChild(RealPath(t, root).path, RealPath(t, parent).path, name);
  }

  // --- A target that the daemon has checked ------------------------------------------------------------

  /** What stands there is a symbolic link. */
  predicate AtLink(t: Tree, at: Path) {
    at in t.nodes && t.nodes[at].Link?
  }

  /** What walking to the target comes to, by what stands at its place. */
  lemma WalkToTarget(t: Tree, parent: bytes, name: bytes)
    requires IsName(name) && Place(t, parent, name).Some?
    ensures var at := Place(t, parent, name).value;
            var w := Follow(t, Start(t.cwd, parent), Jail.Split(Child(parent, name)), LINKS);
            && (at !in t.nodes ==> w.Fails?)
            && (at in t.nodes && !AtLink(t, at) ==> w.Fails? || w.path == at)
  {
    ChildParts(parent, name);
    var start := Start(t.cwd, parent);
    FollowAppend(t, start, Jail.Split(parent), [name], LINKS);
    var w := Follow(t, start, Jail.Split(parent), LINKS);
    FollowOne(t, w.path, name, w.left);
    if |name| > NAMEMAX {
      assert Step(t, w.path, name, w.left) == Stuck(ENAMETOOLONG);
    }
  }

  /** Where an accepted target stands: inside, if and only if it is no symbolic link, or its
      directory would be accepted too. (The directory's own canonical path must not be so long
      that realpath gives up on it.) */
  lemma TargetInsideExactly(t: Tree, root: bytes, parent: bytes, name: bytes)
    requires WellFormed(t) && IsName(name) && parent != [] && Accepted(t, root, Child(parent, name))
    requires Place(t, parent, name).Some?
    requires AtLink(t, Place(t, parent, name).value) ==> RealPath(t, parent).At?
    ensures var at := Place(t, parent, name).value;
            RealPath(t, root).path <= at <==> !AtLink(t, at) || Accepted(t, root, parent)
  {
    var at, rc, text := Place(t, parent, name).value, RealPath(t, root).path, Child(parent, name);
    WalkToTarget(t, parent, name);
    assert Start(t.cwd, text) == Start(t.cwd, parent);
    if RealPath(t, text).Fails? {
      NewTargetParentAccepted(t, root, parent, name);
      AcceptedIsNotTooLong(t, root, parent);
      AcceptedResolved(t, root, parent);
      PrefixOne(rc, RealPath(t, parent).path, name);
    } else if AtLink(t, at) {
      RootIsNoLink(t, root);
      PlaceInsideExactly(t, root, parent, name);
    } else {
      AcceptedResolved(t, root, text);
    }
  }

  lemma AcceptedIsNotTooLong(t: Tree, root: bytes, text: bytes)
    requires Accepted(t, root, text) && text != [] && Follow(t, Start(t.cwd, text), Jail.Split(text), LINKS).At?
    ensures RealPath(t, text).At?
  {
    assert text[..|text|] == text;
    if RealPath(t, text).Fails? {
      Decided(t, RealPath(t, root).path, text, |text|);
    }
  }

  lemma RootIsNoLink(t: Tree, root: bytes)
    requires WellFormed(t) && RealPath(t, root).At?
    ensures !AtLink(t, RealPath(t, root).path)
  {
    FollowEnds(t, Start(t.cwd, root), Jail.Split(root), LINKS);
  }

  /** mkdir -p has nothing to do where the directory can be reached already. */
  lemma NothingToMake(t: Tree, u: Tree, text: bytes, base: nat)
    requires TextInside(t, [], text, base) && Grown(t, u, text, base)
    requires Follow(t, Start(t.cwd, text), Jail.Split(text), LINKS).At?
    ensures u == t
  {
    var start, parts := Start(t.cwd, text), Jail.Split(text);
    var k0: nat, k: nat :| base <= k0 && BuiltTo(t, u, start, parts, k0, k);
    EndsAtTheEnd(t, start, parts, k0);
    assert k == k0 && parts[k0..k] == [];
  }

  lemma EndsAtTheEnd(t: Tree, start: Path, parts: seq<bytes>, k: nat)
    requires EndsInside(t, [], start, parts, k) && Follow(t, start, parts, LINKS).At?
    ensures k == |parts|
  {
    assert parts[..|parts|] == parts;
    if k < |parts| {
      OneMore(t, start, parts, k, k + 1);
      ReachFailsOn(t, start, parts, k + 1, |parts|);
    }
  }

  /** A PUT that replaces what is there, after the daemon's check of its target: mkdir -p makes
      nothing, and the name it rebinds stands inside exactly if it is not a symbolic link, or
      the check would accept the directory too; the temporary file exactly in the latter case. */
  lemma ReplacingUploadExactly(t: Tree, u: Tree, root: bytes, names: seq<bytes>, name: bytes, temp: bytes)
    requires WellFormed(t) && root != [] && PlainNames(names) && IsName(name)
    requires var parent := root + Jail.Path(names);
             && Accepted(t, root, Child(parent, name)) && RealPath(t, parent).At?
             && Place(t, parent, name).Some? && Place(t, parent, name).value in t.nodes
             && Grown(t, u, parent, |Jail.Split(root)|)
             && Place(t, parent, temp) != Some(RealPath(t, root).path)
    ensures var parent, rc := root + Jail.Path(names), RealPath(t, root).path;
            && u == t
            && (rc <= Place(u, parent, name).value <==>
                  !AtLink(t, Place(t, parent, name).value) || Accepted(t, root, parent))
            && (rc <= Place(u, parent, temp).value <==> Accepted(t, root, parent))
  {
    var parent := root + Jail.Path(names);
    RootedInside(t, root, names);
    NothingToMake(t, u, parent, |Jail.Split(root)|);
    TargetInsideExactly(t, root, parent, name);
    PlaceInsideExactly(t, root, parent, temp);
  }

  // --- From the URL -----------------------------------------------------------------------------------

  lemma PathLast(names: seq<bytes>)
    requires names != []
    ensures Jail.Path(names) == Jail.Path(Init(names)) + [SLASH] + Last(names)
  {
    PathAppend(Init(names), [Last(names)]);
    assert Init(names) + [Last(names)] == names;
    assert Jail.Path([Last(names)]) == [SLASH] + Last(names) + [] == [SLASH] + Last(names);
  }

  lemma Regroup(root: bytes, path: bytes, name: bytes)
    ensures root + (path + [SLASH] + name) == (root + path) + [SLASH] + name
  {}

  /** A resolved path other than the root is a parent made of names, and one more name. */
  lemma ResolvedParent(root: bytes, url: bytes, path: bytes) returns (above: seq<bytes>, last: bytes)
    requires Jail.Resolve(root, url, Jail.PATHCAP).Ok? && path == Jail.Resolve(root, url, Jail.PATHCAP).value.path
    requires path != root
    ensures PlainNames(above) && IsName(last) && path == (root + Jail.Path(above)) + [SLASH] + last
  {
    var names := Jail.ResolvedStaysUnder(root, url, Jail.PATHCAP);
    assert names != [] by {
      assert names == [] ==> Jail.Path(names) == [] && root + [] == root;
    }
    forall n <- names
      ensures IsName(n)
    {
      assert Jail.PlainName(n);
    }
    above, last := Init(names), Last(names);
    PathLast(names);
    Regroup(root, Jail.Path(above), last);
  }

  /** The whole way of a create-only or first upload: a URL path is resolved, the check accepts
      the result, nothing is there yet, mkdir -p runs on its parent. Then everything that has
      been made, and the new file whatever it is called, stands at or under the root. */
  lemma NewUploadStaysInside(t: Tree, u: Tree, root: bytes, url: bytes, path: bytes, name: bytes)
    requires root != [] && path != root
    requires Jail.Resolve(root, url, Jail.PATHCAP).Ok? && path == Jail.Resolve(root, url, Jail.PATHCAP).value.path
    requires Accepted(t, root, path) && RealPath(t, path).Fails?
    requires Grown(t, u, Publication.ParentOf(path), |Jail.Split(root)|)
    ensures GrownUnder(t, u, RealPath(t, root).path)
    ensures var at := Place(u, Publication.ParentOf(path), name); at.Some? ==> RealPath(t, root).path <= at.value
  {
    var above, last := ResolvedParent(root, url, path);
    FromParent(t, u, root, root + Jail.Path(above), above, last, path, name);
  }

  lemma FromParent(
      t: Tree, u: Tree, root: bytes, parent: bytes, above: seq<bytes>, last: bytes, path: bytes, name: bytes)
    requires root != [] && parent == root + Jail.Path(above) && PlainNames(above) && SLASH !in last
    requires path == parent + [SLASH] + last && Accepted(t, root, path) && RealPath(t, path).Fails?
    requires Grown(t, u, Publication.ParentOf(path), |Jail.Split(root)|)
    ensures GrownUnder(t, u, RealPath(t, root).path)
    ensures var at := Place(u, Publication.ParentOf(path), name); at.Some? ==> RealPath(t, root).path <= at.value
  {
    ParentOfTarget(parent, last);
    NewTargetParentAccepted(t, root, parent, last);
    UploadLandsInside(t, u, root, above, name);
  }
}
