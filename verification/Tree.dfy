/**
 A directory tree with symbolic links and directories that may not be searched, and how the
 operating system walks a path through it: realpath, the lookup of a last component, mkdir.
 */
module Tree {
  import opened Bytes
  import opened Posix
  import Jail

  /** The names on the way down from "/": no links, no dots. */
  type Path = seq<bytes>

  datatype Node = Dir | File | Link(target: bytes)

  /** `walls` are the directories the daemon may not search; `cwd` is where it was started, or
      GONE when that directory has been removed. */
  datatype Tree = Tree(nodes: map<Path, Node>, walls: set<Path>, cwd: Path)

  /** How many symbolic links one walk may pass. */
  const LINKS: nat := 40

  /** How long a name may be. */
  const NAMEMAX: nat := 255

  /** No directory's path. */
  const GONE: Path := [[]]

  predicate IsName(n: bytes) {
    n != [] && n != [DOT] && n != [DOT, DOT] && SLASH !in n && NUL !in n
  }

  function Last<T>(s: seq<T>): T
    requires s != []
  {
    s[|s| - 1]
  }

  function Init<T>(s: seq<T>): seq<T> {
    if s == [] then [] else s[..|s| - 1]
  }

  /** Every node but "/" has a proper name and stands in a directory. */
  ghost predicate WellFormed(t: Tree) {
    && IsDir(t, []) && (t.cwd == GONE || IsDir(t, t.cwd))
    && (forall p <- t.nodes :: p != [] ==>
          IsName(Last(p)) && |Last(p)| <= NAMEMAX && Init(p) in t.nodes && t.nodes[Init(p)].Dir?)
  }

  predicate IsDir(t: Tree, p: Path) {
    p in t.nodes && t.nodes[p].Dir?
  }

  /** A part of a path that leads nowhere else. */
  predicate Stays(part: bytes) {
    part == [] || part == [DOT]
  }

  function Start(at: Path, text: bytes): Path {
    if text != [] && text[0] == SLASH then [] else at
  }

  /** Where a walk ends, with the number of links it may still pass; or why it does not. */
  datatype Walk = At(path: Path, left: nat) | Fails(e: Errno)

  /** Whether names may be looked up in `at`. */
  function Searchable(t: Tree, at: Path): Option<Errno> {
    if at !in t.nodes then Some(ENOENT)
    else if !t.nodes[at].Dir? then Some(ENOTDIR)
    else if at in t.walls then Some(EACCES)
    else None
  }

  /** Where one part leads, with what a symbolic link there puts before the parts that follow. */
  datatype Next = Go(at: Path, more: seq<bytes>, left: nat) | Stuck(e: Errno)

  function Step(t: Tree, at: Path, part: bytes, links: nat): (n: Next)
    ensures n.Go? ==> n.left < links || (n.left == links && n.more == [])
  {
    if Searchable(t, at).Some? then Stuck(Searchable(t, at).value)
    else if Stays(part) then Go(at, [], links)
    else if part == [DOT, DOT] then Go(Init(at), [], links)
    else if |part| > NAMEMAX then Stuck(ENAMETOOLONG)
    else if at + [part] !in t.nodes then Stuck(ENOENT)
    else
      match t.nodes[at + [part]]
      case Link(target) => if links == 0 then Stuck(ELOOP) else Go(Start(at, target), Jail.Split(target), links - 1)
      case _ => Go(at + [part], [], links)
  }

  /** Walking `parts` from `at`, through every symbolic link. */
  function Follow(t: Tree, at: Path, parts: seq<bytes>, links: nat): Walk
    decreases links, |parts|
  {
    if parts == [] then At(at, links)
    else
      match Step(t, at, parts[0], links)
      case Stuck(e) => Fails(e)
      case Go(next, more, left) => Follow(t, next, more + parts[1..], left)
  }

  function Text(p: Path): bytes {
    if p == [] then [SLASH] else Jail.Path(p)
  }

  /** realpath into a buffer of PATHCAP bytes, before the answer is written out as text. */
  function RealPath(t: Tree, text: bytes): Walk {
    if text == [] then Fails(ENOENT)
    else
      var r := Follow(t, Start(t.cwd, text), Jail.Split(text), LINKS);
      if r.At? && |Text(r.path)| >= Jail.PATHCAP then Fails(ENAMETOOLONG) else r
  }

  /** The directory in which the last of `parts` is looked up. */
  function DirOf(t: Tree, start: Path, parts: seq<bytes>): Walk {
    var r := Follow(t, start, Init(parts), LINKS);
    if r.At? && Searchable(t, r.path).Some? then Fails(Searchable(t, r.path).value) else r
  }

  /** mkdir: the path of the new directory, or the refusal. */
  datatype Made = New(path: Path) | Refused(e: Errno)

  function MkdirParts(t: Tree, start: Path, parts: seq<bytes>): Made
    requires parts != []
    decreases |parts|
  {
    if Last(parts) == [] && |parts| > 1 then MkdirParts(t, start, Init(parts))
    else
      var dir := DirOf(t, start, parts);
      if dir.Fails? then Refused(dir.e)
      else if Stays(Last(parts)) || Last(parts) == [DOT, DOT] then Refused(EEXIST)
      else if |Last(parts)| > NAMEMAX then Refused(ENAMETOOLONG)
      else if dir.path + [Last(parts)] in t.nodes then Refused(EEXIST)
      else New(dir.path + [Last(parts)])
  }

  function MkdirAnswer(t: Tree, text: bytes): Made {
    if text == [] then Refused(ENOENT) else MkdirParts(t, Start(t.cwd, text), Jail.Split(text))
  }

  // --- Walks ---------------------------------------------------------------------------------------

  /** A walk goes from left to right. */
  lemma {:induction false} FollowAppend(t: Tree, at: Path, a: seq<bytes>, b: seq<bytes>, links: nat)
    ensures var first := Follow(t, at, a, links);
            Follow(t, at, a + b, links) == if first.Fails? then first else Follow(t, first.path, b, first.left)
    decreases links, |a|
  {
    if a == [] {
      assert a + b == b;
    } else {
      assert (a + b)[0] == a[0] && (a + b)[1..] == a[1..] + b;
      match Step(t, at, a[0], links)
      case Stuck(_) =>
      case Go(next, more, left) =>
        assert more + a[1..] + b == more + (a[1..] + b);
        FollowAppend(t, next, more + a[1..], b, left);
    }
  }

  /** Walking a name that is there, and one that is not. */
  lemma FollowOne(t: Tree, at: Path, part: bytes, links: nat)
    requires IsName(part)
    ensures at + [part] !in t.nodes ==> Follow(t, at, [part], links).Fails?
    ensures Searchable(t, at).None? && |part| <= NAMEMAX && at + [part] !in t.nodes ==>
              Follow(t, at, [part], links) == Fails(ENOENT)
    ensures Searchable(t, at).None? && |part| <= NAMEMAX && at + [part] in t.nodes && !t.nodes[at + [part]].Link? ==>
              Follow(t, at, [part], links) == At(at + [part], links)
  {
    assert [] + [part][1..] == [];
  }

  /** `t` is what is left of `u` after some nodes have been removed. */
  ghost predicate Within(t: Tree, u: Tree) {
    && t.walls == u.walls && (t.cwd == u.cwd || (t.cwd == GONE && GONE !in t.nodes))
    && forall p <- t.nodes :: p in u.nodes && t.nodes[p] == u.nodes[p]
  }

  /** With fewer nodes about a walk ends at the same place or not at all. */
  lemma {:induction false} FollowWithin(t: Tree, u: Tree, at: Path, parts: seq<bytes>, links: nat)
    requires Within(t, u)
    ensures Follow(t, at, parts, links).At? ==> Follow(u, at, parts, links) == Follow(t, at, parts, links)
    decreases links, |parts|
  {
    if parts != [] {
      match Step(t, at, parts[0], links)
      case Stuck(_) =>
      case Go(next, more, left) =>
        assert Step(u, at, parts[0], links) == Go(next, more, left);
        FollowWithin(t, u, next, more + parts[1..], left);
    }
  }

  /** What a walk ends at is there, and is no link: a canonical path. */
  lemma {:induction false} FollowEnds(t: Tree, at: Path, parts: seq<bytes>, links: nat)
    requires WellFormed(t) && Follow(t, at, parts, links).At?
    requires at in t.nodes ==> !t.nodes[at].Link?
    ensures var p := Follow(t, at, parts, links).path;
            (p in t.nodes ==> !t.nodes[p].Link?) && (parts != [] || at in t.nodes ==> p in t.nodes)
    decreases links, |parts|
  {
    if parts != [] {
      var n := Step(t, at, parts[0], links);
      assert n.at in t.nodes ==> !t.nodes[n.at].Link?;
      assert n.more == [] ==> n.at in t.nodes;
      FollowEnds(t, n.at, n.more + parts[1..], n.left);
    }
  }

  /** No walk fails because something exists. */
  lemma {:induction false} WalkErrors(t: Tree, at: Path, parts: seq<bytes>, links: nat)
    ensures Follow(t, at, parts, links) != Fails(EEXIST)
    decreases links, |parts|
  {
    if parts != [] && Step(t, at, parts[0], links).Go? {
      var n := Step(t, at, parts[0], links);
      WalkErrors(t, n.at, n.more + parts[1..], n.left);
    }
  }

  // --- Shape ---------------------------------------------------------------------------------------

  lemma {:induction false} NamesOnPath(t: Tree, p: Path)
    requires WellFormed(t) && p in t.nodes
    ensures forall n <- p :: IsName(n)
    decreases |p|
  {
    if p != [] {
      NamesOnPath(t, Init(p));
      assert p == Init(p) + [Last(p)];
    }
  }

  /** The directories above a node are there. */
  lemma {:induction false} Above(t: Tree, p: Path, k: nat)
    requires WellFormed(t) && p in t.nodes && k < |p|
    ensures IsDir(t, p[..k])
    decreases |p|
  {
    if k < |p| - 1 {
      Above(t, Init(p), k);
      assert Init(p)[..k] == p[..k];
    }
  }

  function Plus(t: Tree, p: Path, node: Node): Tree {
    t.(nodes := t.nodes[p := node])
  }

  function Minus(t: Tree, p: Path): Tree {
    t.(nodes := t.nodes - {p}, cwd := if p == t.cwd then GONE else t.cwd)
  }

  predicate Childless(t: Tree, p: Path) {
    forall q <- t.nodes :: q != [] ==> Init(q) != p
  }

  lemma RemoveWellFormed(t: Tree, p: Path)
    requires WellFormed(t) && p != [] && Childless(t, p)
    ensures WellFormed(Minus(t, p)) && Within(Minus(t, p), t)
  {}

  /** On the way down to a node below `p` there is a child of `p`. */
  lemma ChildOnTheWay(t: Tree, p: Path, q: Path, k: nat) returns (child: Path)
    requires WellFormed(t) && q in t.nodes && p <= q && p != q && k == |p| + 1
    ensures child in t.nodes && child != [] && Init(child) == p
  {
    child := q[..k];
    if k < |q| {
      Above(t, q, k);
    } else {
      assert child == q;
    }
  }

  /** Without children there is nothing below at all. */
  lemma ChildlessBelow(t: Tree, p: Path, q: Path)
    requires WellFormed(t) && Childless(t, p) && q in t.nodes && p <= q
    ensures q == p
  {
    if q != p {
      var _ := ChildOnTheWay(t, p, q, |p| + 1);
    }
  }

  /** mkdir never puts anything where something is. */
  lemma {:induction false} MkdirIsNew(t: Tree, start: Path, parts: seq<bytes>)
    requires WellFormed(t) && parts != [] && MkdirParts(t, start, parts).New?
    requires forall p <- parts :: NUL !in p && SLASH !in p
    ensures var p := MkdirParts(t, start, parts).path;
            p != [] && IsName(Last(p)) && |Last(p)| <= NAMEMAX && IsDir(t, Init(p)) && p !in t.nodes
    decreases |parts|
  {
    if Last(parts) == [] && |parts| > 1 {
      MkdirIsNew(t, start, Init(parts));
    } else {
      var dir := DirOf(t, start, parts);
      assert Init(dir.path + [Last(parts)]) == dir.path;
    }
  }

  /** It makes only what the walk to it lacked. */
  lemma {:induction false} MkdirMeansMissing(t: Tree, start: Path, parts: seq<bytes>)
    requires parts != [] && MkdirParts(t, start, parts).New?
    ensures Follow(t, start, parts, LINKS).Fails?
    decreases |parts|
  {
    assert Init(parts) + [Last(parts)] == parts;
    FollowAppend(t, start, Init(parts), [Last(parts)], LINKS);
    if Last(parts) == [] && |parts| > 1 {
      MkdirMeansMissing(t, start, Init(parts));
    }
  }

  lemma {:induction false} SplitClean(text: bytes)
    requires NUL !in text
    ensures forall p <- Jail.Split(text) :: NUL !in p && SLASH !in p
    decreases text
  {
    Jail.SplitPieces(text);
    if text != [] {
      SplitClean(text[1..]);
      var rest := Jail.Split(text[1..]);
      assert rest[0] in rest;
    }
  }

  // --- The last component -------------------------------------------------------------------------

  /** Where lstat, unlink and rmdir find the last component of `text`, which they do not follow
      if it is a name. */
  function Locate(t: Tree, text: bytes): Walk {
    var parts := Jail.Split(text);
    var dir := DirOf(t, Start(t.cwd, text), parts);
    if text == [] then Fails(ENOENT)
    else if !IsName(Last(parts)) then Follow(t, Start(t.cwd, text), parts, LINKS)
    else if dir.Fails? then dir
    else if |Last(parts)| > NAMEMAX then Fails(ENAMETOOLONG)
    else if dir.path + [Last(parts)] in t.nodes then At(dir.path + [Last(parts)], dir.left)
    else Fails(ENOENT)
  }

  /** A path that ends in a name. */
  ghost predicate EndsInName(text: bytes) {
    NUL !in text && IsName(Last(Jail.Split(text)))
  }

  /** What is located is there; a path that does not end in a name leads to a directory. */
  lemma LocateEnds(t: Tree, text: bytes)
    requires WellFormed(t) && NUL !in text && Locate(t, text).At?
    ensures Locate(t, text).path in t.nodes
    ensures !EndsInName(text) ==> IsDir(t, Locate(t, text).path)
  {
    var start, parts := Start(t.cwd, text), Jail.Split(text);
    if !EndsInName(text) {
      LastIsNameOrDots(text);
      assert Init(parts) + [Last(parts)] == parts;
      FollowToDots(t, start, Init(parts), Last(parts));
    }
  }

  lemma LastIsNameOrDots(text: bytes)
    requires NUL !in text
    ensures var last := Last(Jail.Split(text)); IsName(last) || Stays(last) || last == [DOT, DOT]
  {
    SplitClean(text);
    assert Last(Jail.Split(text)) in Jail.Split(text);
  }

  lemma FollowToDots(t: Tree, start: Path, init: seq<bytes>, part: bytes)
    requires WellFormed(t) && (Stays(part) || part == [DOT, DOT]) && Follow(t, start, init + [part], LINKS).At?
    ensures IsDir(t, Follow(t, start, init + [part], LINKS).path)
  {
    FollowAppend(t, start, init, [part], LINKS);
    var w := Follow(t, start, init, LINKS);
    DotsLeadToDir(t, w.path, part, w.left);
  }

  lemma DotsLeadToDir(t: Tree, at: Path, part: bytes, links: nat)
    requires WellFormed(t) && (Stays(part) || part == [DOT, DOT]) && Follow(t, at, [part], links).At?
    ensures IsDir(t, Follow(t, at, [part], links).path)
  {
    assert [] + [part][1..] == [];
  }

  /** With fewer nodes about the same is found, or nothing. */
  lemma LocateWithin(t: Tree, u: Tree, text: bytes)
    requires Within(u, t) && Locate(u, text).At?
    ensures Locate(t, text) == Locate(u, text)
  {
    var parts := Jail.Split(text);
    if Start(u.cwd, text) == Start(t.cwd, text) {
      FollowWithin(u, t, Start(t.cwd, text), Init(parts), LINKS);
      FollowWithin(u, t, Start(t.cwd, text), parts, LINKS);
    } else {
      FromGone(u, parts);
    }
  }

  /** Without a working directory no relative path leads anywhere. */
  lemma FromGone(t: Tree, parts: seq<bytes>)
    requires GONE !in t.nodes && parts != []
    ensures Follow(t, GONE, parts, LINKS).Fails? && DirOf(t, GONE, parts).Fails?
  {}

  /** The last component was looked up in a directory: so a walk gets to it, if it is no link. */
  lemma LocateIsFollow(t: Tree, text: bytes)
    requires Locate(t, text).At? && (Locate(t, text).path in t.nodes ==> !t.nodes[Locate(t, text).path].Link?)
    ensures Follow(t, Start(t.cwd, text), Jail.Split(text), LINKS) == Locate(t, text)
  {
    var start, parts := Start(t.cwd, text), Jail.Split(text);
    if !IsName(Last(parts)) {
      return;
    }
    FollowAppend(t, start, Init(parts), [Last(parts)], LINKS);
    assert Init(parts) + [Last(parts)] == parts;
    var dir := DirOf(t, start, parts);
    FollowOne(t, dir.path, Last(parts), dir.left);
  }
}
