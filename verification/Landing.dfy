/**
 A path as a walk: the parts of the root's text and then plain names, how far they lead, and
 what one mkdir does to that. What the canonical-path check accepts leads inside.
 */
module Landing {
  import opened Bytes
  import opened Posix
  import opened Tree
  import opened Contained
  import Jail

  /** The parts of the text of `root` and then plain names, as fsapi_resolve puts them together. */
  function Parts(root: bytes, names: seq<bytes>): seq<bytes> {
    Jail.Split(root) + names
  }

  ghost predicate PlainNames(names: seq<bytes>) {
    forall n <- names :: IsName(n)
  }

  /** Where the walk through the first `k` parts ends. */
  function Reach(t: Tree, start: Path, parts: seq<bytes>, k: nat): Walk
    requires k <= |parts|
  {
    Follow(t, start, parts[..k], LINKS)
  }

  /** The first `k` parts lead to `rc` or below, and the next one, if any, leads nowhere. */
  ghost predicate EndsInside(t: Tree, rc: Path, start: Path, parts: seq<bytes>, k: nat) {
    && k <= |parts| && Reach(t, start, parts, k).At?
    && var w := Reach(t, start, parts, k);
       rc <= w.path && (k < |parts| ==> Follow(t, w.path, [parts[k]], w.left).Fails?)
  }

  /** The same for some prefix that is at least the root, and only names come after it. */
  ghost predicate Inside(t: Tree, rc: Path, start: Path, parts: seq<bytes>, base: nat) {
    && 0 < base <= |parts| && PlainNames(parts[base..])
    && exists k: nat :: base <= k && EndsInside(t, rc, start, parts, k)
  }

  lemma OneMore(t: Tree, start: Path, parts: seq<bytes>, k: nat, j: nat)
    requires k < |parts| && j == k + 1 && Reach(t, start, parts, k).At?
    ensures var w := Reach(t, start, parts, k); Reach(t, start, parts, j) == Follow(t, w.path, [parts[k]], w.left)
  {
    FollowAppend(t, start, parts[..k], [parts[k]], LINKS);
    assert parts[..k] + [parts[k]] == parts[..j];
  }

  lemma SplitCut(text: bytes, n: nat)
    requires n <= |text| && Cut(text, n)
    ensures Jail.Split(text[..n]) <= Jail.Split(text)
  {
    var a, b := text[..n], text[n..];
    assert a + b == text;
    assert b == [] || b[0] == text[n] == SLASH;
    SplitJoin(a, b);
    assert Jail.Split(text) == Jail.Split(a) + Jail.Split(b)[1..];
  }

  lemma SplitRooted(root: bytes, names: seq<bytes>)
    requires PlainNames(names)
    ensures Jail.Split(root + Jail.Path(names)) == Parts(root, names)
  {
    assert forall p <- names :: IsName(p);
    SplitJoin(root, Jail.Path(names));
    Jail.SplitPath(names);
    assert ([[]] + names)[1..] == names;
  }

  /** A cut through a path made of names falls between two of them. */
  lemma {:induction false} CutNames(names: seq<bytes>, n: nat) returns (k: nat)
    requires PlainNames(names) && n <= |Jail.Path(names)|
    requires n == |Jail.Path(names)| || Jail.Path(names)[n] == SLASH
    ensures k <= |names| && Jail.Path(names)[..n] == Jail.Path(names[..k])
    decreases |names|
  {
    if n == 0 {
      k := 0;
    } else {
      var name, rest := names[0], names[1..];
      assert IsName(name);
      var whole := [SLASH] + name + Jail.Path(rest);
      assert Jail.Path(names) == whole;
      assert n >= 1 + |name| by {
        assert forall j :: 1 <= j < 1 + |name| ==> whole[j] == name[j - 1] && name[j - 1] in name;
      }
      assert PlainNames(rest);
      var m := n - 1 - |name|;
      assert n < |whole| ==> whole[n] == Jail.Path(rest)[m];
      k := CutNames(rest, m);
      assert names[..k + 1][1..] == rest[..k] && names[..k + 1][0] == name;
      assert whole[..n] == [SLASH] + name + Jail.Path(rest)[..m];
      k := k + 1;
    }
  }

  lemma StartRooted(cwd: Path, root: bytes, more: bytes)
    requires root != []
    ensures Start(cwd, root + more) == Start(cwd, root)
  {}

  /** What the walk through the names says of the text, unless the text gets too long. */
  lemma ReachText(t: Tree, root: bytes, names: seq<bytes>, k: nat, n: nat)
    requires root != [] && PlainNames(names) && k <= |names| && n == |Jail.Split(root)| + k
    ensures var r, w := RealPath(t, root + Jail.Path(names[..k])), Reach(t, Start(t.cwd, root), Parts(root, names), n);
            (r.At? || Missing(r) ==> w == r) && (w.Fails? ==> r == w)
  {
    var text := root + Jail.Path(names[..k]);
    assert PlainNames(names[..k]);
    SplitRooted(root, names[..k]);
    StartRooted(t.cwd, root, Jail.Path(names[..k]));
    assert Parts(root, names)[..n] == Parts(root, names[..k]);
  }

  /** The deepest cut in terms of the names after the root. */
  lemma DeepestCutNames(t: Tree, root: bytes, names: seq<bytes>, n: nat) returns (k: nat, j: nat)
    requires root != [] && PlainNames(names) && RealPath(t, root).At?
    requires var text := root + Jail.Path(names);
             n <= |text| && Cut(text, n) && AllMissing(t, text, n) && RealPath(t, text[..n]).At?
    ensures var text := root + Jail.Path(names);
            && k <= |names| && j == k + 1 && text[..n] == root + Jail.Path(names[..k])
            && (k < |names| ==> Missing(RealPath(t, root + Jail.Path(names[..j]))))
  {
    var path := Jail.Path(names);
    var text := root + path;
    assert n >= |root| by {
      assert Cut(text, |root|);
      assert text[..|root|] == root;
    }
    assert n < |text| ==> path[n - |root|] == text[n];
    k := CutNames(names, n - |root|);
    j := k + 1;
    assert text[..n] == root + path[..n - |root|];
    if k < |names| {
      NextCut(root, names, k, j);
    }
  }

  lemma NextCut(root: bytes, names: seq<bytes>, k: nat, j: nat)
    requires root != [] && PlainNames(names) && k < |names| && j == k + 1
    ensures var text, m := root + Jail.Path(names), |root + Jail.Path(names[..j])|;
            && m <= |text| && Cut(text, m) && text[..m] == root + Jail.Path(names[..j])
            && m > |root + Jail.Path(names[..k])|
  {
    PathAppend(names[..j], names[j..]);
    assert names[..j] + names[j..] == names;
    PathAppend(names[..k], [names[k]]);
    assert names[..k] + [names[k]] == names[..j];
  }

  /** What the check accepts leads inside. */
  lemma AcceptedIsInside(t: Tree, root: bytes, names: seq<bytes>)
    requires root != [] && PlainNames(names) && Accepted(t, root, root + Jail.Path(names))
    ensures Inside(t, RealPath(t, root).path, Start(t.cwd, root), Parts(root, names), |Jail.Split(root)|)
  {
    var rc, text, start := RealPath(t, root).path, root + Jail.Path(names), Start(t.cwd, root);
    var base := |Jail.Split(root)|;
    var n: nat :| Deepest(t, rc, text, n);
    var k, j := DeepestCutNames(t, root, names, n);
    CutEndsInside(t, rc, root, names, k, j, base + k);
    assert Parts(root, names)[base..] == names;
  }

  lemma CutEndsInside(t: Tree, rc: Path, root: bytes, names: seq<bytes>, k: nat, j: nat, n: nat)
    requires root != [] && PlainNames(names) && k <= |names| && j == k + 1 && n == |Jail.Split(root)| + k
    requires var r := RealPath(t, root + Jail.Path(names[..k])); r.At? && rc <= r.path
    requires k < |names| ==> Missing(RealPath(t, root + Jail.Path(names[..j])))
    ensures EndsInside(t, rc, Start(t.cwd, root), Parts(root, names), n)
  {
    ReachText(t, root, names, k, n);
    if k < |names| {
      CutNextFails(t, root, names, j, n, n + 1);
    }
  }

  lemma CutNextFails(t: Tree, root: bytes, names: seq<bytes>, j: nat, n: nat, m: nat)
    requires root != [] && PlainNames(names) && 0 < j <= |names| && m == n + 1 == |Jail.Split(root)| + j
    requires Reach(t, Start(t.cwd, root), Parts(root, names), n).At?
    requires Missing(RealPath(t, root + Jail.Path(names[..j])))
    ensures var parts, w := Parts(root, names), Reach(t, Start(t.cwd, root), Parts(root, names), n);
            n < |parts| && Follow(t, w.path, [parts[n]], w.left).Fails?
  {
    ReachText(t, root, names, j, m);
    OneMore(t, Start(t.cwd, root), Parts(root, names), n, m);
  }

  // --- One mkdir ------------------------------------------------------------------------------------

  /** Nothing was lost, and whatever is new is a directory at or under `rc`. */
  ghost predicate GrownUnder(t: Tree, u: Tree, rc: Path) {
    Within(t, u) && forall p <- u.nodes :: p !in t.nodes ==> rc <= p && u.nodes[p].Dir?
  }

  lemma {:induction false} ReachFailsOn(t: Tree, start: Path, parts: seq<bytes>, j: nat, k: nat)
    requires j <= k <= |parts| && Reach(t, start, parts, j).Fails?
    ensures Reach(t, start, parts, k) == Reach(t, start, parts, j)
  {
    FollowAppend(t, start, parts[..j], parts[j..k], LINKS);
    assert parts[..j] + parts[j..k] == parts[..k];
  }

  /** The deepest prefix that can be walked is the only candidate for a new directory. */
  lemma MkdirAtDeepest(t: Tree, rc: Path, start: Path, parts: seq<bytes>, base: nat, k: nat, j: nat)
    requires 0 < base <= k && EndsInside(t, rc, start, parts, k) && PlainNames(parts[base..])
    requires 0 < j <= |parts| && MkdirParts(t, start, parts[..j]).New?
    ensures j == k + 1
  {
    MkdirMeansMissing(t, start, parts[..j]);
    if j <= k {
      ReachFailsOn(t, start, parts, j, k);
    }
    if j - 1 > k {
      assert IsName(parts[base..][j - 1 - base]);
      MkdirNeedsDir(t, start, parts, j - 1, j);
      OneMore(t, start, parts, k, k + 1);
      ReachFailsOn(t, start, parts, k + 1, j - 1);
    }
  }

  lemma MkdirNeedsDir(t: Tree, start: Path, parts: seq<bytes>, k: nat, j: nat)
    requires j == k + 1 <= |parts| && MkdirParts(t, start, parts[..j]).New? && IsName(parts[k])
    ensures var w := Reach(t, start, parts, k);
            && w.At? && Searchable(t, w.path).None?
            && MkdirParts(t, start, parts[..j]) == New(w.path + [parts[k]])
            && w.path + [parts[k]] !in t.nodes && |parts[k]| <= NAMEMAX
  {
    assert Init(parts[..j]) == parts[..k];
  }

  /** A directory that has just been made can be walked to, but no name in it. */
  lemma MadeIsReached(t: Tree, start: Path, parts: seq<bytes>, k: nat, j: nat, at: Path, left: nat)
    requires k < |parts| && j == k + 1 && Reach(t, start, parts, k) == At(at, left)
    requires IsName(parts[k]) && |parts[k]| <= NAMEMAX
    requires Searchable(t, at).None? && at + [parts[k]] !in t.nodes
    ensures Reach(Plus(t, at + [parts[k]], Dir), start, parts, j) == At(at + [parts[k]], left)
  {
    var u := Plus(t, at + [parts[k]], Dir);
    FollowWithin(t, u, start, parts[..k], LINKS);
    OneMore(u, start, parts, k, j);
    FollowOne(u, at, parts[k], left);
  }

  /** One mkdir keeps the walk inside, and makes a directory inside if it makes any. */
  lemma MkdirKeepsInside(t: Tree, rc: Path, start: Path, parts: seq<bytes>, base: nat, j: nat)
    requires WellFormed(t) && Inside(t, rc, start, parts, base)
    requires 0 < j <= |parts| && MkdirParts(t, start, parts[..j]).New?
    ensures rc <= MkdirParts(t, start, parts[..j]).path
    ensures Inside(Plus(t, MkdirParts(t, start, parts[..j]).path, Dir), rc, start, parts, base)
  {
    var k: nat :| base <= k && EndsInside(t, rc, start, parts, k);
    MkdirAtDeepest(t, rc, start, parts, base, k, j);
    MkdirGoesOn(t, rc, start, parts, base, k, j);
  }

  lemma MkdirGoesOn(t: Tree, rc: Path, start: Path, parts: seq<bytes>, base: nat, k: nat, j: nat)
    requires WellFormed(t) && 0 < base <= k && j == k + 1 <= |parts| && PlainNames(parts[base..])
    requires EndsInside(t, rc, start, parts, k) && MkdirParts(t, start, parts[..j]).New?
    ensures rc <= MkdirParts(t, start, parts[..j]).path
    ensures EndsInside(Plus(t, MkdirParts(t, start, parts[..j]).path, Dir), rc, start, parts, j)
  {
    assert IsName(parts[base..][k - base]);
    MkdirNeedsDir(t, start, parts, k, j);
    var w := Reach(t, start, parts, k);
    MadeEndsInside(t, rc, start, parts, base, k, j, w.path, w.left);
    PrefixOne(rc, w.path, parts[k]);
  }

  lemma PrefixOne(rc: Path, at: Path, name: bytes)
    requires rc <= at
    ensures rc <= at + [name]
  {
    assert (at + [name])[..|rc|] == at[..|rc|];
  }

  lemma MadeEndsInside(
      t: Tree, rc: Path, start: Path, parts: seq<bytes>, base: nat, k: nat, j: nat, at: Path, left: nat)
    requires WellFormed(t) && base <= k < |parts| && j == k + 1 && PlainNames(parts[base..]) && rc <= at
    requires Reach(t, start, parts, k) == At(at, left) && |parts[k]| <= NAMEMAX
    requires Searchable(t, at).None? && at + [parts[k]] !in t.nodes
    ensures EndsInside(Plus(t, at + [parts[k]], Dir), rc, start, parts, j)
  {
    var made := at + [parts[k]];
    assert IsName(parts[base..][k - base]);
    MadeIsReached(t, start, parts, k, j, at, left);
    if j < |parts| {
      assert IsName(parts[base..][j - base]);
      assert Init(made + [parts[j]]) == made;
      FollowOne(Plus(t, made, Dir), made, parts[j], left);
    }
  }

  /** Wherever the whole path leads, it is inside. */
  lemma InsideEndsInside(t: Tree, rc: Path, start: Path, parts: seq<bytes>, base: nat)
    requires Inside(t, rc, start, parts, base) && Follow(t, start, parts, LINKS).At?
    ensures rc <= Follow(t, start, parts, LINKS).path
  {
    var k: nat :| base <= k && EndsInside(t, rc, start, parts, k);
    assert parts[..|parts|] == parts;
    if k < |parts| {
      OneMore(t, start, parts, k, k + 1);
      ReachFailsOn(t, start, parts, k + 1, |parts|);
    }
  }

  // --- The tail that does not resolve ---------------------------------------------------------------

  lemma CutParts(t: Tree, root: bytes, names: seq<bytes>, k: nat)
    requires root != [] && PlainNames(names) && k <= |names|
    ensures var text := root + Jail.Path(names[..k]);
            Jail.Split(text) == Parts(root, names[..k]) && Start(t.cwd, text) == Start(t.cwd, root)
  {
    SplitRooted(root, names[..k]);
    StartRooted(t.cwd, root, Jail.Path(names[..k]));
  }

  /** Beyond a prefix that does not resolve nothing is found. */
  lemma NothingBeyond(t: Tree, root: bytes, names: seq<bytes>, j: nat, i: nat, m: nat)
    requires root != [] && PlainNames(names) && 0 < j <= m && i == m + 1 <= |names|
    requires Follow(t, Start(t.cwd, root), Parts(root, names[..j]), LINKS).Fails?
    ensures Locate(t, root + Jail.Path(names[..i])).Fails?
  {
    var start := Start(t.cwd, root);
    CutParts(t, root, names, i);
    assert Parts(root, names[..m]) == Parts(root, names[..j]) + names[j..m];
    FollowAppend(t, start, Parts(root, names[..j]), names[j..m], LINKS);
    assert Init(Parts(root, names[..i])) == Parts(root, names[..m]) && Last(Parts(root, names[..i])) == names[m];
  }

  /** What stands at the first component that does not resolve is a symbolic link. */
  lemma FirstMissing(t: Tree, root: bytes, names: seq<bytes>, k: nat, j: nat)
    requires root != [] && PlainNames(names) && j == k + 1 <= |names|
    requires Missing(RealPath(t, root + Jail.Path(names[..j]))) && Locate(t, root + Jail.Path(names[..j])).At?
    ensures var at := Locate(t, root + Jail.Path(names[..j])).path; at in t.nodes && t.nodes[at].Link?
  {
    CutParts(t, root, names, j);
    var parts := Parts(root, names[..j]);
    assert Last(parts) == names[k] && IsName(names[k]);
    if !(t.nodes[Locate(t, root + Jail.Path(names[..j])).path].Link?) {
      LocateIsFollow(t, root + Jail.Path(names[..j]));
    }
  }

  /** A component beyond the first `k` stands in the tree; is a symbolic link. */
  ghost predicate TailStands(t: Tree, root: bytes, names: seq<bytes>, k: nat) {
    exists i :: k < i <= |names| && Locate(t, root + Jail.Path(names[..i])).At?
  }

  ghost predicate TailHasLink(t: Tree, root: bytes, names: seq<bytes>, k: nat) {
    exists i :: k < i <= |names| && Locate(t, root + Jail.Path(names[..i])).At?
      && var at := Locate(t, root + Jail.Path(names[..i])).path; at in t.nodes && t.nodes[at].Link?
  }

  /** Exactly when the tail that does not resolve carries a symbolic link: when its first
      component is found at all. */
  lemma TailExactly(t: Tree, root: bytes, names: seq<bytes>, k: nat, j: nat)
    requires root != [] && PlainNames(names) && j == k + 1 <= |names|
    requires Missing(RealPath(t, root + Jail.Path(names[..j])))
    ensures TailHasLink(t, root, names, k) <==> Locate(t, root + Jail.Path(names[..j])).At?
    ensures TailStands(t, root, names, k) <==> Locate(t, root + Jail.Path(names[..j])).At?
  {
    NoneBeyond(t, root, names, j);
    if Locate(t, root + Jail.Path(names[..j])).At? {
      FirstMissing(t, root, names, k, j);
    }
  }

  lemma NoneBeyond(t: Tree, root: bytes, names: seq<bytes>, j: nat)
    requires root != [] && PlainNames(names) && 0 < j <= |names|
    requires Missing(RealPath(t, root + Jail.Path(names[..j])))
    ensures forall i :: j < i <= |names| ==> Locate(t, root + Jail.Path(names[..i])).Fails?
  {
    MissingWalk(t, root, names, j);
    forall i | j < i <= |names|
      ensures Locate(t, root + Jail.Path(names[..i])).Fails?
    {
      NothingBeyond(t, root, names, j, i, i - 1);
    }
  }

  lemma MissingWalk(t: Tree, root: bytes, names: seq<bytes>, j: nat)
    requires root != [] && PlainNames(names) && j <= |names|
    requires Missing(RealPath(t, root + Jail.Path(names[..j])))
    ensures Follow(t, Start(t.cwd, root), Parts(root, names[..j]), LINKS).Fails?
  {
    CutParts(t, root, names, j);
  }

  /** For every path the check accepts and that does not resolve as a whole: it resolves up to
      some component, and the tail after that is as just said. */
  lemma AcceptedTailExactly(t: Tree, root: bytes, names: seq<bytes>) returns (k: nat, j: nat)
    requires root != [] && PlainNames(names) && Accepted(t, root, root + Jail.Path(names))
    requires RealPath(t, root + Jail.Path(names)).Fails?
    ensures j == k + 1 <= |names| && RealPath(t, root + Jail.Path(names[..k])).At?
    ensures TailHasLink(t, root, names, k) <==> Locate(t, root + Jail.Path(names[..j])).At?
  {
    var n: nat :| Deepest(t, RealPath(t, root).path, root + Jail.Path(names), n);
    k, j := DeepestCutNames(t, root, names, n);
    assert names[..|names|] == names;
    TailExactly(t, root, names, k, j);
  }
}
