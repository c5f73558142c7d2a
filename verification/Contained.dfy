/**
 The canonical-path check (fsapi_contained in src/core/fsapi.c) over a tree with symbolic links:
 its loop over the prefixes of a path, and what exactly it accepts.
 */
module Contained {
  import opened Bytes
  import opened Posix
  import opened Tree
  import Jail
  import Publication

  // --- What the check decides ----------------------------------------------------------------

  /** `text[..n]` is the path or what is left of it after cutting components off its end. */
  ghost predicate Cut(text: bytes, n: nat) {
    n == |text| || (0 < n < |text| && text[n] == SLASH)
  }

  ghost predicate Missing(w: Walk) {
    w == Fails(ENOENT) || w == Fails(ENOTDIR)
  }

  ghost predicate AllMissing(t: Tree, text: bytes, n: nat) {
    forall m :: n < m <= |text| && Cut(text, m) ==> Missing(RealPath(t, text[..m]))
  }

  /** The deepest prefix that resolves is the one of length `n`, and it resolves under `rc`. */
  ghost predicate Deepest(t: Tree, rc: Path, text: bytes, n: nat) {
    && n <= |text| && Cut(text, n) && AllMissing(t, text, n)
    && RealPath(t, text[..n]).At? && rc <= RealPath(t, text[..n]).path
  }

  ghost predicate Accepted(t: Tree, root: bytes, text: bytes) {
    && RealPath(t, root).At? && |text| < Jail.PATHCAP
    && exists n: nat :: Deepest(t, RealPath(t, root).path, text, n)
  }

  /** The comparison of the two canonical texts. */
  predicate Outside(rc: bytes, res: bytes) {
    |res| < |rc| || res[..|rc|] != rc || (|rc| > 1 && |res| > |rc| && res[|rc|] != SLASH)
  }

  lemma {:induction false} SplitJoin(a: bytes, s: bytes)
    requires s == [] || s[0] == SLASH
    ensures Jail.Split(a + s) == Jail.Split(a) + Jail.Split(s)[1..]
    decreases a
  {
    if a == [] {
      assert a + s == s;
      if s != [] {
        assert Jail.Split(s)[0] == [];
      }
      assert [[]] + Jail.Split(s)[1..] == Jail.Split(s);
    } else {
      assert (a + s)[1..] == a[1..] + s;
      SplitJoin(a[1..], s);
      var rest, more := Jail.Split(a[1..]), Jail.Split(s)[1..];
      if a[0] == SLASH {
        assert [[]] + (rest + more) == [[]] + rest + more;
      } else {
        assert (rest + more)[0] == rest[0] && (rest + more)[1..] == rest[1..] + more;
        assert [[a[0]] + rest[0]] + (rest[1..] + more) == [[a[0]] + rest[0]] + rest[1..] + more;
      }
    }
  }

  /** "%s/%s" */
  function Child(text: bytes, name: bytes): bytes {
    text + [SLASH] + name
  }

  lemma ChildParts(text: bytes, name: bytes)
    requires IsName(name)
    ensures Jail.Split(Child(text, name)) == Jail.Split(text) + [name]
  {
    assert Child(text, name) == text + ([SLASH] + name);
    SplitJoin(text, [SLASH] + name);
    assert ([SLASH] + name)[1..] == name;
    Jail.SplitTail(name, []);
    assert name + [] == name;
    assert Jail.Split(name) == [name];
    assert Jail.Split([SLASH] + name)[1..] == [name];
  }

  lemma {:induction false} PathAppend(a: seq<bytes>, b: seq<bytes>)
    ensures Jail.Path(a + b) == Jail.Path(a) + Jail.Path(b)
    decreases a
  {
    if a == [] {
      assert a + b == b;
    } else {
      assert (a + b)[1..] == a[1..] + b;
      PathAppend(a[1..], b);
      assert [SLASH] + a[0] + (Jail.Path(a[1..]) + Jail.Path(b)) == [SLASH] + a[0] + Jail.Path(a[1..]) + Jail.Path(b);
    }
  }

  /** Comparing bytes and looking for a boundary is comparing components. */
  lemma BoundaryIsComponents(p: Path, q: Path)
    requires (forall n <- p :: IsName(n)) && (forall n <- q :: IsName(n))
    ensures Outside(Text(p), Text(q)) <==> !(p <= q)
  {
    TextLength(p);
    TextLength(q);
    if p != [] && q != [] {
      if !Outside(Text(p), Text(q)) {
        InsideIsPrefix(p, q);
      }
      if p <= q {
        PrefixIsInside(p, q);
      }
    }
  }

  lemma TextLength(p: Path)
    requires forall n <- p :: IsName(n)
    ensures p == [] <==> |Text(p)| <= 1
  {
    if p != [] {
      assert IsName(p[0]);
    }
  }

  lemma InsideIsPrefix(p: Path, q: Path)
    requires (forall n <- p :: IsName(n)) && (forall n <- q :: IsName(n))
    requires p != [] && q != [] && |Text(p)| > 1 && !Outside(Text(p), Text(q))
    ensures p <= q
  {
    Jail.SplitPath(p);
    Jail.SplitPath(q);
    var more := PartsBehind(Text(p), Text(q));
    BehindRoot(p, q, more);
  }

  lemma PartsBehind(rc: bytes, res: bytes) returns (more: seq<bytes>)
    requires |rc| > 1 && !Outside(rc, res)
    ensures Jail.Split(res) == Jail.Split(rc) + more
  {
    var s := res[|rc|..];
    assert rc + s == res;
    SplitJoin(rc, s);
    more := Jail.Split(s)[1..];
  }

  lemma BehindRoot(p: Path, q: Path, more: Path)
    requires [[]] + q == [[]] + p + more
    ensures q == p + more
  {
    assert q == ([[]] + q)[1..] && p + more == ([[]] + p + more)[1..];
  }

  lemma PrefixIsInside(p: Path, q: Path)
    requires p != [] && q != [] && p <= q
    ensures !Outside(Text(p), Text(q))
  {
    PathAppend(p, q[|p|..]);
    assert p + q[|p|..] == q;
    assert Text(q) == Text(p) + Jail.Path(q[|p|..]);
  }

  lemma RealPathNames(t: Tree, text: bytes)
    requires WellFormed(t) && RealPath(t, text).At?
    ensures RealPath(t, text).path in t.nodes
    ensures forall n <- RealPath(t, text).path :: IsName(n)
  {
    var parts := Jail.Split(text);
    FollowEnds(t, Start(t.cwd, text), parts, LINKS);
    NamesOnPath(t, RealPath(t, text).path);
  }

  datatype Verdict = Stand | Deny | GoUp

  /** One turn of the loop: what realpath says of one prefix. */
  method Look(t: Tree, rc: Path, cur: bytes) returns (v: Verdict)
    requires WellFormed(t) && forall n <- rc :: IsName(n)
    ensures v.Stand? <==> RealPath(t, cur).At? && rc <= RealPath(t, cur).path
    ensures v.GoUp? <==> Missing(RealPath(t, cur))
  {
    var res := RealPath(t, cur);
    if res.At? {
      RealPathNames(t, cur);
      BoundaryIsComponents(rc, res.path);
      return if Outside(Text(rc), Text(res.path)) then Deny else Stand;
    }
    return if res.e != ENOENT && res.e != ENOTDIR then Deny else GoUp;
  }

  /** fsapi_contained. It accepts if and only if the deepest prefix of the path that resolves,
      resolves to the canonical root or below it. */
  method Check(t: Tree, root: bytes, abspath: bytes) returns (r: Option<Errno>)
    requires WellFormed(t)
    ensures r.None? <==> Accepted(t, root, abspath)
    ensures r.Some? ==>
              r.value == if RealPath(t, root).At? && |abspath| >= Jail.PATHCAP then ENAMETOOLONG else EACCES
  {
    var rootc := RealPath(t, root);
    if rootc.Fails? {
      return Some(EACCES);
    }
    if |abspath| >= Jail.PATHCAP {
      return Some(ENAMETOOLONG);
    }
    RealPathNames(t, root);
    var inside := Search(t, rootc.path, abspath);
    return if inside then None else Some(EACCES);
  }

  /** The loop of fsapi_contained, cutting the path at its last slash until one prefix decides. */
  method Search(t: Tree, rc: Path, abspath: bytes) returns (inside: bool)
    requires WellFormed(t) && forall n <- rc :: IsName(n)
    ensures inside <==> exists n: nat :: Deepest(t, rc, abspath, n)
  {
    var cur := abspath;
    while true
      invariant cur <= abspath && Cut(abspath, |cur|) && AllMissing(t, abspath, |cur|)
      decreases |cur|
    {
      assert abspath[..|cur|] == cur;
      var v := Look(t, rc, cur);
      if !v.GoUp? {
        Decided(t, rc, abspath, |cur|);
        return v.Stand?;
      }
      var slash := Publication.LastSlash(cur);
      if slash.None? || slash.value == 0 {
        NoCutBelow(abspath, cur, slash);
        Undecided(t, rc, abspath, |cur|);
        return false;
      }
      CutsBetween(abspath, cur, slash.value);
      Longer(t, abspath, cur, slash.value);
      cur := cur[..slash.value];
    }
  }

  lemma Longer(t: Tree, text: bytes, cur: bytes, n: nat)
    requires cur <= text && n < |cur| && AllMissing(t, text, |cur|) && Missing(RealPath(t, cur))
    requires forall m :: n < m < |cur| ==> !Cut(text, m)
    ensures AllMissing(t, text, n)
  {
    assert text[..|cur|] == cur;
    forall m | n < m <= |text| && Cut(text, m)
      ensures Missing(RealPath(t, text[..m]))
    {
      assert m >= |cur|;
    }
  }

  /** The first cut that is not simply missing decides. */
  lemma Decided(t: Tree, rc: Path, text: bytes, n: nat)
    requires n <= |text| && Cut(text, n) && AllMissing(t, text, n) && !Missing(RealPath(t, text[..n]))
    ensures (exists m: nat :: Deepest(t, rc, text, m)) <==> Deepest(t, rc, text, n)
  {
    forall m: nat | m != n
      ensures !Deepest(t, rc, text, m)
    {
      assert n < m <= |text| && Cut(text, m) ==> Missing(RealPath(t, text[..m]));
      if m < n && AllMissing(t, text, m) {
        MissingAbove(t, text, m, n);
      }
    }
  }

  /** Acceptance in full: some cut resolves at or under the canonical root, and at every longer
      one nothing is there, or what should be a directory is none. */
  lemma AcceptedExactly(t: Tree, root: bytes, text: bytes)
    ensures Accepted(t, root, text) <==>
              && RealPath(t, root).At? && |text| < 4096
              && exists n: nat :: n <= |text| && Cut(text, n)
                   && RealPath(t, text[..n]).At? && RealPath(t, root).path <= RealPath(t, text[..n]).path
                   && forall m :: n < m <= |text| && Cut(text, m) ==>
                        RealPath(t, text[..m]) == Fails(ENOENT) || RealPath(t, text[..m]) == Fails(ENOTDIR)
  {
    if RealPath(t, root).At? {
      forall n: nat | n <= |text| && Cut(text, n)
        ensures Deepest(t, RealPath(t, root).path, text, n) <==>
                  && RealPath(t, text[..n]).At? && RealPath(t, root).path <= RealPath(t, text[..n]).path
                  && forall m :: n < m <= |text| && Cut(text, m) ==>
                       RealPath(t, text[..m]) == Fails(ENOENT) || RealPath(t, text[..m]) == Fails(ENOTDIR)
      {}
    }
  }

  /** A wall on the way, a loop of links or a name that is too long is refused, not passed over:
      at a cut where that is so, and no longer one resolves, the check ends. */
  lemma WallsAreRefused(t: Tree, root: bytes, text: bytes, n: nat, e: Errno)
    requires n <= |text| && Cut(text, n) && RealPath(t, text[..n]) == Fails(e) && e != ENOENT && e != ENOTDIR
    requires forall m :: n < m <= |text| && Cut(text, m) ==> RealPath(t, text[..m]).Fails?
    ensures !Accepted(t, root, text)
  {}

  lemma MissingAbove(t: Tree, text: bytes, m: nat, n: nat)
    requires m < n <= |text| && Cut(text, n) && AllMissing(t, text, m)
    ensures Missing(RealPath(t, text[..n]))
  {}

  /** If all are missing, none decides. */
  lemma Undecided(t: Tree, rc: Path, text: bytes, n: nat)
    requires n <= |text| && AllMissing(t, text, n) && (Cut(text, n) ==> Missing(RealPath(t, text[..n])))
    requires forall m :: 0 < m < n ==> !Cut(text, m)
    requires |text| > 0 ==> !Cut(text, 0)
    ensures !exists m: nat :: Deepest(t, rc, text, m)
  {
    forall m: nat
      ensures !Deepest(t, rc, text, m)
    {
      assert n < m <= |text| && Cut(text, m) ==> Missing(RealPath(t, text[..m]));
    }
  }

  lemma CutsBetween(text: bytes, cur: bytes, slash: nat)
    requires cur <= text && slash < |cur| && cur[slash] == SLASH && SLASH !in cur[slash + 1..]
    ensures forall m :: slash < m < |cur| ==> !Cut(text, m)
  {
    forall m | slash < m < |cur|
      ensures !Cut(text, m)
    {
      assert cur[slash + 1..][m - slash - 1] == cur[m] == text[m];
    }
  }

  lemma NoCutBelow(text: bytes, cur: bytes, slash: Option<nat>)
    requires cur <= text && slash == Publication.LastSlash(cur) && (slash.None? || slash.value == 0)
    ensures forall m :: 0 < m < |cur| ==> !Cut(text, m)
    ensures |text| > 0 ==> !Cut(text, 0)
  {
    if slash.Some? {
      CutsBetween(text, cur, 0);
    } else {
      assert forall m :: 0 <= m < |cur| ==> text[m] == cur[m] && cur[m] in cur;
    }
  }

}
