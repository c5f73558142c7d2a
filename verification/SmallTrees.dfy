/**
 Three counterexamples on two small trees with symbolic links, for what the canonical-path check
 and mkdir -p do not promise.
 */
module SmallTrees {
  import opened Bytes
  import opened Posix
  import opened Tree
  import opened Contained
  import opened Placement
  import Jail
  import Mkdirs

  const S: byte := 0x73
  const L: byte := 0x6C
  const E: byte := 0x65

  /** A share "/s" with a link "l" to `target`, and beside it a directory "/e" with a link back. */
  function Linked(target: bytes): Tree {
    Tree(map[[] := Dir, [[S]] := Dir, [[S], [L]] := Link(target), [[E]] := Dir, [[E], [E]] := Link([SLASH, S])], {}, [])
  }

  lemma SplitShort(a: byte, b: byte, c: byte)
    requires a != SLASH && b != SLASH && c != SLASH
    ensures Jail.Split([SLASH, a]) == [[], [a]] && Jail.Path([[a]]) == [SLASH, a]
    ensures Jail.Split([SLASH, a, SLASH, b]) == [[], [a], [b]]
    ensures Jail.Split([SLASH, a, SLASH, b, SLASH, c]) == [[], [a], [b], [c]]
  {
    PathShort(a, b, c);
    Jail.SplitPath([[a]]);
    Jail.SplitPath([[a], [b]]);
    Jail.SplitPath([[a], [b], [c]]);
  }

  lemma PathShort(a: byte, b: byte, c: byte)
    ensures Jail.Path([[a]]) == [SLASH, a]
    ensures Jail.Path([[a], [b]]) == [SLASH, a, SLASH, b]
    ensures Jail.Path([[a], [b], [c]]) == [SLASH, a, SLASH, b, SLASH, c]
  {
    assert forall x: byte :: Jail.Path([[x]]) == [SLASH] + [x] + [] == [SLASH, x];
    PathAppend([[a]], [[b]]);
    assert [[a]] + [[b]] == [[a], [b]];
    PathAppend([[a], [b]], [[c]]);
    assert [[a], [b]] + [[c]] == [[a], [b], [c]];
    assert Jail.Path([[a], [b]]) == [SLASH, a, SLASH, b];
    assert Jail.Path([[a], [b], [c]]) == [SLASH, a, SLASH, b] + [SLASH, c] == [SLASH, a, SLASH, b, SLASH, c];
  }

  /** One part after another, as long as none is a link. */
  lemma FollowPlain(t: Tree, at: Path, part: bytes, rest: seq<bytes>, links: nat)
    requires Searchable(t, at).None? && IsName(part) && |part| <= NAMEMAX
    requires at + [part] in t.nodes && !t.nodes[at + [part]].Link?
    ensures Follow(t, at, [part] + rest, links) == Follow(t, at + [part], rest, links)
  {
    assert ([part] + rest)[1..] == rest && [] + rest == rest;
  }

  lemma FollowRoot(t: Tree, rest: seq<bytes>, links: nat)
    requires Searchable(t, []).None?
    ensures Follow(t, [], [[]] + rest, links) == Follow(t, [], rest, links)
  {
    assert ([[]] + rest)[1..] == rest && [] + rest == rest;
  }

  lemma FollowLink(t: Tree, at: Path, part: bytes, rest: seq<bytes>, links: nat, target: byte)
    requires Searchable(t, at).None? && IsName(part) && |part| <= NAMEMAX && target != SLASH && links > 0
    requires at + [part] in t.nodes && t.nodes[at + [part]] == Link([SLASH, target])
    ensures Follow(t, at, [part] + rest, links) == Follow(t, [], [[]] + ([[target]] + rest), links - 1)
  {
    SplitShort(target, target, target);
    assert ([part] + rest)[1..] == rest;
    assert [[], [target]] + rest == [[]] + ([[target]] + rest);
  }

  lemma LinkedNodes(target: bytes)
    ensures var n := Linked(target).nodes;
            && n[[]] == Dir
            && [] + [[S]] in n && n[[] + [[S]]] == Dir
            && [] + [[E]] in n && n[[] + [[E]]] == Dir
            && [] + [[L]] !in n
            && [[S]] + [[L]] in n && n[[[S]] + [[L]]] == Link(target)
            && [[E]] + [[E]] in n && n[[[E]] + [[E]]] == Link([SLASH, S])
  {
    assert [] + [[S]] == [[S]] && [] + [[E]] == [[E]] && [] + [[L]] == [[L]];
    assert [[S]] + [[L]] == [[S], [L]] && [[E]] + [[E]] == [[E], [E]];
    assert [S] != [E] && [S] != [L] && [E] != [L];
  }

  lemma IntoShare(target: bytes, rest: seq<bytes>)
    ensures Follow(Linked(target), [], [[], [S]] + rest, LINKS) == Follow(Linked(target), [[S]], rest, LINKS)
  {
    LinkedNodes(target);
    assert [] + [[S]] == [[S]];
    assert [[], [S]] + rest == [[]] + ([[S]] + rest);
    FollowRoot(Linked(target), [[S]] + rest, LINKS);
    FollowPlain(Linked(target), [], [S], rest, LINKS);
  }

  lemma LinkedWell(target: bytes)
    ensures WellFormed(Linked(target))
  {
    assert Init([[S]]) == [] && Init([[E]]) == [];
    assert Init([[S], [L]]) == [[S]] && Init([[E], [E]]) == [[E]];
  }

  /** "/s" is where it says. */
  lemma ShareItself(target: bytes)
    ensures WellFormed(Linked(target)) && RealPath(Linked(target), [SLASH, S]) == At([[S]], LINKS)
  {
    LinkedWell(target);
    SplitShort(S, S, S);
    IntoShare(target, []);
    assert [[], [S]] + [] == [[], [S]];
  }

  lemma OutWalk()
    ensures Follow(Linked([SLASH, E]), [], [[], [S], [L]], LINKS) == At([[E]], LINKS - 1)
  {
    var t := Linked([SLASH, E]);
    IntoShare([SLASH, E], [[L]]);
    assert [[], [S]] + [[L]] == [[], [S], [L]] && [[L]] == [[L]] + [];
    LinkedNodes([SLASH, E]);
    FollowLink(t, [[S]], [L], [], LINKS, E);
    FollowRoot(t, [[E]] + [], LINKS - 1);
    assert [] + [[E]] == [[E]];
    FollowPlain(t, [], [E], [], LINKS - 1);
  }

  lemma BackWalk()
    ensures Follow(Linked([SLASH, E]), [[E]], [[E]], LINKS - 1) == At([[S]], LINKS - 2)
  {
    var t := Linked([SLASH, E]);
    LinkedNodes([SLASH, E]);
    assert [] + [[E]] == [[E]] && [[E]] == [[E]] + [] && [] + [[S]] == [[S]];
    FollowLink(t, [[E]], [E], [], LINKS - 1, S);
    FollowRoot(t, [[S]] + [], LINKS - 2);
    FollowPlain(t, [], [S], [], LINKS - 2);
  }

  lemma WholeWalk()
    ensures Follow(Linked([SLASH, E]), [], [[], [S], [L], [E]], LINKS) == At([[S]], LINKS - 2)
  {
    OutWalk();
    BackWalk();
    FollowAppend(Linked([SLASH, E]), [], [[], [S], [L]], [[E]], LINKS);
    assert [[], [S], [L]] + [[E]] == [[], [S], [L], [E]];
  }

  /** A link may lead out of the share and a second one, outside, back in. The check then
      accepts the path, for it looks at the whole path if that resolves; but a file replaced
      through it stands outside. (This takes a link outside the share, so the daemon's clients
      cannot arrange it.) */
  lemma OutAndBack(name: bytes)
    ensures var t := Linked([SLASH, E]);
            && Accepted(t, [SLASH, S], [SLASH, S, SLASH, L, SLASH, E])
            && Place(t, [SLASH, S, SLASH, L], name) == Some([[E], name])
            && !(RealPath(t, [SLASH, S]).path <= [[E], name])
  {
    var t, target := Linked([SLASH, E]), [SLASH, S, SLASH, L, SLASH, E];
    ShareItself([SLASH, E]);
    SplitShort(S, L, E);
    OutWalk();
    WholeWalk();
    AcceptedResolved(t, [SLASH, S], target);
    assert [[E]] + [name] == [[E], name];
  }

  /** mkdir -p on a dangling link succeeds, for something is there, and leaves no directory. */
  lemma NoDirectoryMade()
    ensures var t, text := Linked([SLASH, L]), [SLASH, S, SLASH, L];
            && Accepted(t, [SLASH, S], text) && Mkdirs.AllTaken(t, text, |text| + 1)
            && RealPath(t, text) == Fails(ENOENT) && !Mkdirs.LeadsToDir(t, text)
  {
    DanglingTail();
    DanglingWalk();
    SplitShort(S, L, L);
    BothTaken(Linked([SLASH, L]));
  }

  lemma BothTaken(t: Tree)
    requires t == Linked([SLASH, L])
    ensures Mkdirs.AllTaken(t, [SLASH, S, SLASH, L], 5)
  {
    var text := [SLASH, S, SLASH, L];
    ShareTaken();
    LinkTaken();
    assert text[..4] == text && text[..2] == [SLASH, S];
    forall n | 0 < n < 5 && Cut(text, n)
      ensures Mkdirs.Taken(t, text, n)
    {
      assert n == 2 || n == 4;
    }
  }

  lemma ShareTaken()
    ensures MkdirAnswer(Linked([SLASH, L]), [SLASH, S]) == Refused(EEXIST)
  {
    var t := Linked([SLASH, L]);
    SplitShort(S, L, L);
    LinkedNodes([SLASH, L]);
    var top: seq<bytes> := [[]];
    assert Init([[], [S]]) == top && top + [] == top;
    FollowRoot(t, [], LINKS);
    assert DirOf(t, [], [[], [S]]) == At([], LINKS);
  }

  lemma LinkTaken()
    ensures MkdirAnswer(Linked([SLASH, L]), [SLASH, S, SLASH, L]) == Refused(EEXIST)
  {
    var t := Linked([SLASH, L]);
    SplitShort(S, L, L);
    LinkedNodes([SLASH, L]);
    IntoShare([SLASH, L], []);
    assert Init([[], [S], [L]]) == [[], [S]] == [[], [S]] + [];
    assert [] + [[S]] == [[S]];
    assert DirOf(t, [], [[], [S], [L]]) == At([[S]], LINKS);
  }

  /** The part of the path that does not resolve can begin with a symbolic link: a dangling one. */
  lemma DanglingTail()
    ensures var t := Linked([SLASH, L]);
            && Accepted(t, [SLASH, S], [SLASH, S, SLASH, L])
            && Missing(RealPath(t, [SLASH, S, SLASH, L]))
            && t.nodes[[[S], [L]]].Link?
  {
    var t, text := Linked([SLASH, L]), [SLASH, S, SLASH, L];
    ShareItself([SLASH, L]);
    DanglingWalk();
    SplitShort(S, L, L);
    LinkedNodes([SLASH, L]);
    assert [[S]] + [[L]] == [[S], [L]];
    assert text[..4] == text && text[..2] == [SLASH, S];
    assert Deepest(t, [[S]], text, 2);
  }

  lemma DanglingWalk()
    ensures Follow(Linked([SLASH, L]), [], [[], [S], [L]], LINKS) == Fails(ENOENT)
  {
    var t := Linked([SLASH, L]);
    LinkedNodes([SLASH, L]);
    IntoShare([SLASH, L], [[L]]);
    assert [[], [S]] + [[L]] == [[], [S], [L]] && [[L]] == [[L]] + [];
    FollowLink(t, [[S]], [L], [], LINKS, L);
    FollowRoot(t, [[L]] + [], LINKS - 1);
    FollowOne(t, [], [L], LINKS - 1);
  }
}
