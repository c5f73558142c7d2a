/** The disk as the daemon's calls change it; each call may be refused for reasons of its own. */
module Disks {
  import opened Bytes
  import opened Posix
  import opened Tree
  import Jail

  class Disk {
    var t: Tree
    const script: seq<Option<Errno>>
    var step: nat
    ghost var synced: seq<bytes>   // the directories fsync_dir has been called for

    constructor (t: Tree, script: seq<Option<Errno>>)
      requires WellFormed(t)
      ensures this.t == t && step == 0 && this.script == script
    {
      this.t, this.script, step, synced := t, script, 0, [];
    }

    /** fsync_dir, which reports nothing and changes nothing anyone can see. */
    method SyncDir(text: bytes)
      modifies this`step, this`synced
      ensures synced == old(synced) + [text] && (old(Calm()) ==> Calm())
    {
      var _ := Refusal();
      synced := synced + [text];
    }

    /** No call will be refused any more, except for what it asks. */
    predicate Calm()
      reads this
    {
      step >= |script|
    }

    /** Whether the next call is refused whatever it asks for; never by claiming that something exists. */
    method Refusal() returns (e: Option<Errno>)
      modifies this`step
      ensures e != Some(EEXIST) && (old(Calm()) ==> Calm() && e.None?)
    {
      e := if step < |script| && script[step] != Some(EEXIST) then script[step] else None;
      step := step + 1;
    }

    method Mkdir(text: bytes) returns (err: Option<Errno>)
      requires WellFormed(t) && NUL !in text
      modifies this
      ensures WellFormed(t)
      ensures err.None? ==> MkdirAnswer(old(t), text).New? && t == Plus(old(t), MkdirAnswer(old(t), text).path, Dir)
      ensures err.Some? ==> t == old(t) && (err.value == EEXIST ==> MkdirAnswer(t, text) == Refused(EEXIST))
      ensures old(Calm()) ==> Calm() && (err.Some? ==> MkdirAnswer(t, text) == Refused(err.value))
    {
      err := Refusal();
      if err.None? {
        match MkdirAnswer(t, text)
        case Refused(e) => err := Some(e);
        case New(path) =>
          SplitClean(text);
          MkdirIsNew(t, Start(t.cwd, text), Jail.Split(text));
          t := Plus(t, path, Dir);
      }
    }

    /** What lstat says of the last component. */
    method Lstat(text: bytes) returns (w: Walk)
      modifies this`step
      ensures w == Locate(t, text) || (w.Fails? && !old(Calm()))
      ensures old(Calm()) ==> Calm()
    {
      var err := Refusal();
      w := if err.Some? then Fails(err.value) else Locate(t, text);
    }

    method Unlink(text: bytes) returns (err: Option<Errno>)
      requires WellFormed(t) && EndsInName(text)
      modifies this
      ensures WellFormed(t)
      ensures err.None? ==>
                var w := Locate(old(t), text);
                w.At? && !old(t).nodes[w.path].Dir? && t == Minus(old(t), w.path)
      ensures err.Some? ==> t == old(t)
      ensures old(Calm()) ==>
                Calm() && (err.None? <==> Locate(old(t), text).At? && !IsDir(old(t), Locate(old(t), text).path))
    {
      err := Refusal();
      if err.None? {
        var w := Locate(t, text);
        if w.Fails? {
          err := Some(w.e);
        } else if t.nodes[w.path].Dir? {
          err := Some(EISDIR);
        } else {
          LeafIsChildless(t, w.path);
          RemoveWellFormed(t, w.path);
          t := Minus(t, w.path);
        }
      }
    }

    /** Refused for a path that ends in a dot, which leads to a directory but does not name one. */
    method Rmdir(text: bytes) returns (err: Option<Errno>)
      requires WellFormed(t) && NUL !in text
      modifies this
      ensures WellFormed(t)
      ensures err.None? ==>
                var w := Locate(old(t), text);
                && w.At? && IsDir(old(t), w.path) && Childless(old(t), w.path) && EndsInName(text)
                && t == Minus(old(t), w.path)
      ensures err.Some? ==> t == old(t)
      ensures old(Calm()) ==>
                && Calm()
                && (err.None? <==>
                      var w := Locate(old(t), text);
                      w.At? && EndsInName(text) && IsDir(old(t), w.path) && Childless(old(t), w.path))
    {
      err := Refusal();
      if err.None? {
        var w := Locate(t, text);
        if w.Fails? {
          err := Some(w.e);
        } else if w.path !in t.nodes || !t.nodes[w.path].Dir? {
          err := Some(ENOTDIR);
        } else if !IsName(Last(Jail.Split(text))) {
          err := Some(EINVAL);
        } else if !Childless(t, w.path) {
          err := Some(ENOTEMPTY);
        } else {
          RemoveWellFormed(t, w.path);
          t := Minus(t, w.path);
        }
      }
    }
  }

  lemma LeafIsChildless(t: Tree, p: Path)
    requires WellFormed(t) && p in t.nodes && !t.nodes[p].Dir?
    ensures Childless(t, p)
  {}
}
