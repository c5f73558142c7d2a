/**
 What clients and a crash can observe over whole runs of the share: every theorem here is
 about all interleavings, of any length, of any number of requests.
 */
module ShareRuns {
  import opened Bytes
  import opened Posix
  import opened Publication
  import opened Share

  /** `ss` are the states passed through while `acts` happen one after another. */
  ghost predicate IsRun(first: set<bytes>, ss: seq<State>, acts: seq<Action>) {
    && |ss| == |acts| + 1 && Init(first, ss[0])
    && forall i {:trigger acts[i]} :: 0 <= i < |acts| ==> Enabled(ss[i], acts[i]) && ss[i + 1] == After(ss[i], acts[i])
  }

  lemma {:induction false} InvAlong(first: set<bytes>, ss: seq<State>, acts: seq<Action>, n: nat)
    requires IsRun(first, ss, acts) && n <= |acts|
    ensures Inv(first, ss[n])
    decreases n
  {
    if n > 0 {
      InvAlong(first, ss, acts, n - 1);
      InvStep(first, ss[n - 1], acts[n - 1]);
    }
  }

  lemma {:induction false} ExtendsAlong(first: set<bytes>, ss: seq<State>, acts: seq<Action>, m: nat, n: nat)
    requires IsRun(first, ss, acts) && m <= n <= |acts|
    ensures Inv(first, ss[m]) && Inv(first, ss[n]) && Extends(ss[m], ss[n])
    decreases n
  {
    InvAlong(first, ss, acts, n);
    if m < n {
      ExtendsAlong(first, ss, acts, m, n - 1);
      ExtendsOn(first, ss[m], ss[n - 1], acts[n - 1]);
    }
  }

  lemma ExtendsOn(first: set<bytes>, s0: State, s: State, a: Action)
    requires Inv(first, s) && Enabled(s, a) && Extends(s0, s)
    ensures Extends(s0, After(s, a))
  {
    StepExtends(first, s, a);
    ExtendsTrans(s0, s, After(s, a));
  }

  lemma ExtendsTrans(s1: State, s2: State, s3: State)
    requires Extends(s1, s2) && Extends(s2, s3)
    ensures Extends(s1, s3)
  {}

  // --- What readers see ----------------------------------------------------------------

  /** Every ordinary name leads, at every moment, to a directory or to a complete body. */
  lemma NamesAreComplete(first: set<bytes>, ss: seq<State>, acts: seq<Action>, n: nat, k: Key)
    requires IsRun(first, ss, acts) && n <= |acts| && k in ss[n].entries && k.base.Plain?
    ensures var s := ss[n];
            && s.entries[k] in s.nodes
            && (s.nodes[s.entries[k]].File? ==> Complete(first, s.procs, s.nodes[s.entries[k]].data))
  {
    InvAlong(first, ss, acts, n);
  }

  /** The bytes of a file never change again once a name has led to it. */
  lemma PublishedNeverChanges(first: set<bytes>, ss: seq<State>, acts: seq<Action>, m: nat, n: nat, k: Key)
    requires IsRun(first, ss, acts) && m <= n <= |acts| && k in ss[m].entries && k.base.Plain?
    requires ss[m].entries[k] in ss[m].nodes && ss[m].nodes[ss[m].entries[k]].File?
    ensures var i := ss[m].entries[k]; i in ss[n].nodes && ss[n].nodes[i] == ss[m].nodes[i]
  {
    ExtendsAlong(first, ss, acts, m, n);
  }

  lemma ReaderStays(s: State, a: Action, r: nat)
    requires Enabled(s, a) && r in s.readers
    ensures r in After(s, a).readers && After(s, a).readers[r].ino == s.readers[r].ino
  {}

  lemma {:induction false} ReaderKeepsInode(first: set<bytes>, ss: seq<State>, acts: seq<Action>,
                                            m: nat, n: nat, r: nat)
    requires IsRun(first, ss, acts) && m <= n <= |acts| && r in ss[m].readers
    ensures r in ss[n].readers && ss[n].readers[r].ino == ss[m].readers[r].ino
    decreases n
  {
    if m < n {
      ReaderKeepsInode(first, ss, acts, m, n - 1, r);
      ReaderStays(ss[n - 1], acts[n - 1], r);
    }
  }

  /** A GET that opened its file at moment `m` has sent, at any later moment, a prefix of the
      one complete body the file held then, whatever is renamed, replaced or deleted. */
  lemma ReaderSeesOneBody(first: set<bytes>, ss: seq<State>, acts: seq<Action>, m: nat, n: nat, r: nat)
    requires IsRun(first, ss, acts) && m <= n <= |acts| && r in ss[m].readers
    requires ss[m].readers[r].ino in ss[m].nodes && ss[m].nodes[ss[m].readers[r].ino].File?
    ensures r in ss[n].readers
    ensures var body := ss[m].nodes[ss[m].readers[r].ino].data;
            Complete(first, ss[m].procs, body) && ss[n].readers[r].sent <= body
  {
    ReaderKeepsInode(first, ss, acts, m, n, r);
    ExtendsAlong(first, ss, acts, m, n);
    assert Settled(first, ss[m], ss[m].readers[r].ino);
  }

  // --- What an answer means --------------------------------------------------------------

  /** Process `p` bound `at` in step `m`, to a file holding everything it had to publish. */
  ghost predicate PublishedAt(first: set<bytes>, ss: seq<State>, acts: seq<Action>, m: nat, p: nat, at: Key)
    requires IsRun(first, ss, acts) && m < |acts|
  {
    && acts[m].Do? && acts[m].p == p && acts[m].at == at && Named(acts[m].c)
    && p in ss[m].procs && at.base.Plain?
    && at in ss[m + 1].entries && ss[m + 1].entries[at] == ss[m].procs[p].ino
    && ss[m].procs[p].ino in ss[m].nodes && ss[m].nodes[ss[m].procs[p].ino].File?
    && Full(first, ss[m], ss[m].procs[p], ss[m].nodes[ss[m].procs[p].ino].data)
    && ss[m + 1].nodes == ss[m].nodes
  }

  predicate Acknowledging(pc: Pc) {
    pc.Unlinking? || pc.SyncingDir? || pc == Done(None)
  }

  lemma NamedByStep(pr: Proc, c: Call, at: Key, ino: Ino)
    requires Next(pr.job, pr.pc, c).Some? && Acknowledging(Stepped(pr, c, at, ino).pc)
    ensures Named(c) || Acknowledging(pr.pc)
  {}

  /** How a process comes to acknowledge: by its publishing call, or it already did before. */
  lemma AcknowledgingBefore(s: State, a: Action, p: nat)
    requires Enabled(s, a) && p in After(s, a).procs && Acknowledging(After(s, a).procs[p].pc)
    ensures (a.Do? && a.p == p && Named(a.c)) || (p in s.procs && Acknowledging(s.procs[p].pc))
  {
    if a.Do? && a.p == p {
      NamedByStep(s.procs[p], a.c, a.at, a.ino);
    }
  }

  lemma NotAcknowledgingBefore(s: State, a: Action, p: nat)
    requires Enabled(s, a) && p in After(s, a).procs && !Acknowledging(After(s, a).procs[p].pc)
    ensures !(a.Do? && a.p == p && Named(a.c)) && (p in s.procs ==> !Acknowledging(s.procs[p].pc))
  {}

  lemma PresentStays(s: State, a: Action, p: nat)
    requires Enabled(s, a) && p in s.procs
    ensures p in After(s, a).procs
  {}

  lemma NamingPublishes(first: set<bytes>, ss: seq<State>, acts: seq<Action>, m: nat)
    requires IsRun(first, ss, acts) && m < |acts| && acts[m].Do? && Named(acts[m].c)
    ensures PublishedAt(first, ss, acts, m, acts[m].p, acts[m].at)
  {
    InvAlong(first, ss, acts, m);
    var a := acts[m];
    PublishesSettled(first, ss[m], a.p, a.c, a.at, a.ino);
  }

  lemma {:induction false} AcknowledgedWasNamed(
      first: set<bytes>, ss: seq<State>, acts: seq<Action>, n: nat, p: nat) returns (m: nat)
    requires IsRun(first, ss, acts) && n <= |acts|
    requires p in ss[n].procs && Acknowledging(ss[n].procs[p].pc)
    ensures m < n && acts[m].Do? && acts[m].p == p && Named(acts[m].c)
    decreases n
  {
    assert n != 0;
    var s, a := ss[n - 1], acts[n - 1];
    assert Enabled(s, a) && ss[n] == After(s, a);
    AcknowledgingBefore(s, a, p);
    if a.Do? && a.p == p && Named(a.c) {
      m := n - 1;
    } else {
      m := AcknowledgedWasNamed(first, ss, acts, n - 1, p);
    }
  }

  /** No PUT or COPY is acknowledged before its whole body stood under a name. */
  lemma AcknowledgedWasPublished(first: set<bytes>, ss: seq<State>, acts: seq<Action>, n: nat, p: nat)
    returns (m: nat, at: Key)
    requires IsRun(first, ss, acts) && n <= |acts|
    requires p in ss[n].procs && ss[n].procs[p].pc == Done(None)
    ensures m < n && PublishedAt(first, ss, acts, m, p, at)
  {
    m := AcknowledgedWasNamed(first, ss, acts, n, p);
    NamingPublishes(first, ss, acts, m);
    at := acts[m].at;
  }

  /** An operation that has failed, or not yet come to its publishing call, has bound no name. */
  lemma {:induction false} RefusedWasNotPublished(
      first: set<bytes>, ss: seq<State>, acts: seq<Action>, n: nat, p: nat, m: nat)
    requires IsRun(first, ss, acts) && m < n <= |acts|
    requires p in ss[n].procs ==> !Acknowledging(ss[n].procs[p].pc)
    ensures !(acts[m].Do? && acts[m].p == p && Named(acts[m].c))
    decreases n
  {
    var s, a := ss[n - 1], acts[n - 1];
    if p in ss[n].procs {
      NotAcknowledgingBefore(s, a, p);
    } else if p in s.procs {
      PresentStays(s, a, p);
    }
    if m < n - 1 {
      RefusedWasNotPublished(first, ss, acts, n - 1, p, m);
    }
  }
}
