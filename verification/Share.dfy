/**
 Any number of requests against one shared, crash-prone file system.

 A state holds the directory entries and file contents that running processes see, and beside
 them what a power failure would leave on disk. Every system call of every process is one
 action, and so are the kernel's own moments of writing back a name or some data. Uploads and
 copies follow the automaton of module Publication; MOVE, DELETE and directory creation are
 their single calls. A path may resolve to a different directory at each call, so directories
 may be renamed under a running request.

 Names are pairs of a directory inode and a last component. Inode numbers are not reused, and
 a temporary name carries the number of the one operation that owns it.
 */
module Share {
  import opened Bytes
  import opened Posix
  import opened Publication

  type Ino = nat

  datatype Base = Temp(owner: nat) | Plain(name: bytes)

  datatype Key = Key(dir: Ino, base: Base)

  datatype Node = Dir | File(data: bytes)

  /** `input` is what the client will send on the socket after the head buffer. */
  datatype Proc = Proc(
    job: Job, input: bytes, taken: nat, pc: Pc,
    temp: Option<Key>, ino: Ino, src: Ino, leaked: bool)

  /** A GET in progress: the inode it opened and the bytes it has sent. */
  datatype Reader = Reader(ino: Ino, sent: bytes)

  datatype State = State(
    entries: map<Key, Ino>,      // what running processes see
    nodes: map<Ino, Node>,
    durable: map<Key, Ino>,      // what a crash leaves
    disk: map<Ino, Node>,
    clean: set<Ino>,             // inodes whose data has been fsynced since it last changed
    procs: map<nat, Proc>,
    readers: map<nat, Reader>,
    swept: set<nat>)             // operations whose temporary name somebody else removed

  datatype Action =
    | Begin(p: nat, job: Job, input: bytes)
    | Do(p: nat, c: Call, at: Key, ino: Ino)    // `at`, `ino`: the name and inode the call meets
    | MoveName(from: Key, to: Key)              // the rename of a MOVE
    | RemoveName(k: Key)                        // an unlink or rmdir of a DELETE
    | MakeDir(k: Key, ino: Ino)
    | SyncDirectory(d: Ino)                     // a MOVE's fsync_dir
    | WriteBackName(k: Key)                     // the kernel persists one name when it likes
    | WriteBackData(ino: Ino, junk: bytes)      // and any state of data that is not fsynced
    | OpenReader(r: nat, k: Key)
    | ReadOn(r: nat, n: nat)

  // --- Steps --------------------------------------------------------------------------

  predicate FreeSlot(s: State, k: Key, ino: Ino) {
    k !in s.entries && ino !in s.nodes
  }

  /** The open source file of a copy. */
  predicate Source(s: State, pr: Proc) {
    pr.src in s.nodes && s.nodes[pr.src].File?
  }

  predicate CallEnabled(s: State, p: nat, pr: Proc, c: Call, at: Key, ino: Ino) {
    && (c == Did(Mkdir, None) ==> at.base.Plain? && FreeSlot(s, at, ino))
    && (c == Did(OpenSource, None) ==> at.base.Plain? && at in s.entries && ino == s.entries[at])
    && (c == Did(CheckSource, None) ==> Source(s, pr))
    && (c == Did(OpenTemp, None) ==> at.base == Temp(p) && FreeSlot(s, at, ino))
    && (c == Did(Fsync, None) || c.Put? ==> pr.ino in s.nodes && s.nodes[pr.ino].File?)
    && (c == Did(Link, None) ==> Bound(s, pr.temp) && at.base.Plain? && at !in s.entries)
    && (c == Did(Link, Some(EEXIST)) ==> at in s.entries)
    && (c == Did(Rename, None) ==>
          && Bound(s, pr.temp) && at.base.Plain?
          && (at in s.entries ==> s.entries[at] in s.nodes && s.nodes[s.entries[at]].File?))
    && (c == Did(Unlink, None) ==> Bound(s, pr.temp))
    && (c.Got? && pr.job.Upload? ==>
          pr.taken + |c.data| <= |pr.input| && c.data == pr.input[pr.taken..pr.taken + |c.data|])
    && (c.Got? && pr.job.Duplicate? ==>
          && pr.pc.Filling? && Source(s, pr)
          && |pr.pc.got| + |c.data| <= |s.nodes[pr.src].data|
          && c.data == s.nodes[pr.src].data[|pr.pc.got|..|pr.pc.got| + |c.data|])
    && (c.GotEnd? && pr.job.Upload? ==> pr.taken == |pr.input|)
    && (c.GotEnd? && pr.job.Duplicate? ==>
          pr.pc.Filling? && Source(s, pr) && |pr.pc.got| >= |s.nodes[pr.src].data|)
  }

  predicate Bound(s: State, k: Option<Key>) {
    k.Some? && k.value in s.entries
  }

  predicate Enabled(s: State, a: Action) {
    match a
    case Begin(p, _, _) => p !in s.procs && forall k <- s.entries :: k.base != Temp(p)
    case Do(p, c, at, ino) =>
      && p in s.procs && Next(s.procs[p].job, s.procs[p].pc, c).Some?
      && CallEnabled(s, p, s.procs[p], c, at, ino)
    case MoveName(from, to) => from.base.Plain? && to.base.Plain? && from in s.entries
    case RemoveName(k) => k in s.entries
    case MakeDir(k, ino) => k.base.Plain? && FreeSlot(s, k, ino)
    case SyncDirectory(_) => true
    case WriteBackName(_) => true
    case WriteBackData(ino, _) => ino in s.nodes && s.nodes[ino].File? && ino !in s.clean
    case OpenReader(r, k) => r !in s.readers && k.base.Plain? && k in s.entries
    case ReadOn(r, n) =>
      && r in s.readers && s.readers[r].ino in s.nodes && s.nodes[s.readers[r].ino].File?
      && |s.readers[r].sent| + n <= |s.nodes[s.readers[r].ino].data|
  }

  /** rename(2): nothing happens when both names already are the same file. */
  function Renamed(entries: map<Key, Ino>, from: Key, to: Key): map<Key, Ino>
    requires from in entries
  {
    if to in entries && entries[to] == entries[from] then entries
    else (entries - {from})[to := entries[from]]
  }

  /** What is durable once directory `d` has been fsynced. */
  function Synced(s: State, d: Ino): map<Key, Ino> {
    map k | k in s.durable.Keys + s.entries.Keys && (if k.dir == d then k in s.entries else k in s.durable)
      :: if k.dir == d then s.entries[k] else s.durable[k]
  }

  /** The process after its call, as far as its own program goes. */
  function Stepped(pr: Proc, c: Call, at: Key, ino: Ino): Proc
    requires Next(pr.job, pr.pc, c).Some?
  {
    var next := pr.(pc := Next(pr.job, pr.pc, c).value);
    match c
    case Did(op, err) =>
      if op == OpenTemp && err.None? then next.(temp := Some(at), ino := ino)
      else if op == OpenSource && err.None? then next.(src := ino)
      else if op == Unlink && err.Some? then next.(leaked := true)
      else next
    case Got(data) => if pr.job.Upload? then next.(taken := pr.taken + |data|) else next
    case _ => next
  }

  // The file system after a call of process `pr`, part by part.

  function EntriesAfter(s: State, pr: Proc, c: Call, at: Key, ino: Ino): map<Key, Ino> {
    if c == Did(Mkdir, None) || c == Did(OpenTemp, None) then s.entries[at := ino]
    else if c == Did(Link, None) && Bound(s, pr.temp) then s.entries[at := s.entries[pr.temp.value]]
    else if c == Did(Rename, None) && Bound(s, pr.temp) then Renamed(s.entries, pr.temp.value, at)
    else if c == Did(Unlink, None) && Bound(s, pr.temp) then s.entries - {pr.temp.value}
    else s.entries
  }

  function NodesAfter(s: State, pr: Proc, c: Call, ino: Ino): map<Ino, Node>
    requires c.Put? ==> pr.ino in s.nodes && s.nodes[pr.ino].File?
  {
    if c == Did(Mkdir, None) then s.nodes[ino := Dir]
    else if c == Did(OpenTemp, None) then s.nodes[ino := File([])]
    else if c.Put? then s.nodes[pr.ino := File(s.nodes[pr.ino].data + c.data)]
    else s.nodes
  }

  function Called(s: State, pr: Proc, c: Call, at: Key, ino: Ino): State
    requires c == Did(Fsync, None) || c.Put? ==> pr.ino in s.nodes && s.nodes[pr.ino].File?
  {
    s.(entries := EntriesAfter(s, pr, c, at, ino),
       nodes := NodesAfter(s, pr, c, ino),
       durable := if c == Did(SyncDir, None) then Synced(s, at.dir) else s.durable,
       disk := if c == Did(Fsync, None) then s.disk[pr.ino := s.nodes[pr.ino]] else s.disk,
       clean := if c == Did(Fsync, None) then s.clean + {pr.ino} else s.clean)
  }

  function After(s: State, a: Action): State
    requires Enabled(s, a)
  {
    match a
    case Begin(p, job, input) =>
      s.(procs := s.procs[p := Proc(job, input, 0, Start(job), None, 0, 0, false)])
    case Do(p, c, at, ino) =>
      var pr := s.procs[p];
      Called(s, pr, c, at, ino).(procs := s.procs[p := Stepped(pr, c, at, ino)])
    case MoveName(from, to) => s.(entries := Renamed(s.entries, from, to))
    case RemoveName(k) =>
      s.(entries := s.entries - {k}, swept := if k.base.Temp? then s.swept + {k.base.owner} else s.swept)
    case MakeDir(k, ino) => s.(entries := s.entries[k := ino], nodes := s.nodes[ino := Dir])
    case SyncDirectory(d) => s.(durable := Synced(s, d))
    case WriteBackName(k) =>
      s.(durable := if k in s.entries then s.durable[k := s.entries[k]] else s.durable - {k})
    case WriteBackData(ino, junk) => s.(disk := s.disk[ino := File(junk)])
    case OpenReader(r, k) => s.(readers := s.readers[r := Reader(s.entries[k], [])])
    case ReadOn(r, n) =>
      var Reader(ino, sent) := s.readers[r];
      s.(readers := s.readers[r := Reader(ino, sent + s.nodes[ino].data[|sent|..|sent| + n])])
  }

  // --- The invariant ------------------------------------------------------------------

  /** `data` is everything some client set out to upload. */
  predicate IsUploadOf(pr: Proc, data: bytes) {
    && pr.job.Upload? && |pr.job.head| + |pr.input| >= pr.job.length
    && data == Body(pr.job.head, pr.input, pr.job.length)
  }

  /** A complete body: a file's from before, or one whole upload. */
  ghost predicate Complete(first: set<bytes>, procs: map<nat, Proc>, data: bytes) {
    data in first || exists p :: p in procs && IsUploadOf(procs[p], data)
  }

  /** A directory, or a file whose bytes are complete and safely on disk. */
  ghost predicate Settled(first: set<bytes>, s: State, i: Ino) {
    && i in s.nodes
    && (s.nodes[i].File? ==> i in s.clean && Complete(first, s.procs, s.nodes[i].data))
  }

  ghost predicate SettledFile(first: set<bytes>, s: State, i: Ino) {
    Settled(first, s, i) && s.nodes[i].File?
  }

  ghost predicate CleanOk(s: State) {
    forall i <- s.clean :: i in s.nodes && i in s.disk && s.disk[i] == s.nodes[i]
  }

  ghost predicate NamesOk(first: set<bytes>, s: State) {
    && (forall k <- s.entries :: k.base.Plain? ==> Settled(first, s, s.entries[k]))
    && (forall k <- s.durable :: k.base.Plain? ==> Settled(first, s, s.durable[k]))
  }

  /** `got` is the whole of what `pr` has to publish: its client's body, or its source file. */
  ghost predicate Full(first: set<bytes>, s: State, pr: Proc, got: bytes) {
    if pr.job.Upload? then IsUploadOf(pr, got)
    else SettledFile(first, s, pr.src) && got == s.nodes[pr.src].data
  }

  /** `got` is what the source of `pr` holds, as far as it has been taken. */
  predicate Taken(s: State, pr: Proc, got: bytes) {
    if pr.job.Upload? then
      && pr.taken <= |pr.input| && got == Head(pr.job) + pr.input[..pr.taken]
      && |got| <= pr.job.length
    else
      pr.src in s.nodes && s.nodes[pr.src].File? && got <= s.nodes[pr.src].data
  }

  predicate HoldsTemp(pc: Pc) {
    || pc.Filling? || pc.Draining? || pc.Syncing? || pc.Closing? || pc.Publishing?
    || pc.Unlinking? || pc.Failing? || pc.Dropping?
  }

  /** The temporary file holds exactly `data`. */
  predicate Holds(s: State, pr: Proc, data: bytes) {
    pr.ino in s.nodes && s.nodes[pr.ino] == File(data)
  }

  ghost predicate ProcOk(first: set<bytes>, s: State, pr: Proc) {
    && (pr.temp.Some? ==> pr.ino in s.nodes && s.nodes[pr.ino].File?)
    && (HoldsTemp(pr.pc) ==> pr.temp.Some?)
    && match pr.pc
       case Opening => pr.temp.None? && pr.taken == 0
       case Checking => pr.temp.None? && pr.taken == 0 && Settled(first, s, pr.src)
       case Making => pr.temp.None? && pr.taken == 0 && (pr.job.Duplicate? ==> SettledFile(first, s, pr.src))
       case Leaving(_) => pr.temp.None?
       case Filling(got, pending) =>
         && Taken(s, pr, got) && (pr.job.Duplicate? ==> SettledFile(first, s, pr.src))
         && pr.ino !in s.clean && pr.ino in s.nodes && s.nodes[pr.ino].File?
         && s.nodes[pr.ino].data + pending == got
       case Draining(got) => pr.ino !in s.clean && Holds(s, pr, got) && Full(first, s, pr, got)
       case Syncing(got) => pr.ino !in s.clean && Holds(s, pr, got) && Full(first, s, pr, got)
       case Closing(got) => pr.ino in s.clean && Holds(s, pr, got) && Full(first, s, pr, got)
       case Publishing(got) => pr.ino in s.clean && Holds(s, pr, got) && Full(first, s, pr, got)
       case _ => true
  }

  ghost predicate ProcsOk(first: set<bytes>, s: State) {
    forall p <- s.procs :: ProcOk(first, s, s.procs[p])
  }

  /** No two operations write the same inode. */
  ghost predicate Apart(s: State) {
    forall p, q :: p in s.procs && q in s.procs && p != q && s.procs[p].temp.Some? && s.procs[q].temp.Some?
      ==> s.procs[p].ino != s.procs[q].ino
  }

  /** A temporary name is there exactly while its operation is under way: it may stay behind
      only if the final unlink failed, and be missing only if somebody else removed it. */
  ghost predicate TempsOk(s: State) {
    && (forall k <- s.entries :: k.base.Temp? && k.base.owner in s.procs ==>
          var pr := s.procs[k.base.owner];
          pr.temp == Some(k) && s.entries[k] == pr.ino && (HoldsTemp(pr.pc) || pr.leaked))
    && (forall p <- s.procs :: HoldsTemp(s.procs[p].pc) ==>
          && s.procs[p].temp.Some? && s.procs[p].temp.value.base == Temp(p)
          && (Bound(s, s.procs[p].temp) || p in s.swept))
  }

  /** Still writing or about to publish. */
  predicate Private(pc: Pc) {
    pc.Filling? || pc.Draining? || pc.Syncing? || pc.Closing? || pc.Publishing?
  }

  /** No ordinary name leads to a file before it is published. */
  ghost predicate HiddenOk(s: State) {
    forall k, p :: k in s.entries && p in s.procs && k.base.Plain? && Private(s.procs[p].pc) && s.procs[p].temp.Some?
      ==> s.entries[k] != s.procs[p].ino
  }

  ghost predicate ReadersOk(first: set<bytes>, s: State) {
    forall r <- s.readers ::
      && Settled(first, s, s.readers[r].ino)
      && (s.nodes[s.readers[r].ino].File? ==> s.readers[r].sent <= s.nodes[s.readers[r].ino].data)
      && (s.nodes[s.readers[r].ino].Dir? ==> s.readers[r].sent == [])
  }

  ghost predicate Inv(first: set<bytes>, s: State) {
    CleanOk(s) && NamesOk(first, s) && ProcsOk(first, s) && Apart(s) && TempsOk(s) && HiddenOk(s) && ReadersOk(first, s)
  }

  /** The share before the daemon starts: whatever files, all on disk, and nobody at work. */
  ghost predicate Init(first: set<bytes>, s: State) {
    && s.procs == map[] && s.readers == map[] && s.swept == {}
    && CleanOk(s) && s.durable == s.entries
    && forall k <- s.entries :: k.base.Plain? ==>
         && s.entries[k] in s.nodes
         && (s.nodes[s.entries[k]].File? ==> s.entries[k] in s.clean && s.nodes[s.entries[k]].data in first)
  }

  // --- One step -----------------------------------------------------------------------

  /** What no step ever takes back. */
  ghost predicate FilesExtend(s: State, s': State) {
    && (forall i <- s.nodes :: i in s'.nodes && s'.nodes[i].File? == s.nodes[i].File?)
    && (forall i <- s.clean :: i in s.nodes ==> i in s'.clean && s'.nodes[i] == s.nodes[i])
  }

  ghost predicate Extends(s: State, s': State) {
    && FilesExtend(s, s')
    && (forall p <- s.procs ::
          p in s'.procs && s'.procs[p].job == s.procs[p].job && s'.procs[p].input == s.procs[p].input)
  }

  lemma SteppedKeeps(pr: Proc, c: Call, at: Key, ino: Ino)
    requires Next(pr.job, pr.pc, c).Some?
    ensures var pr' := Stepped(pr, c, at, ino);
            && pr'.job == pr.job && pr'.input == pr.input
            && pr'.pc == Next(pr.job, pr.pc, c).value
  {}

  /** The calls that touch a file's bytes come in their place. */
  lemma WritesInTurn(first: set<bytes>, s: State, pr: Proc, c: Call)
    requires ProcOk(first, s, pr) && Next(pr.job, pr.pc, c).Some?
    ensures c.Put? ==> pr.pc.Filling? && pr.ino !in s.clean
    ensures c.Did? && c.op == Fsync ==> (pr.pc.Filling? || pr.pc.Syncing?) && pr.ino !in s.clean
  {}

  lemma CalledExtends(s: State, p: nat, pr: Proc, c: Call, at: Key, ino: Ino)
    requires CallEnabled(s, p, pr, c, at, ino)
    requires c.Put? ==> pr.ino !in s.clean
    requires CleanOk(s)
    ensures FilesExtend(s, Called(s, pr, c, at, ino))
    ensures CleanOk(Called(s, pr, c, at, ino))
  {}

  lemma OtherExtends(s: State, a: Action)
    requires CleanOk(s) && Enabled(s, a) && !a.Do?
    ensures Extends(s, After(s, a)) && CleanOk(After(s, a))
  {}

  lemma DoExtends(first: set<bytes>, s: State, p: nat, c: Call, at: Key, ino: Ino)
    requires CleanOk(s) && Enabled(s, Do(p, c, at, ino)) && ProcOk(first, s, s.procs[p])
    ensures Extends(s, After(s, Do(p, c, at, ino))) && CleanOk(After(s, Do(p, c, at, ino)))
  {
    var pr := s.procs[p];
    WritesInTurn(first, s, pr, c);
    CalledExtends(s, p, pr, c, at, ino);
    SteppedKeeps(pr, c, at, ino);
  }

  lemma StepExtends(first: set<bytes>, s: State, a: Action)
    requires Inv(first, s) && Enabled(s, a)
    ensures Extends(s, After(s, a)) && CleanOk(After(s, a))
  {
    if a.Do? {
      assert ProcOk(first, s, s.procs[a.p]);
      DoExtends(first, s, a.p, a.c, a.at, a.ino);
    } else {
      OtherExtends(s, a);
    }
  }

  lemma CompleteStays(first: set<bytes>, s: State, s': State, data: bytes)
    requires Extends(s, s') && Complete(first, s.procs, data)
    ensures Complete(first, s'.procs, data)
  {
    if data !in first {
      var p :| p in s.procs && IsUploadOf(s.procs[p], data);
      assert IsUploadOf(s'.procs[p], data);
    }
  }

  lemma SettledStays(first: set<bytes>, s: State, s': State, i: Ino)
    requires Extends(s, s') && Settled(first, s, i)
    ensures Settled(first, s', i) && (s.nodes[i].File? ==> s'.nodes[i] == s.nodes[i])
  {
    if s.nodes[i].File? {
      CompleteStays(first, s, s', s.nodes[i].data);
    }
  }

  lemma FullStays(first: set<bytes>, s: State, s': State, pr: Proc, got: bytes)
    requires Extends(s, s') && Full(first, s, pr, got)
    ensures Full(first, s', pr, got)
  {
    if pr.job.Duplicate? {
      SettledStays(first, s, s', pr.src);
    }
  }

  lemma FullIsComplete(first: set<bytes>, s: State, p: nat, got: bytes)
    requires p in s.procs && Full(first, s, s.procs[p], got)
    ensures Complete(first, s.procs, got)
  {
    if s.procs[p].job.Upload? {
      assert IsUploadOf(s.procs[p], got);
    }
  }

  /** A call that publishes does so with a complete, fsynced file of the process's own. */
  lemma PublishesSettled(first: set<bytes>, s: State, p: nat, c: Call, at: Key, ino: Ino)
    requires Inv(first, s) && Enabled(s, Do(p, c, at, ino))
    requires Named(c)
    ensures var pr := s.procs[p];
            && pr.pc.Publishing? && Bound(s, pr.temp) && pr.temp.value.base == Temp(p)
            && s.entries[pr.temp.value] == pr.ino && SettledFile(first, s, pr.ino)
            && s.nodes[pr.ino].data == pr.pc.got && Full(first, s, pr, pr.pc.got)
  {
    assert ProcOk(first, s, s.procs[p]);
    FullIsComplete(first, s, p, s.procs[p].pc.got);
  }

  lemma EntryOrigin(first: set<bytes>, s: State, a: Action, k: Key)
    requires Inv(first, s) && Enabled(s, a) && k.base.Plain? && k in After(s, a).entries
    ensures var i := After(s, a).entries[k];
            Settled(first, s, i) || (i in After(s, a).nodes && After(s, a).nodes[i].Dir?)
  {
    match a
    case Do(p, c, at, ino) =>
      if Named(c) {
        PublishesSettled(first, s, p, c, at, ino);
      }
    case _ =>
  }

  lemma DurableOrigin(s: State, a: Action, k: Key)
    requires Enabled(s, a) && k in After(s, a).durable
    ensures (k in s.durable && After(s, a).durable[k] == s.durable[k])
            || (k in s.entries && After(s, a).durable[k] == s.entries[k])
  {
    if a.Do? {
      assert After(s, a).durable == Called(s, s.procs[a.p], a.c, a.at, a.ino).durable;
    }
  }

  lemma NamesKept(first: set<bytes>, s: State, a: Action)
    requires Inv(first, s) && Enabled(s, a)
    ensures NamesOk(first, After(s, a))
  {
    var s' := After(s, a);
    StepExtends(first, s, a);
    forall k <- s'.entries | k.base.Plain?
      ensures Settled(first, s', s'.entries[k])
    {
      EntryOrigin(first, s, a, k);
      if Settled(first, s, s'.entries[k]) {
        SettledStays(first, s, s', s'.entries[k]);
      }
    }
    forall k <- s'.durable | k.base.Plain?
      ensures Settled(first, s', s'.durable[k])
    {
      DurableOrigin(s, a, k);
      SettledStays(first, s, s', s'.durable[k]);
    }
  }

  lemma ReadersKept(first: set<bytes>, s: State, a: Action)
    requires Inv(first, s) && Enabled(s, a)
    ensures ReadersOk(first, After(s, a))
  {
    var s' := After(s, a);
    StepExtends(first, s, a);
    forall r <- s'.readers
      ensures Settled(first, s', s'.readers[r].ino)
      ensures s'.nodes[s'.readers[r].ino].File? ==> s'.readers[r].sent <= s'.nodes[s'.readers[r].ino].data
      ensures s'.nodes[s'.readers[r].ino].Dir? ==> s'.readers[r].sent == []
    {
      ReaderKept(first, s, a, r);
    }
  }

  lemma ReaderKept(first: set<bytes>, s: State, a: Action, r: nat)
    requires Inv(first, s) && Enabled(s, a) && r in After(s, a).readers && Extends(s, After(s, a))
    ensures var s' := After(s, a); var reader := s'.readers[r];
            && Settled(first, s', reader.ino)
            && (s'.nodes[reader.ino].File? ==> reader.sent <= s'.nodes[reader.ino].data)
            && (s'.nodes[reader.ino].Dir? ==> reader.sent == [])
  {
    var s' := After(s, a);
    if r in s.readers {
      assert s'.readers[r].ino == s.readers[r].ino;
    }
    SettledStays(first, s, s', s'.readers[r].ino);
  }

  /** A process whose own file is left alone stays as it should be. */
  lemma ProcStays(first: set<bytes>, s: State, s': State, pr: Proc)
    requires Extends(s, s') && ProcOk(first, s, pr)
    requires pr.temp.Some? ==> s'.nodes[pr.ino] == s.nodes[pr.ino] && (pr.ino in s'.clean <==> pr.ino in s.clean)
    ensures ProcOk(first, s', pr)
  {
    match pr.pc
    case Checking => SettledStays(first, s, s', pr.src);
    case Making => if pr.job.Duplicate? { SettledStays(first, s, s', pr.src); }
    case Filling(got, _) => if pr.job.Duplicate? { SettledStays(first, s, s', pr.src); }
    case Draining(got) => FullStays(first, s, s', pr, got);
    case Syncing(got) => FullStays(first, s, s', pr, got);
    case Closing(got) => FullStays(first, s, s', pr, got);
    case Publishing(got) => FullStays(first, s, s', pr, got);
    case _ =>
  }

  /** An upload that has taken its whole length holds the whole body. */
  lemma FullUpload(first: set<bytes>, s: State, pr: Proc, got: bytes)
    requires pr.job.Upload? && Taken(s, pr, got) && |got| == pr.job.length
    ensures Full(first, s, pr, got)
  {
    BodyOfParts(pr.job, pr.input, pr.input[..pr.taken]);
  }

  /** A read goes on where the last one stopped. */
  lemma TakenMore(s: State, pr: Proc, data: bytes, at: Key, ino: Ino)
    requires pr.pc.Filling? && Taken(s, pr, pr.pc.got) && CallEnabled(s, 0, pr, Got(data), at, ino)
    requires pr.job.Upload? ==> |pr.pc.got| + |data| <= pr.job.length
    ensures Taken(s, AfterRead(pr, data), pr.pc.got + data)
  {
    if pr.job.Upload? {
      var taken := pr.input[..pr.taken];
      assert taken + data == pr.input[..pr.taken + |data|];
      assert Head(pr.job) + taken + data == Head(pr.job) + (taken + data);
    } else {
      var source, n := s.nodes[pr.src].data, |pr.pc.got|;
      assert source[..n] + source[n..n + |data|] == source[..n + |data|];
    }
  }

  /** The bookkeeping of a read. */
  function AfterRead(pr: Proc, data: bytes): Proc {
    pr.(taken := if pr.job.Upload? then pr.taken + |data| else pr.taken)
  }

  lemma OwnRead(first: set<bytes>, s: State, s': State, pr: Proc, data: bytes, at: Key, ino: Ino)
    requires ProcOk(first, s, pr) && Extends(s, s') && Next(pr.job, pr.pc, Got(data)).Some?
    requires CallEnabled(s, 0, pr, Got(data), at, ino)
    requires s'.clean == s.clean && s'.nodes == s.nodes
    ensures ProcOk(first, s', Stepped(pr, Got(data), at, ino))
  {
    var got, pr' := pr.pc.got, Stepped(pr, Got(data), at, ino);
    assert pr.pc.pending == [] && pr'.pc == Filling(got + data, data);
    assert s.nodes[pr.ino].data + [] == s.nodes[pr.ino].data;
    TakenMore(s, pr, data, at, ino);
    assert Taken(s', pr', got + data);
    if pr.job.Duplicate? {
      SettledStays(first, s, s', pr.src);
    }
  }

  lemma OwnWrite(first: set<bytes>, s: State, s': State, pr: Proc, data: bytes)
    requires ProcOk(first, s, pr) && Extends(s, s') && Next(pr.job, pr.pc, Put(data)).Some?
    requires s'.clean == s.clean && s'.nodes == s.nodes[pr.ino := File(s.nodes[pr.ino].data + data)]
    ensures ProcOk(first, s', pr.(pc := Next(pr.job, pr.pc, Put(data)).value))
  {
    if pr.job.Duplicate? {
      SettledStays(first, s, s', pr.src);
    }
    assert pr.pc.pending == data + pr.pc.pending[|data|..];
  }

  lemma OwnOther(first: set<bytes>, s: State, s': State, pr: Proc, c: Call, at: Key, ino: Ino)
    requires ProcOk(first, s, pr) && Extends(s, s') && Next(pr.job, pr.pc, c).Some?
    requires c.GotEnd? || c.GotError? || c.PutError?
    requires CallEnabled(s, 0, pr, c, at, ino)
    requires s'.clean == s.clean && s'.nodes == s.nodes
    ensures ProcOk(first, s', pr.(pc := Next(pr.job, pr.pc, c).value))
  {
    if pr.job.Duplicate? {
      SettledStays(first, s, s', pr.src);
      if c.GotEnd? {
        assert pr.pc.got == s.nodes[pr.src].data;
      }
    }
  }

  lemma OwnStart(first: set<bytes>, s: State, s': State, pr: Proc, op: Op, err: Option<Errno>, at: Key, ino: Ino)
    requires ProcOk(first, s, pr) && Extends(s, s') && Turn(pr.job, pr.pc, op)
    requires pr.pc.Opening? || pr.pc.Checking? || pr.pc.Making? || pr.pc.Leaving?
    requires pr.pc.Opening? && err.None? ==> Settled(first, s, ino)
    requires pr.pc.Checking? && err.None? ==> Source(s, pr)
    requires op == OpenTemp && err.None? ==>
               ino !in s.nodes && ino !in s.clean && s'.nodes == s.nodes[ino := File([])] && s'.clean == s.clean
    ensures ProcOk(first, s', Stepped(pr, Did(op, err), at, ino))
  {
    if pr.pc.Opening? {
      if err.None? {
        SettledStays(first, s, s', ino);
      }
    } else if pr.pc.Checking? || (pr.pc.Making? && pr.job.Duplicate?) {
      SettledStays(first, s, s', pr.src);
    }
    if pr.pc.Making? {
      assert Head(pr.job) + pr.input[..0] == Head(pr.job) == [] + Head(pr.job);
    }
  }

  lemma OwnFsync(first: set<bytes>, s: State, s': State, pr: Proc, err: Option<Errno>, at: Key, ino: Ino)
    requires ProcOk(first, s, pr) && Extends(s, s') && Turn(pr.job, pr.pc, Fsync)
    requires Full(first, s, pr, pr.pc.got)
    requires s'.nodes == s.nodes && (err.None? ==> s'.clean == s.clean + {pr.ino})
    ensures ProcOk(first, s', Stepped(pr, Did(Fsync, err), at, ino))
  {
    FullStays(first, s, s', pr, pr.pc.got);
  }

  lemma OwnFinish(first: set<bytes>, s: State, s': State, pr: Proc, op: Op, err: Option<Errno>, at: Key, ino: Ino)
    requires ProcOk(first, s, pr) && Extends(s, s') && Turn(pr.job, pr.pc, op)
    requires HoldsTemp(pr.pc) || pr.pc.SyncingDir?
    requires op != Fsync && s'.nodes == s.nodes && s'.clean == s.clean
    ensures ProcOk(first, s', Stepped(pr, Did(op, err), at, ino))
  {
    if pr.pc.Draining? || pr.pc.Closing? {
      FullStays(first, s, s', pr, pr.pc.got);
    }
  }

  lemma OwnStep(first: set<bytes>, s: State, p: nat, c: Call, at: Key, ino: Ino)
    requires Inv(first, s) && Enabled(s, Do(p, c, at, ino))
    ensures var s' := After(s, Do(p, c, at, ino)); ProcOk(first, s', s'.procs[p])
  {
    if c.Did? {
      OwnCall(first, s, p, c, at, ino);
    } else {
      OwnTransfer(first, s, p, c, at, ino);
    }
  }

  lemma OwnTransfer(first: set<bytes>, s: State, p: nat, c: Call, at: Key, ino: Ino)
    requires Inv(first, s) && Enabled(s, Do(p, c, at, ino)) && !c.Did?
    ensures var s' := After(s, Do(p, c, at, ino)); ProcOk(first, s', s'.procs[p])
  {
    var pr, s' := s.procs[p], After(s, Do(p, c, at, ino));
    StepExtends(first, s, Do(p, c, at, ino));
    assert ProcOk(first, s, pr);
    match c
    case Got(data) => OwnRead(first, s, s', pr, data, at, ino);
    case Put(data) => OwnWrite(first, s, s', pr, data);
    case _ => OwnOther(first, s, s', pr, c, at, ino);
  }

  lemma OwnCall(first: set<bytes>, s: State, p: nat, c: Call, at: Key, ino: Ino)
    requires Inv(first, s) && Enabled(s, Do(p, c, at, ino)) && c.Did?
    ensures var s' := After(s, Do(p, c, at, ino)); ProcOk(first, s', s'.procs[p])
  {
    var pr, s' := s.procs[p], After(s, Do(p, c, at, ino));
    StepExtends(first, s, Do(p, c, at, ino));
    assert ProcOk(first, s, pr);
    assert pr.pc.Opening? && c.err.None? ==> Settled(first, s, ino);
    OwnDid(first, s, s', p, pr, c.op, c.err, at, ino);
  }

  lemma OwnDid(first: set<bytes>, s: State, s': State, p: nat, pr: Proc, op: Op, err: Option<Errno>, at: Key, ino: Ino)
    requires CleanOk(s) && ProcOk(first, s, pr) && Extends(s, s') && p in s.procs && pr == s.procs[p]
    requires Turn(pr.job, pr.pc, op) && CallEnabled(s, p, pr, Did(op, err), at, ino)
    requires pr.pc.Opening? && err.None? ==> Settled(first, s, ino)
    requires s'.nodes == NodesAfter(s, pr, Did(op, err), ino)
    requires s'.clean == if op == Fsync && err.None? then s.clean + {pr.ino} else s.clean
    ensures ProcOk(first, s', Stepped(pr, Did(op, err), at, ino))
  {
    if pr.pc.Opening? || pr.pc.Checking? || pr.pc.Making? || pr.pc.Leaving? {
      OwnStart(first, s, s', pr, op, err, at, ino);
    } else if op == Fsync {
      if pr.pc.Filling? {
        FullUpload(first, s, pr, pr.pc.got);
      }
      OwnFsync(first, s, s', pr, err, at, ino);
    } else {
      OwnFinish(first, s, s', pr, op, err, at, ino);
    }
  }

  lemma ProcsKept(first: set<bytes>, s: State, a: Action)
    requires Inv(first, s) && Enabled(s, a)
    ensures ProcsOk(first, After(s, a))
  {
    var s' := After(s, a);
    StepExtends(first, s, a);
    forall p <- s'.procs
      ensures ProcOk(first, s', s'.procs[p])
    {
      if a.Do? && a.p == p {
        OwnStep(first, s, p, a.c, a.at, a.ino);
      } else if p in s.procs {
        OthersLeaveFileAlone(first, s, a, p);
        ProcStays(first, s, s', s.procs[p]);
      }
    }
  }

  lemma OthersLeaveFileAlone(first: set<bytes>, s: State, a: Action, p: nat)
    requires Inv(first, s) && Enabled(s, a) && p in s.procs && !(a.Do? && a.p == p)
    ensures var pr, s' := s.procs[p], After(s, a);
            && p in s'.procs && s'.procs[p] == pr
            && (pr.temp.Some? ==> s'.nodes[pr.ino] == s.nodes[pr.ino] && (pr.ino in s'.clean <==> pr.ino in s.clean))
  {
    assert ProcOk(first, s, s.procs[p]);
    if a.Do? && (a.c.Put? || a.c == Did(Fsync, None)) {
      assert ProcOk(first, s, s.procs[a.p]);
      assert s.procs[a.p].temp.Some?;
    }
  }

  lemma ApartKept(first: set<bytes>, s: State, a: Action)
    requires Inv(first, s) && Enabled(s, a)
    ensures Apart(After(s, a))
  {
    var s' := After(s, a);
    forall p, q | p in s'.procs && q in s'.procs && p != q && s'.procs[p].temp.Some? && s'.procs[q].temp.Some?
      ensures s'.procs[p].ino != s'.procs[q].ino
    {
      InodeOrigin(first, s, a, p);
      InodeOrigin(first, s, a, q);
    }
  }

  /** A process's inode is the one it had, or a new one it has just created. */
  lemma InodeOrigin(first: set<bytes>, s: State, a: Action, p: nat)
    requires Inv(first, s) && Enabled(s, a) && p in After(s, a).procs && After(s, a).procs[p].temp.Some?
    ensures p in s.procs
    ensures var i := After(s, a).procs[p].ino;
            || (s.procs[p].temp.Some? && s.procs[p].ino == i && i in s.nodes)
            || (a.Do? && a.p == p && i !in s.nodes)
  {
    if p in s.procs {
      assert ProcOk(first, s, s.procs[p]);
    }
  }

  /** What a call by `p` does to names: only its own temporary name can go, only `at` can come. */
  lemma NamesByCall(first: set<bytes>, s: State, p: nat, c: Call, at: Key, ino: Ino, k: Key)
    requires Inv(first, s) && Enabled(s, Do(p, c, at, ino))
    ensures var s' := After(s, Do(p, c, at, ino));
            && (k != at && k.base != Temp(p) ==> (k in s'.entries <==> k in s.entries))
            && (k != at && k in s'.entries ==> k in s.entries && s'.entries[k] == s.entries[k])
            && (k == at && k in s'.entries && k.base.Temp? && k !in s.entries ==> c == Did(OpenTemp, None))
            && (k == at && k in s.entries ==> k in s'.entries || k.base == Temp(p))
  {
    if Named(c) {
      PublishesSettled(first, s, p, c, at, ino);
    }
  }

  lemma OwnTempName(s: State, p: nat, pr: Proc, c: Call, at: Key, ino: Ino, k: Key)
    requires CallEnabled(s, p, pr, c, at, ino) && Next(pr.job, pr.pc, c).Some?
    requires k.base == Temp(p) && k in EntriesAfter(s, pr, c, at, ino)
    requires k in s.entries ==> pr.temp == Some(k) && s.entries[k] == pr.ino && (HoldsTemp(pr.pc) || pr.leaked)
    requires pr.pc.Making? ==> pr.temp.None?
    requires Named(c) ==> at.base.Plain? && Bound(s, pr.temp)
                          && (at in s.entries ==> s.entries[at] != s.entries[pr.temp.value])
    ensures var pr' := Stepped(pr, c, at, ino);
            && pr'.temp == Some(k) && EntriesAfter(s, pr, c, at, ino)[k] == pr'.ino
            && (HoldsTemp(pr'.pc) || pr'.leaked)
  {}

  lemma OwnTempHeld(s: State, p: nat, pr: Proc, c: Call, at: Key, ino: Ino)
    requires CallEnabled(s, p, pr, c, at, ino) && Next(pr.job, pr.pc, c).Some?
    requires HoldsTemp(pr.pc) ==>
               pr.temp.Some? && pr.temp.value.base == Temp(p) && (Bound(s, pr.temp) || p in s.swept)
    ensures var pr' := Stepped(pr, c, at, ino);
            HoldsTemp(pr'.pc) ==>
              && pr'.temp.Some? && pr'.temp.value.base == Temp(p)
              && (pr'.temp.value in EntriesAfter(s, pr, c, at, ino) || p in s.swept)
  {}

  lemma TempsKept(first: set<bytes>, s: State, a: Action)
    requires Inv(first, s) && Enabled(s, a)
    ensures TempsOk(After(s, a))
  {
    var s' := After(s, a);
    forall k <- s'.entries | k.base.Temp? && k.base.owner in s'.procs
      ensures var pr := s'.procs[k.base.owner];
              pr.temp == Some(k) && s'.entries[k] == pr.ino && (HoldsTemp(pr.pc) || pr.leaked)
    {
      TempNameKept(first, s, a, k);
    }
    forall p <- s'.procs | HoldsTemp(s'.procs[p].pc)
      ensures s'.procs[p].temp.Some? && s'.procs[p].temp.value.base == Temp(p)
      ensures Bound(s', s'.procs[p].temp) || p in s'.swept
    {
      TempHeldKept(first, s, a, p);
    }
  }

  lemma TempNameKept(first: set<bytes>, s: State, a: Action, k: Key)
    requires Inv(first, s) && Enabled(s, a)
    requires k in After(s, a).entries && k.base.Temp? && k.base.owner in After(s, a).procs
    ensures var pr := After(s, a).procs[k.base.owner];
            pr.temp == Some(k) && After(s, a).entries[k] == pr.ino && (HoldsTemp(pr.pc) || pr.leaked)
  {
    if a.Do? && a.p == k.base.owner {
      if Named(a.c) {
        PublishesSettled(first, s, a.p, a.c, a.at, a.ino);
      }
      assert ProcOk(first, s, s.procs[a.p]);
      OwnTempName(s, a.p, s.procs[a.p], a.c, a.at, a.ino, k);
    } else if a.Do? {
      NamesByCall(first, s, a.p, a.c, a.at, a.ino, k);
    }
  }

  lemma TempHeldKept(first: set<bytes>, s: State, a: Action, p: nat)
    requires Inv(first, s) && Enabled(s, a)
    requires p in After(s, a).procs && HoldsTemp(After(s, a).procs[p].pc)
    ensures var pr := After(s, a).procs[p];
            && pr.temp.Some? && pr.temp.value.base == Temp(p)
            && (Bound(After(s, a), pr.temp) || p in After(s, a).swept)
  {
    if a.Do? && a.p == p {
      OwnTempHeld(s, p, s.procs[p], a.c, a.at, a.ino);
    } else if a.Do? {
      NamesByCall(first, s, a.p, a.c, a.at, a.ino, s.procs[p].temp.value);
    }
  }

  lemma PrivateBefore(pr: Proc, c: Call, at: Key, ino: Ino)
    requires Next(pr.job, pr.pc, c).Some? && Private(Stepped(pr, c, at, ino).pc)
    ensures !Named(c)
    ensures c != Did(OpenTemp, None) ==> Private(pr.pc) && Stepped(pr, c, at, ino).ino == pr.ino
  {}

  lemma HiddenKept(first: set<bytes>, s: State, a: Action)
    requires Inv(first, s) && Enabled(s, a)
    ensures HiddenOk(After(s, a))
  {
    var s' := After(s, a);
    forall k, p | k in s'.entries && p in s'.procs && k.base.Plain? && Private(s'.procs[p].pc) && s'.procs[p].temp.Some?
      ensures s'.entries[k] != s'.procs[p].ino
    {
      InodeOrigin(first, s, a, p);
      if a.Do? {
        HiddenFromCall(first, s, a, k, p);
      }
    }
  }

  lemma HiddenFromCall(first: set<bytes>, s: State, a: Action, k: Key, p: nat)
    requires Inv(first, s) && Enabled(s, a) && a.Do? && p in s.procs
    requires var s' := After(s, a);
             k in s'.entries && k.base.Plain? && Private(s'.procs[p].pc) && s'.procs[p].temp.Some?
    ensures After(s, a).entries[k] != After(s, a).procs[p].ino
  {
    InodeOrigin(first, s, a, p);
    NamesByCall(first, s, a.p, a.c, a.at, a.ino, k);
    if a.p == p {
      PrivateBefore(s.procs[p], a.c, a.at, a.ino);
      assert ProcOk(first, s, s.procs[p]);
    } else if Named(a.c) {
      PublishesSettled(first, s, a.p, a.c, a.at, a.ino);
      assert HoldsTemp(s.procs[a.p].pc);
    }
  }

  /** Every step of every process and of the kernel keeps the invariant. */
  lemma InvStep(first: set<bytes>, s: State, a: Action)
    requires Inv(first, s) && Enabled(s, a)
    ensures Inv(first, After(s, a))
  {
    StepExtends(first, s, a);
    NamesKept(first, s, a);
    ProcsKept(first, s, a);
    ApartKept(first, s, a);
    TempsKept(first, s, a);
    HiddenKept(first, s, a);
    ReadersKept(first, s, a);
  }
}
