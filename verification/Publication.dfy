/**
 How one process publishes a file: fsapi_write_stream and fsapi_copy (src/core/fsapi.c).

 `Next` says which system call may follow which, with which outcome; `Trail` is where a whole
 trace of calls leads. The two methods at the end are the C functions, loops and clean-up
 labels included, and are proved to make only traces that `Next` accepts. The module Share
 then runs any number of these automata against one file system.
 */
module Publication {
  import opened Bytes
  import opened Posix

  const IOBUF: nat := 65536
  const PATHMAX: nat := 4096

  /** `head` is the part of the body that the head reader already holds. */
  datatype Job = Upload(head: bytes, length: nat, excl: bool) | Duplicate

  datatype Op =
    | OpenSource | CheckSource | CloseSource
    | Mkdir | OpenTemp | Fsync | CloseTemp | Link | Rename | Unlink | SyncDir

  datatype Call =
    | Did(op: Op, err: Option<Errno>)   // CheckSource is fstat, with EISDIR for a directory
    | Got(data: bytes)                  // read gave these bytes
    | GotEnd                            // read gave end of file
    | GotError(e: Errno)
    | Put(data: bytes)                  // these bytes landed in the temporary file
    | PutError(e: Errno)

  datatype Pc =
    | Opening                                // COPY has not opened its source yet
    | Checking
    | Making                                 // creating parents, then the temporary file
    | Filling(got: bytes, pending: bytes)    // taken from the source so far; not yet written
    | Draining(got: bytes)                   // COPY saw the end of its source
    | Syncing(got: bytes)
    | Closing(got: bytes)
    | Publishing(got: bytes)
    | Unlinking(got: bytes)
    | SyncingDir(got: bytes)
    | Failing(e: Errno, source: bool)        // label fail: close the temporary file
    | Dropping(e: Errno, source: bool)       // label fail_noclose: source open?, unlink
    | Leaving(e: Errno)                      // COPY gives up before it has a temporary file
    | Done(err: Option<Errno>)

  function Start(job: Job): Pc {
    if job.Upload? then Making else Opening
  }

  /** The body bytes used from the head buffer. */
  function Head(job: Job): bytes {
    if job.Upload? then job.head[..Min(|job.head|, job.length)] else []
  }

  function GiveUp(job: Job, e: Errno): Pc {
    if job.Upload? then Done(Some(e)) else Leaving(e)
  }

  /** Which directory or name calls may come next. */
  predicate Turn(job: Job, pc: Pc, op: Op) {
    match pc
    case Opening => op == OpenSource
    case Checking => op == CheckSource
    case Making => op == Mkdir || op == OpenTemp
    case Filling(got, pending) => job.Upload? && pending == [] && |got| == job.length && op == Fsync
    case Draining(_) => op == CloseSource
    case Syncing(_) => op == Fsync
    case Closing(_) => op == CloseTemp
    case Publishing(_) => op == (if job.Upload? && job.excl then Link else Rename)
    case Unlinking(_) => op == Unlink
    case SyncingDir(_) => op == SyncDir
    case Failing(_, _) => op == CloseTemp
    case Dropping(_, source) => op == (if source then CloseSource else Unlink)
    case Leaving(_) => op == CloseSource
    case Done(_) => false
  }

  /** Where such a call leads. */
  function Control(job: Job, pc: Pc, op: Op, err: Option<Errno>): Pc
    requires Turn(job, pc, op)
  {
    match pc
    case Opening => if err.None? then Checking else Done(err)
    case Checking => if err.None? then Making else Leaving(err.value)
    case Making =>
      if op == Mkdir then
        if err.None? || err.value == EEXIST then Making else GiveUp(job, err.value)
      else
        if err.None? then Filling(Head(job), Head(job)) else GiveUp(job, err.value)
    case Filling(got, _) => if err.None? then Closing(got) else Failing(err.value, false)
    case Draining(got) => Syncing(got)
    case Syncing(got) => if err.None? then Closing(got) else Failing(err.value, false)
    case Closing(got) => if err.None? then Publishing(got) else Dropping(err.value, false)
    case Publishing(got) =>
      if err.Some? then Dropping(err.value, false) else if op == Link then Unlinking(got) else SyncingDir(got)
    case Unlinking(got) => SyncingDir(got)
    case SyncingDir(_) => Done(None)
    case Failing(e, source) => Dropping(e, source)
    case Dropping(e, source) => if source then Dropping(e, false) else Done(Some(e))
    case Leaving(e) => Done(Some(e))
  }

  /** Where a transfer of bytes leads while the temporary file is being filled. */
  function Move(job: Job, pc: Pc, c: Call): Option<Pc>
    requires pc.Filling?
  {
    var Filling(got, pending) := pc;
    match c
    case Put(data) =>
      if pending != [] && data <= pending then Some(Filling(got, pending[|data|..])) else None
    case PutError(e) =>
      if pending == [] then None
      else Some(if e == EINTR then pc else Failing(e, job.Duplicate?))
    case Got(data) =>
      if pending == [] && 0 < |data| <= IOBUF && (job.Upload? ==> |got| + |data| <= job.length)
      then Some(Filling(got + data, data)) else None
    case GotEnd =>
      if pending != [] || (job.Upload? && |got| == job.length) then None
      else Some(if job.Upload? then Failing(ECONNRESET, false) else Draining(got))
    case GotError(e) =>
      if pending != [] || (job.Upload? && |got| == job.length) then None
      else Some(if job.Upload? && e == EINTR then pc else Failing(e, job.Duplicate?))
    case Did(_, _) => None
  }

  function Next(job: Job, pc: Pc, c: Call): Option<Pc> {
    if c.Did? then
      if Turn(job, pc, c.op) then Some(Control(job, pc, c.op, c.err)) else None
    else if pc.Filling? then Move(job, pc, c)
    else None
  }

  /** Where a whole trace leads; None when some call in it was out of turn. */
  function Trail(job: Job, trace: seq<Call>): Option<Pc> {
    if trace == [] then Some(Start(job))
    else
      var pc := Trail(job, trace[..|trace| - 1]);
      if pc.None? then None else Next(job, pc.value, trace[|trace| - 1])
  }

  lemma TrailSnoc(job: Job, trace: seq<Call>, c: Call)
    ensures Trail(job, trace + [c]) ==
            if Trail(job, trace).None? then None else Next(job, Trail(job, trace).value, c)
  {
    assert (trace + [c])[..|trace|] == trace;
  }

  // --- What every accepted trace keeps ------------------------------------------------

  /** What a call does to a descriptor that one kind of call opens and another closes. */
  function Delta(c: Call, opening: Op, closing: Op): int {
    if c == Did(opening, None) then 1 else if c.Did? && c.op == closing then -1 else 0
  }

  /** How often it was opened minus how often it was closed. */
  function OpenCount(trace: seq<Call>, opening: Op, closing: Op): int {
    if trace == [] then 0
    else OpenCount(trace[..|trace| - 1], opening, closing) + Delta(trace[|trace| - 1], opening, closing)
  }

  function SourceOpen(trace: seq<Call>): int {
    OpenCount(trace, OpenSource, CloseSource)
  }

  function TempOpen(trace: seq<Call>): int {
    OpenCount(trace, OpenTemp, CloseTemp)
  }

  /** Whether a process has its source open, at each point of its program... */
  function HeldSource(job: Job, pc: Pc): (n: nat)
    ensures n <= 1
  {
    match pc
    case Checking | Leaving(_) | Draining(_) => 1
    case Making => if job.Upload? then 0 else 1
    case Filling(_, _) => if job.Upload? then 0 else 1
    case Failing(_, source) => if source then 1 else 0
    case Dropping(_, source) => if source then 1 else 0
    case _ => 0
  }

  /** ... and its temporary file. */
  function HeldTemp(pc: Pc): (n: nat)
    ensures n <= 1
  {
    if pc.Filling? || pc.Draining? || pc.Syncing? || pc.Closing? || pc.Failing? then 1 else 0
  }

  /** An upload has no source file to open. */
  predicate OnPath(job: Job, pc: Pc) {
    job.Upload? ==>
      && !pc.Opening? && !pc.Checking? && !pc.Leaving? && !pc.Draining? && !pc.Syncing?
      && ((pc.Failing? || pc.Dropping?) ==> !pc.source)
  }

  lemma HeldByStep(job: Job, pc: Pc, c: Call)
    requires Next(job, pc, c).Some? && OnPath(job, pc)
    ensures var pc' := Next(job, pc, c).value;
            && OnPath(job, pc')
            && HeldSource(job, pc') == HeldSource(job, pc) + Delta(c, OpenSource, CloseSource)
            && HeldTemp(pc') == HeldTemp(pc) + Delta(c, OpenTemp, CloseTemp)
  {}

  /** At every moment each of the two descriptors is open once or not at all, as the point of
      the program says. */
  lemma {:induction false} DescriptorsBalance(job: Job, trace: seq<Call>)
    requires Trail(job, trace).Some?
    ensures var pc := Trail(job, trace).value;
            OnPath(job, pc) && SourceOpen(trace) == HeldSource(job, pc) && TempOpen(trace) == HeldTemp(pc)
  {
    if trace != [] {
      DescriptorsBalance(job, trace[..|trace| - 1]);
      HeldByStep(job, Trail(job, trace[..|trace| - 1]).value, trace[|trace| - 1]);
    }
  }

  /** Both are closed at this point, and neither of them ever twice. */
  ghost predicate Balanced(trace: seq<Call>) {
    && SourceOpen(trace) == TempOpen(trace) == 0
    && forall i :: 0 <= i < |trace| ==> InOrder(trace[..i], trace[i])
  }

  /** What a call closes was open before it, and what it opens was not. */
  predicate InOrder(before: seq<Call>, c: Call) {
    && (c.Did? && c.op == CloseSource ==> SourceOpen(before) == 1)
    && (c.Did? && c.op == CloseTemp ==> TempOpen(before) == 1)
    && (c == Did(OpenSource, None) ==> SourceOpen(before) == 0)
    && (c == Did(OpenTemp, None) ==> TempOpen(before) == 0)
  }

  lemma {:induction false} TrailPrefix(job: Job, trace: seq<Call>, i: nat)
    requires Trail(job, trace).Some? && i <= |trace|
    ensures Trail(job, trace[..i]).Some?
    decreases |trace|
  {
    if i < |trace| {
      TrailPrefix(job, trace[..|trace| - 1], i);
      assert trace[..|trace| - 1][..i] == trace[..i];
    } else {
      assert trace[..i] == trace;
    }
  }

  lemma InOrderAt(job: Job, trace: seq<Call>, i: nat, j: nat)
    requires Trail(job, trace).Some? && i < |trace| && j == i + 1
    ensures InOrder(trace[..i], trace[i])
  {
    TrailPrefix(job, trace, j);
    assert trace[..j][..i] == trace[..i];
    DescriptorsBalance(job, trace[..i]);
    DescriptorsBalance(job, trace[..j]);
  }

  /** Every descriptor that an operation has opened is closed exactly once when it ends. */
  lemma ClosedExactlyOnce(job: Job, trace: seq<Call>)
    requires Trail(job, trace).Some? && Trail(job, trace).value.Done?
    ensures Balanced(trace)
  {
    DescriptorsBalance(job, trace);
    forall i | 0 <= i < |trace|
      ensures InOrder(trace[..i], trace[i])
    {
      InOrderAt(job, trace, i, i + 1);
    }
  }

  /** Some(e) when the call is one whose failure ends the operation with errno `e`. */
  function Fatal(job: Job, c: Call): Option<Errno> {
    match c
    case Did(op, err) =>
      if op == CloseSource || op == Unlink || op == SyncDir || (op == Mkdir && err == Some(EEXIST)) then None else err
    case Got(_) | Put(_) => None
    case GotEnd => if job.Upload? then Some(ECONNRESET) else None
    case GotError(e) => if job.Upload? && e == EINTR then None else Some(e)
    case PutError(e) => if e == EINTR then None else Some(e)
  }

  function FirstFatal(job: Job, trace: seq<Call>): Option<Errno> {
    if trace == [] then None
    else
      var earlier := FirstFatal(job, trace[..|trace| - 1]);
      if earlier.Some? then earlier else Fatal(job, trace[|trace| - 1])
  }

  /** The error a process is carrying to its return. */
  function Carried(pc: Pc): Option<Errno> {
    match pc
    case Failing(e, _) => Some(e)
    case Dropping(e, _) => Some(e)
    case Leaving(e) => Some(e)
    case Done(err) => err
    case _ => None
  }

  lemma CarriedByStep(job: Job, pc: Pc, c: Call)
    requires Next(job, pc, c).Some?
    ensures Carried(Next(job, pc, c).value) == if Carried(pc).Some? then Carried(pc) else Fatal(job, c)
  {}

  /** Clean-up never disturbs errno: what is reported is the first failure, and there is a
      report exactly when some call failed. */
  lemma {:induction false} ErrnoIsTheFirstFailure(job: Job, trace: seq<Call>)
    requires Trail(job, trace).Some?
    ensures Carried(Trail(job, trace).value) == FirstFatal(job, trace)
  {
    if trace != [] {
      ErrnoIsTheFirstFailure(job, trace[..|trace| - 1]);
      CarriedByStep(job, Trail(job, trace[..|trace| - 1]).value, trace[|trace| - 1]);
    }
  }

  /** A call that a signal interrupted and that is simply made again: any write, and the reads of
      an upload. */
  predicate Retried(job: Job, c: Call) {
    c == PutError(EINTR) || (c == GotError(EINTR) && job.Upload?)
  }

  function WithoutRetries(job: Job, trace: seq<Call>): seq<Call> {
    if trace == [] then []
    else
      var c := trace[|trace| - 1];
      WithoutRetries(job, trace[..|trace| - 1]) + (if Retried(job, c) then [] else [c])
  }

  /** An operation goes the way it would have gone without those interruptions. */
  lemma {:induction false} InterruptionsDoNotMatter(job: Job, trace: seq<Call>)
    requires Trail(job, trace).Some?
    ensures Trail(job, WithoutRetries(job, trace)) == Trail(job, trace)
  {
    if trace != [] {
      var before, c := trace[..|trace| - 1], trace[|trace| - 1];
      InterruptionsDoNotMatter(job, before);
      if Retried(job, c) {
        assert WithoutRetries(job, trace) == WithoutRetries(job, before);
      } else {
        TrailSnoc(job, WithoutRetries(job, before), c);
      }
    }
  }

  /** But a copy does not survive the interruption of a read. */
  lemma {:induction false} InterruptedCopyFails(trace: seq<Call>)
    requires Trail(Duplicate, trace).Some? && GotError(EINTR) in trace
    ensures Carried(Trail(Duplicate, trace).value).Some?
  {
    var before, c := trace[..|trace| - 1], trace[|trace| - 1];
    assert trace == before + [c];
    if GotError(EINTR) in before {
      InterruptedCopyFails(before);
    }
    CarriedByStep(Duplicate, Trail(Duplicate, before).value, c);
  }

  /** The bytes that landed in the temporary file. */
  function Written(trace: seq<Call>): bytes {
    if trace == [] then []
    else
      var c := trace[|trace| - 1];
      Written(trace[..|trace| - 1]) + (if c.Put? then c.data else [])
  }

  /** The bytes that reads delivered. */
  function Delivered(trace: seq<Call>): bytes {
    if trace == [] then []
    else
      var c := trace[|trace| - 1];
      Delivered(trace[..|trace| - 1]) + (if c.Got? then c.data else [])
  }

  predicate Named(c: Call) {
    c == Did(Link, None) || c == Did(Rename, None)
  }

  /** A trace binds the target name exactly when the operation is going to report success. */
  predicate HasNamed(trace: seq<Call>) {
    exists i :: 0 <= i < |trace| && Named(trace[i])
  }

  /** No byte is lost, reordered or invented between the source and the temporary file, and
      an upload takes exactly its declared length. */
  predicate Conserved(job: Job, pc: Pc, written: bytes, delivered: bytes) {
    match pc
    case Opening | Checking | Making => written == [] && delivered == []
    case Filling(got, pending) =>
      && got == Head(job) + delivered && written + pending == got
      && (job.Upload? ==> |got| <= job.length)
    case Draining(got) => job.Duplicate? && written == got == delivered
    case Syncing(got) => job.Duplicate? && written == got == delivered
    case Closing(got) => Whole(job, got, written, delivered)
    case Publishing(got) => Whole(job, got, written, delivered)
    case Unlinking(got) => Whole(job, got, written, delivered)
    case SyncingDir(got) => Whole(job, got, written, delivered)
    case Done(None) => Whole(job, written, written, delivered)
    case _ => written <= Head(job) + delivered && (job.Upload? ==> |written| <= job.length)
  }

  predicate Whole(job: Job, got: bytes, written: bytes, delivered: bytes) {
    && written == got == Head(job) + delivered
    && (job.Upload? ==> |got| == job.length)
  }

  lemma ConservedByFilling(job: Job, got: bytes, pending: bytes, c: Call, written: bytes, delivered: bytes)
    requires Conserved(job, Filling(got, pending), written, delivered)
    requires Next(job, Filling(got, pending), c).Some?
    ensures Conserved(job, Next(job, Filling(got, pending), c).value,
                      written + (if c.Put? then c.data else []), delivered + (if c.Got? then c.data else []))
  {
    var written', delivered' := written + (if c.Put? then c.data else []), delivered + (if c.Got? then c.data else []);
    match c
    case Put(data) =>
      assert pending == data + pending[|data|..];
      assert written' + pending[|data|..] == got;
      assert delivered' == delivered;
    case Got(data) =>
      assert written' == got;
      assert got + data == Head(job) + delivered';
    case _ =>
      assert written' == written && delivered' == delivered;
  }

  lemma ConservedByStep(job: Job, pc: Pc, c: Call, written: bytes, delivered: bytes)
    requires Conserved(job, pc, written, delivered)
    requires Next(job, pc, c).Some?
    ensures Conserved(job, Next(job, pc, c).value,
                      written + (if c.Put? then c.data else []), delivered + (if c.Got? then c.data else []))
  {
    if pc.Filling? {
      ConservedByFilling(job, pc.got, pc.pending, c, written, delivered);
    } else {
      assert !c.Put? && !c.Got?;
      assert written + [] == written && delivered + [] == delivered;
      if pc.Making? {
        assert [] + Head(job) == Head(job) + [] == Head(job);
      }
    }
  }

  lemma {:induction false} BytesAreConserved(job: Job, trace: seq<Call>)
    requires Trail(job, trace).Some?
    ensures Conserved(job, Trail(job, trace).value, Written(trace), Delivered(trace))
  {
    if trace != [] {
      var before, c := trace[..|trace| - 1], trace[|trace| - 1];
      BytesAreConserved(job, before);
      ConservedByStep(job, Trail(job, before).value, c, Written(before), Delivered(before));
    }
  }

  lemma {:induction false} NamedMeansSuccess(job: Job, trace: seq<Call>)
    requires Trail(job, trace).Some?
    ensures HasNamed(trace) <==> (var pc := Trail(job, trace).value;
                                  pc.Unlinking? || pc.SyncingDir? || pc == Done(None))
  {
    if trace != [] {
      var before := trace[..|trace| - 1];
      NamedMeansSuccess(job, before);
      assert HasNamed(trace) <==> HasNamed(before) || Named(trace[|trace| - 1]) by {
        assert forall i :: 0 <= i < |before| ==> before[i] == trace[i];
      }
    }
  }

  // --- How an operation ends ------------------------------------------------------------

  /** The last calls of a successful operation: the bytes go to disk before the name, and the
      directory after it. */
  predicate EndsDurably(job: Job, trace: seq<Call>) {
    var excl := job.Upload? && job.excl;
    var m := if excl then 5 else 4;
    var n := |trace|;
    && n >= m
    && trace[n - m] == Did(Fsync, None) && trace[n - m + 1] == Did(CloseTemp, None)
    && trace[n - m + 2] == Did(if excl then Link else Rename, None)
    && (excl ==> trace[n - 2].Did? && trace[n - 2].op == Unlink)
    && trace[n - 1].Did? && trace[n - 1].op == SyncDir
  }

  /** Which call leads to each of the last points of the program, and from where. */
  lemma CameBy(job: Job, pc: Pc, c: Call)
    requires Next(job, pc, c).Some?
    ensures var next, excl := Next(job, pc, c).value, job.Upload? && job.excl;
            && (next == Done(None) ==> pc.SyncingDir? && c.Did? && c.op == SyncDir)
            && (next.SyncingDir? ==>
                  if pc.Unlinking? then c.Did? && c.op == Unlink
                  else !excl && pc.Publishing? && c == Did(Rename, None))
            && (next.Unlinking? ==> excl && pc.Publishing? && c == Did(Link, None))
            && (next.Publishing? ==> pc.Closing? && c == Did(CloseTemp, None))
            && (next.Closing? ==> c == Did(Fsync, None))
  {}

  /** The call before, and where the trace stood then. */
  lemma Back(job: Job, trace: seq<Call>) returns (before: seq<Call>, pc: Pc)
    requires Trail(job, trace).Some? && trace != []
    ensures before == trace[..|trace| - 1] && Trail(job, before) == Some(pc)
    ensures Next(job, pc, trace[|trace| - 1]) == Trail(job, trace)
  {
    before := trace[..|trace| - 1];
    pc := Trail(job, before).value;
    CameBy(job, pc, trace[|trace| - 1]);
  }

  lemma PublishingAfter(job: Job, trace: seq<Call>)
    requires Trail(job, trace).Some? && Trail(job, trace).value.Publishing?
    ensures |trace| >= 2 && trace[|trace| - 2] == Did(Fsync, None) && trace[|trace| - 1] == Did(CloseTemp, None)
  {
    var t1, pc1 := Back(job, trace);
    CameBy(job, pc1, trace[|trace| - 1]);
    var t2, pc2 := Back(job, t1);
    CameBy(job, pc2, t1[|t1| - 1]);
  }

  /** Whoever is about to sync the directory has just bound the name. */
  lemma SyncingAfter(job: Job, trace: seq<Call>)
    requires Trail(job, trace).Some? && Trail(job, trace).value.SyncingDir?
    ensures EndsDurably(job, trace + [Did(SyncDir, None)])
  {
    var t1, pc1 := Back(job, trace);
    CameBy(job, pc1, trace[|trace| - 1]);
    if pc1.Unlinking? {
      var t2, pc2 := Back(job, t1);
      CameBy(job, pc2, t1[|t1| - 1]);
      PublishingAfter(job, t2);
    } else {
      PublishingAfter(job, t1);
    }
  }

  /** No operation reports success unless it has put the bytes on disk, bound the name, and then
      synced the directory. */
  lemma AcknowledgedIsSynced(job: Job, trace: seq<Call>)
    requires Trail(job, trace) == Some(Done(None))
    ensures EndsDurably(job, trace)
  {
    var t1, pc1 := Back(job, trace);
    CameBy(job, pc1, trace[|trace| - 1]);
    SyncingAfter(job, t1);
  }

  /** An operation that fails after it has made its temporary file unlinks it at the end. */
  predicate CleansUp(trace: seq<Call>) {
    Did(OpenTemp, None) in trace ==> trace[|trace| - 1].Did? && trace[|trace| - 1].op == Unlink
  }

  lemma {:induction false} TempMadeBefore(job: Job, trace: seq<Call>)
    requires Trail(job, trace).Some? && Did(OpenTemp, None) in trace
    ensures var pc := Trail(job, trace).value; !pc.Opening? && !pc.Checking? && !pc.Making? && !pc.Leaving?
  {
    var before, pc := Back(job, trace);
    assert trace == before + [trace[|trace| - 1]];
    if Did(OpenTemp, None) in before {
      TempMadeBefore(job, before);
    }
  }

  lemma FailureCleansUp(job: Job, trace: seq<Call>, e: Errno)
    requires Trail(job, trace) == Some(Done(Some(e)))
    ensures CleansUp(trace)
  {
    if Did(OpenTemp, None) in trace {
      var before, pc := Back(job, trace);
      assert trace == before + [trace[|trace| - 1]];
      if Did(OpenTemp, None) in before {
        TempMadeBefore(job, before);
      }
    }
  }

  // --- Create-only uploads --------------------------------------------------------------

  predicate Calls(trace: seq<Call>, op: Op) {
    exists i :: 0 <= i < |trace| && trace[i].Did? && trace[i].op == op
  }

  /** A create-only upload never calls rename, and nothing else ever calls link. */
  lemma {:induction false} OneWayToPublish(job: Job, trace: seq<Call>)
    requires Trail(job, trace).Some?
    ensures !Calls(trace, if job.Upload? && job.excl then Rename else Link)
  {
    if trace != [] {
      var before := trace[..|trace| - 1];
      OneWayToPublish(job, before);
      assert forall i :: 0 <= i < |before| ==> trace[i] == before[i];
    }
  }

  function ErrorOf(c: Call): Option<Errno> {
    match c
    case Did(_, err) => err
    case GotError(e) => Some(e)
    case PutError(e) => Some(e)
    case _ => None
  }

  /** As POSIX has it, only a call that makes a name can find that it exists. */
  predicate Plausible(trace: seq<Call>) {
    forall c <- trace :: ErrorOf(c) == Some(EEXIST) ==> c.Did? && c.op in {Mkdir, OpenTemp, Link, Rename}
  }

  /** Either the target or the temporary name was taken. */
  predicate FoundTaken(trace: seq<Call>) {
    exists c :: c in trace && FindsTaken(c)
  }

  predicate FindsTaken(c: Call) {
    c == Did(Link, Some(EEXIST)) || c == Did(OpenTemp, Some(EEXIST))
  }

  lemma ExistsByStep(job: Job, pc: Pc, c: Call)
    requires job.Upload? && job.excl && OnPath(job, pc) && Next(job, pc, c).Some? && Plausible([c])
    ensures var e := Carried(Next(job, pc, c).value);
            if Carried(pc).Some? then e == Carried(pc) && !FindsTaken(c) else e == Some(EEXIST) <==> FindsTaken(c)
  {
    assert c in [c];
    CarriedByStep(job, pc, c);
  }

  lemma {:induction false} CarriesExists(job: Job, trace: seq<Call>)
    requires job.Upload? && job.excl && Trail(job, trace).Some? && Plausible(trace)
    ensures Carried(Trail(job, trace).value) == Some(EEXIST) <==> FoundTaken(trace)
  {
    if trace != [] {
      var before, c := trace[..|trace| - 1], trace[|trace| - 1];
      CarriesExists(job, before);
      DescriptorsBalance(job, before);
      ExistsByStep(job, Trail(job, before).value, c);
      assert forall x :: x in trace <==> x in before || x == c by {
        assert trace == before + [c];
      }
    }
  }

  /** Exactly when a create-only upload ends in EEXIST. */
  lemma ExistsExactly(job: Job, trace: seq<Call>, err: Option<Errno>)
    requires job.Upload? && job.excl && Trail(job, trace) == Some(Done(err)) && Plausible(trace)
    ensures err == Some(EEXIST) <==> FoundTaken(trace)
  {
    CarriesExists(job, trace);
  }

  /** It need not be the target: a clash of temporary names is reported the same way. */
  lemma TempClashLooksTheSame(head: bytes, length: nat)
    ensures Trail(Upload(head, length, true), [Did(OpenTemp, Some(EEXIST))]) == Some(Done(Some(EEXIST)))
  {
    TrailSnoc(Upload(head, length, true), [], Did(OpenTemp, Some(EEXIST)));
    assert [] + [Did(OpenTemp, Some(EEXIST))] == [Did(OpenTemp, Some(EEXIST))];
  }

  // --- The C functions ----------------------------------------------------------------

  /** A trace together with where it leads and what it has written. */
  datatype LogData = Log(job: Job, trace: seq<Call>, pc: Pc, written: bytes)

  ghost predicate Faithful(l: LogData) {
    Trail(l.job, l.trace) == Some(l.pc) && Written(l.trace) == l.written
  }

  type Log = l: LogData | Faithful(l) ghost witness Log(Duplicate, [], Opening, [])

  ghost function Noted(l: Log, c: Call): (l': Log)
    requires Next(l.job, l.pc, c).Some?
  {
    TrailSnoc(l.job, l.trace, c);
    assert (l.trace + [c])[..|l.trace|] == l.trace;
    Log(l.job, l.trace + [c], Next(l.job, l.pc, c).value, l.written + (if c.Put? then c.data else []))
  }

  /** A call that names files, with the paths it is given. */
  datatype Asked = Asked(op: Op, paths: seq<bytes>)

  /** The directory and name calls of one request, answered from a script and remembered. */
  class Kernel {
    ghost const job: Job
    const script: seq<Option<Errno>>
    var step: nat
    ghost var log: Log
    ghost var asked: seq<Asked>

    constructor (ghost job: Job, script: seq<Option<Errno>>)
      ensures this.job == job && this.script == script && step == 0
      ensures log.job == job && log.trace == [] && log.pc == Start(job) && asked == []
    {
      this.job, this.script, step := job, script, 0;
      log, asked := Log(job, [], Start(job), []), [];
    }

    ghost method Note(c: Call)
      requires Next(log.job, log.pc, c).Some?
      modifies this`log
      ensures log.job == old(log.job) && log.trace == old(log.trace) + [c]
      ensures log.pc == Next(log.job, old(log.pc), c).value
      ensures log.written == old(log.written) + (if c.Put? then c.data else [])
    {
      log := Noted(log, c);
    }

    /** A call on a descriptor. */
    method Do(op: Op) returns (err: Option<Errno>)
      requires Turn(log.job, log.pc, op)
      modifies this`step, this`log
      ensures log.job == old(log.job) && log.trace == old(log.trace) + [Did(op, err)]
      ensures log.pc == Control(log.job, old(log.pc), op, err)
      ensures log.written == old(log.written)
      ensures err.Some? ==> err in script
    {
      err := if step < |script| then script[step] else None;
      step := step + 1;
      Note(Did(op, err));
    }

    /** A call on paths. */
    method Ask(op: Op, paths: seq<bytes>) returns (err: Option<Errno>)
      requires Turn(log.job, log.pc, op)
      modifies this
      ensures log.job == old(log.job) && log.trace == old(log.trace) + [Did(op, err)]
      ensures log.pc == Control(log.job, old(log.pc), op, err)
      ensures log.written == old(log.written)
      ensures asked == old(asked) + [Asked(op, paths)]
      ensures err.Some? ==> err in script
    {
      err := Do(op);
      asked := asked + [Asked(op, paths)];
    }
  }

  /** strrchr(path, '/') as an index. */
  function LastSlash(path: bytes): (r: Option<nat>)
    ensures r.None? ==> SLASH !in path
    ensures r.Some? ==> r.value < |path| && path[r.value] == SLASH && SLASH !in path[r.value + 1..]
  {
    if path == [] then None
    else if path[|path| - 1] == SLASH then Some(|path| - 1)
    else
      var before := path[..|path| - 1];
      var r := LastSlash(before);
      assert path == before + [path[|path| - 1]];
      assert r.Some? ==> path[r.value + 1..] == before[r.value + 1..] + [path[|path| - 1]];
      r
  }

  /** parent_of */
  function ParentOf(path: bytes): bytes {
    match LastSlash(path)
    case None => [DOT]
    case Some(0) => [SLASH]
    case Some(n) => path[..Min(n, PATHMAX - 1)]
  }

  /** The mkdir for a place in a path where a component ends. */
  function DirAt(path: bytes, i: nat): seq<Asked>
    requires i <= |path|
  {
    if i == |path| || path[i] == SLASH then [Asked(Mkdir, [path[..i]])] else []
  }

  /** mkdir -p: those from `i` on. */
  function DirsFrom(path: bytes, i: nat): seq<Asked>
    decreases |path| - i
  {
    if i > |path| then []
    else if i == |path| then DirAt(path, i) else DirAt(path, i) + DirsFrom(path, i + 1)
  }

  function DirsOf(path: bytes): seq<Asked> {
    DirsFrom(path, 1)
  }

  /** "%s/.unas.tmp.%ld.%ld.%ld.%u", cut to the buffer; `unique` is what comes of the numbers. */
  function TempIn(parent: bytes, unique: bytes): bytes {
    Cropped(parent + TEMPNAME + unique)
  }

  /** "/.unas.tmp." */
  const TEMPNAME: bytes := [0x2F, 0x2E, 0x75, 0x6E, 0x61, 0x73, 0x2E, 0x74, 0x6D, 0x70, 0x2E]

  function Cropped(s: bytes): bytes {
    s[..Min(|s|, PATHMAX - 1)]
  }

  /** The parents, and the temporary file beside the target. */
  function PlanToOpen(target: bytes, tmp: bytes): seq<Asked> {
    DirsOf(ParentOf(target)) + [Asked(OpenTemp, [tmp])]
  }

  /** Under the target's name with it, and the directory on disk. */
  function PlanToPublish(target: bytes, tmp: bytes, excl: bool): seq<Asked> {
    [Asked(if excl then Link else Rename, [tmp, target])] + (if excl then Removal(tmp) else [])
    + [Asked(SyncDir, [ParentOf(target)])]
  }

  /** What was asked for on the way from `before`: all of `plan`, or, after a failure, the first
      of it and then the removal of the temporary file. */
  predicate Followed(before: seq<Asked>, asked: seq<Asked>, plan: seq<Asked>, tmp: bytes, err: Option<Errno>) {
    if err.None? then asked == before + plan
    else exists n :: 0 <= n <= |plan| && (asked == before + plan[..n] || asked == before + plan[..n] + Removal(tmp))
  }

  function Removal(tmp: bytes): seq<Asked> {
    [Asked(Unlink, [tmp])]
  }

  lemma FailedAfter(before: seq<Asked>, asked: seq<Asked>, plan: seq<Asked>, n: nat, tmp: bytes, e: Errno)
    requires n <= |plan| && (asked == before + plan[..n] || asked == before + plan[..n] + Removal(tmp))
    ensures Followed(before, asked, plan, tmp, Some(e))
  {}

  /** A plan in two parts: the first went through, or it was given up at that point. */
  lemma FollowedOn(
      a: seq<Asked>, b: seq<Asked>, c: seq<Asked>, p1: seq<Asked>, p2: seq<Asked>, tmp: bytes, err: Option<Errno>)
    requires b == a + p1 && Followed(b, c, p2, tmp, err)
    ensures Followed(a, c, p1 + p2, tmp, err)
  {
    if err.Some? {
      var n :| 0 <= n <= |p2| && (c == b + p2[..n] || c == b + p2[..n] + Removal(tmp));
      assert (p1 + p2)[..|p1| + n] == p1 + p2[..n];
      FailedAfter(a, c, p1 + p2, |p1| + n, tmp, err.value);
    }
  }

  lemma GivenUp(a: seq<Asked>, c: seq<Asked>, p1: seq<Asked>, p2: seq<Asked>, tmp: bytes, e: Errno)
    requires Followed(a, c, p1, tmp, Some(e))
    ensures Followed(a, c, p1 + p2, tmp, Some(e))
  {
    var n :| 0 <= n <= |p1| && (c == a + p1[..n] || c == a + p1[..n] + Removal(tmp));
    assert (p1 + p2)[..n] == p1[..n];
    FailedAfter(a, c, p1 + p2, n, tmp, e);
  }

  lemma DirsFromStep(path: bytes, i: nat)
    requires i <= |path|
    ensures DirsFrom(path, i) == DirAt(path, i) + DirsFrom(path, i + 1)
  {}

  /** A component of `path` ends after `n` bytes, and `q` is the path up to there. */
  predicate EndsAt(path: bytes, n: nat, q: bytes) {
    n <= |path| && (n == |path| || path[n] == SLASH) && q == path[..n]
  }

  lemma DirAtExactly(path: bytes, i: nat, q: bytes)
    requires i <= |path|
    ensures Asked(Mkdir, [q]) in DirAt(path, i) <==> EndsAt(path, i, q)
  {
    assert [q][0] == q;
  }

  lemma {:induction false} DirEndsSomewhere(path: bytes, i: nat, q: bytes) returns (n: nat)
    requires Asked(Mkdir, [q]) in DirsFrom(path, i)
    ensures i <= n && EndsAt(path, n, q)
    decreases |path| - i
  {
    DirsFromStep(path, i);
    DirAtExactly(path, i, q);
    n := i;
    if !EndsAt(path, i, q) {
      n := DirEndsSomewhere(path, i + 1, q);
    }
  }

  lemma {:induction false} EndHasItsDir(path: bytes, i: nat, n: nat, q: bytes)
    requires i <= n && EndsAt(path, n, q)
    ensures Asked(Mkdir, [q]) in DirsFrom(path, i)
    decreases n - i
  {
    DirsFromStep(path, i);
    if i == n {
      DirAtExactly(path, i, q);
    } else {
      EndHasItsDir(path, i + 1, n, q);
    }
  }

  /** mkdir is called for every component's end, and for nothing else. */
  lemma DirsOfExactly(path: bytes, q: bytes)
    ensures Asked(Mkdir, [q]) in DirsOf(path) <==> exists n :: 1 <= n && EndsAt(path, n, q)
  {
    if Asked(Mkdir, [q]) in DirsOf(path) {
      var n := DirEndsSomewhere(path, 1, q);
    }
    if n :| 1 <= n && EndsAt(path, n, q) {
      EndHasItsDir(path, 1, n, q);
    }
  }

  /** What the walk up to `i` has left of the plan. */
  ghost predicate Walking(before: seq<Asked>, asked: seq<Asked>, path: bytes, i: nat) {
    before <= asked && asked + DirsFrom(path, i) == before + DirsOf(path)
  }

  lemma WalkStarts(before: seq<Asked>, path: bytes)
    ensures Walking(before, before, path, 1)
  {}

  lemma WalkOn(before: seq<Asked>, asked: seq<Asked>, path: bytes, i: nat, next: seq<Asked>)
    requires i <= |path| && Walking(before, asked, path, i) && next == asked + DirAt(path, i)
    ensures Walking(before, next, path, i + 1)
  {
    DirsFromStep(path, i);
    Regroup(asked, DirAt(path, i), DirsFrom(path, i + 1));
  }

  lemma Regroup(a: seq<Asked>, b: seq<Asked>, c: seq<Asked>)
    ensures a + (b + c) == (a + b) + c
  {}

  lemma WalkStops(before: seq<Asked>, asked: seq<Asked>, path: bytes, i: nat, tmp: bytes, e: Errno)
    requires Walking(before, asked, path, i)
    ensures Followed(before, asked, DirsOf(path), tmp, Some(e))
  {
    var n := |asked| - |before|;
    assert asked == (before + DirsOf(path))[..|asked|] == before + DirsOf(path)[..n];
    FailedAfter(before, asked, DirsOf(path), n, tmp, e);
  }

  lemma WalkEnds(before: seq<Asked>, asked: seq<Asked>, path: bytes, i: nat, tmp: bytes)
    requires Walking(before, asked, path, i) && i > |path|
    ensures Followed(before, asked, DirsOf(path), tmp, None)
  {
    assert asked + [] == asked;
  }

  /** The body of its loop. */
  method MakeDir(k: Kernel, path: bytes, i: nat) returns (err: Option<Errno>)
    requires k.log.pc == Making && i <= |path|
    modifies k
    ensures k.log.job == old(k.log.job)
    ensures if err.None? then k.log.pc == Making else k.log.pc == GiveUp(k.log.job, err.value) && err in k.script
    ensures k.log.written == old(k.log.written)
    ensures k.asked == old(k.asked) + DirAt(path, i)
  {
    if i < |path| && path[i] != SLASH {
      return None;
    }
    err := k.Ask(Mkdir, [path[..i]]);
    if err == Some(EEXIST) {
      err := None;
    }
  }

  /** fsapi_mkdirs as calls: one mkdir for each component, an existing one being no error. What
      they do to a tree with links is in module Mkdirs. */
  method MakeDirs(k: Kernel, path: bytes, ghost tmp: bytes) returns (err: Option<Errno>)
    requires k.log.pc == Making && |path| < PATHMAX
    modifies k
    ensures k.log.job == old(k.log.job)
    ensures err.None? ==> k.log.pc == Making
    ensures err.Some? ==> k.log.pc == GiveUp(k.log.job, err.value) && err in k.script
    ensures k.log.written == old(k.log.written)
    ensures Followed(old(k.asked), k.asked, DirsOf(path), tmp, err)
  {
    ghost var before := k.asked;
    WalkStarts(before, path);
    var i := 1;
    while i <= |path|
      invariant k.log.job == old(k.log.job) && k.log.pc == Making
      invariant k.log.written == old(k.log.written)
      invariant 1 <= i && Walking(before, k.asked, path, i)
    {
      ghost var asked := k.asked;
      err := MakeDir(k, path, i);
      WalkOn(before, asked, path, i, k.asked);
      if err.Some? {
        WalkStops(before, k.asked, path, i + 1, tmp, err.value);
        return;
      }
      i := i + 1;
    }
    WalkEnds(before, k.asked, path, i, tmp);
    return None;
  }

  lemma ParentFits(path: bytes)
    ensures 0 < |ParentOf(path)| < PATHMAX
  {}

  /** The directory of a path is what it was put together from. */
  lemma ParentOfChild(parent: bytes, name: bytes)
    requires SLASH !in name && |parent| < PATHMAX
    ensures ParentOf(parent + [SLASH] + name) == if parent == [] then [SLASH] else parent
    ensures ParentOf(name) == [DOT]
  {
    LastSlashOfChild(parent, name);
    assert (parent + [SLASH] + name)[..|parent|] == parent;
  }

  lemma {:induction false} LastSlashOfChild(parent: bytes, name: bytes)
    requires SLASH !in name
    ensures LastSlash(parent + [SLASH] + name) == Some(|parent|)
    ensures LastSlash(name) == None
    decreases |name|
  {
    var path := parent + [SLASH] + name;
    if name != [] {
      LastSlashOfChild(parent, name[..|name| - 1]);
      assert path[..|path| - 1] == parent + [SLASH] + name[..|name| - 1];
      assert path[|path| - 1] == name[|name| - 1];
    }
  }

  lemma NotCropped(s: bytes)
    requires |s| < PATHMAX
    ensures Cropped(s) == s
  {}

  /** The temporary file is beside the target, as long as its name is not cut off... */
  lemma TempIsBeside(parent: bytes, unique: bytes)
    requires parent != [] && SLASH !in unique && |parent| + |TEMPNAME| + |unique| < PATHMAX
    ensures ParentOf(TempIn(parent, unique)) == parent
  {
    var name := TEMPNAME[1..] + unique;
    NotCropped(parent + TEMPNAME + unique);
    assert TEMPNAME == [SLASH] + TEMPNAME[1..] && SLASH !in TEMPNAME[1..];
    assert parent + TEMPNAME + unique == parent + [SLASH] + name;
    ParentOfChild(parent, name);
  }

  /** ... and another number gives another name. */
  lemma TempNamesDiffer(parent: bytes, unique: bytes, other: bytes)
    requires |parent| + |TEMPNAME| + |unique| < PATHMAX && |parent| + |TEMPNAME| + |other| < PATHMAX
    ensures TempIn(parent, unique) == TempIn(parent, other) <==> unique == other
  {
    NotCropped(parent + TEMPNAME + unique);
    NotCropped(parent + TEMPNAME + other);
    Unappend(parent + TEMPNAME, unique);
    Unappend(parent + TEMPNAME, other);
  }

  lemma Unappend(a: bytes, b: bytes)
    ensures (a + b)[|a|..] == b
  {}

  /** What is published under the target's name is the file that was opened for writing, and what
      is synced is the target's directory. */
  lemma PublishesWhatItWrote(target: bytes, tmp: bytes, excl: bool, a: Asked)
    requires a in PlanToOpen(target, tmp) + PlanToPublish(target, tmp, excl)
    ensures a.op == OpenTemp ==> a.paths == [tmp]
    ensures a.op == Link || a.op == Rename ==> a.paths == [tmp, target]
    ensures a.op == Unlink ==> excl && a.paths == [tmp]
    ensures a.op == SyncDir ==> a.paths == [ParentOf(target)]
    ensures a.op == Mkdir ==> exists n :: 1 <= n && a.paths != [] && EndsAt(ParentOf(target), n, a.paths[0])
  {
    if a in DirsOf(ParentOf(target)) {
      DirsAreMkdirs(ParentOf(target), 1, a);
      DirsOfExactly(ParentOf(target), a.paths[0]);
    }
  }

  lemma {:induction false} DirsAreMkdirs(path: bytes, i: nat, a: Asked)
    requires a in DirsFrom(path, i)
    ensures |a.paths| == 1 && a == Asked(Mkdir, [a.paths[0]])
    decreases |path| - i
  {
    DirsFromStep(path, i);
    if a !in DirAt(path, i) {
      DirsAreMkdirs(path, i + 1, a);
    }
  }

  /** Create the parents and the temporary file; a COPY that cannot closes its source again. */
  method MakeTemp(k: Kernel, target: bytes, tmp: bytes, copying: bool) returns (err: Option<Errno>)
    requires k.log.pc == Making && copying == k.log.job.Duplicate?
    modifies k
    ensures k.log.job == old(k.log.job)
    ensures k.log.pc == if err.None? then Filling(Head(k.log.job), Head(k.log.job)) else Done(err)
    ensures k.log.written == old(k.log.written)
    ensures err.Some? ==> err in k.script
    ensures Followed(old(k.asked), k.asked, PlanToOpen(target, tmp), tmp, err)
  {
    ParentFits(target);
    ghost var before := k.asked;
    err := MakeDirs(k, ParentOf(target), tmp);
    if err.None? {
      ghost var made := k.asked;
      err := k.Ask(OpenTemp, [tmp]);
      OneMore(made, k.asked, Asked(OpenTemp, [tmp]), tmp, err);
      FollowedOn(before, made, k.asked, DirsOf(ParentOf(target)), [Asked(OpenTemp, [tmp])], tmp, err);
    } else {
      GivenUp(before, k.asked, DirsOf(ParentOf(target)), [Asked(OpenTemp, [tmp])], tmp, err.value);
    }
    if err.Some? && copying {
      var _ := k.Do(CloseSource);
    }
  }

  lemma OneMore(before: seq<Asked>, asked: seq<Asked>, one: Asked, tmp: bytes, err: Option<Errno>)
    requires asked == before + [one]
    ensures Followed(before, asked, [one], tmp, err)
  {
    if err.Some? {
      assert [one][..1] == [one];
      FailedAfter(before, asked, [one], 1, tmp, err.value);
    }
  }

  /** A transfer was refused for another reason than a signal. */
  predicate Refused(e: Errno, script: seq<Answer>) {
    e != EINTR && Refuse(e) in script
  }

  /** write_all_fd on the temporary file */
  method WriteAllFd(k: Kernel, fd: Sink, data: bytes, ghost got: bytes) returns (err: Option<Errno>)
    requires fd.Valid()
    requires k.log.pc == Filling(got, data)
    requires k.log.written == fd.out
    modifies k`log, fd
    ensures k.log.job == old(k.log.job)
    ensures fd.Valid() && k.log.written == fd.out
    ensures err.None? ==> fd.out == old(fd.out) + data && k.log.pc == Filling(got, [])
    ensures err.Some? ==> k.log.pc == Failing(err.value, k.log.job.Duplicate?) && Refused(err.value, fd.script)
  {
    var off := 0;
    while off < |data|
      invariant 0 <= off <= |data| && fd.Valid()
      invariant fd.out == old(fd.out) + data[..off] && k.log.written == fd.out
      invariant k.log.job == old(k.log.job) && k.log.pc == Filling(got, data[off..])
      decreases |fd.script| - fd.step, |data| - off
    {
      var rest := data[off..];
      var w := fd.Write(rest);
      match w
      case Failed(e) =>
        k.Note(PutError(e));
        if e != EINTR {
          return Some(e);
        }
      case Moved(n) =>
        k.Note(Put(rest[..n]));
        WrittenOn(old(fd.out), data, off, n);
        off := off + n;
    }
    return None;
  }

  lemma WrittenOn(before: bytes, data: bytes, off: nat, n: nat)
    requires off + n <= |data|
    ensures before + data[..off] + data[off..][..n] == before + data[..off + n]
    ensures data[off..][n..] == data[off + n..]
  {}

  /** Labels fail and fail_noclose, entered with the descriptors that are still open. */
  method CleanUp(k: Kernel, tmp: bytes, closeTemp: bool, closeSource: bool, e: Errno)
    requires k.log.pc == if closeTemp then Failing(e, closeSource) else Dropping(e, closeSource)
    modifies k
    ensures k.log.job == old(k.log.job)
    ensures k.log.pc == Done(Some(e))
    ensures k.log.written == old(k.log.written)
    ensures k.asked == old(k.asked) + Removal(tmp)
  {
    if closeTemp {
      var _ := k.Do(CloseTemp);
    }
    if closeSource {
      var _ := k.Do(CloseSource);
    }
    var _ := k.Ask(Unlink, [tmp]);
  }

  /** fsync and close the temporary file. */
  method Flush(k: Kernel, tmp: bytes, ghost got: bytes) returns (err: Option<Errno>)
    requires Turn(k.log.job, k.log.pc, Fsync) && k.log.pc.got == got
    modifies k
    ensures k.log.job == old(k.log.job)
    ensures k.log.pc == if err.None? then Publishing(got) else Done(err)
    ensures k.log.written == old(k.log.written)
    ensures k.asked == old(k.asked) + (if err.None? then [] else Removal(tmp))
    ensures err.Some? ==> err in k.script
  {
    err := k.Do(Fsync);
    if err.Some? {
      CleanUp(k, tmp, true, false, err.value);
      return;
    }
    err := k.Do(CloseTemp);
    if err.Some? {
      CleanUp(k, tmp, false, false, err.value);
    }
  }

  /** The target's name for the temporary file, and the directory on disk. */
  method Publish(k: Kernel, target: bytes, tmp: bytes, ghost got: bytes, excl: bool) returns (err: Option<Errno>)
    requires k.log.pc == Publishing(got) && excl == (k.log.job.Upload? && k.log.job.excl)
    modifies k
    ensures k.log.job == old(k.log.job)
    ensures k.log.pc == Done(err)
    ensures k.log.written == old(k.log.written)
    ensures Followed(old(k.asked), k.asked, PlanToPublish(target, tmp, excl), tmp, err)
    ensures err.Some? ==> err in k.script
  {
    ghost var before := k.asked;
    if excl {
      err := k.Ask(Link, [tmp, target]);
    } else {
      err := k.Ask(Rename, [tmp, target]);
    }
    ghost var named := Asked(if excl then Link else Rename, [tmp, target]);
    if err.Some? {
      CleanUp(k, tmp, false, false, err.value);
      assert PlanToPublish(target, tmp, excl)[..1] == [named];
      FailedAfter(before, k.asked, PlanToPublish(target, tmp, excl), 1, tmp, err.value);
      return;
    }
    AfterNaming(k, target, tmp, excl);
    Joined(before, [named], if excl then Removal(tmp) else [], [Asked(SyncDir, [ParentOf(target)])]);
  }

  lemma Joined(a: seq<Asked>, b: seq<Asked>, c: seq<Asked>, d: seq<Asked>)
    ensures a + b + c + d == a + ((b + c) + d)
  {}

  /** The temporary name goes, if it is still there, and the directory is synced. */
  method AfterNaming(k: Kernel, target: bytes, tmp: bytes, excl: bool)
    requires if excl then k.log.pc.Unlinking? else k.log.pc.SyncingDir?
    modifies k
    ensures k.log.job == old(k.log.job)
    ensures k.log.pc == Done(None)
    ensures k.log.written == old(k.log.written)
    ensures k.asked == old(k.asked) + (if excl then Removal(tmp) else []) + [Asked(SyncDir, [ParentOf(target)])]
  {
    if excl {
      var _ := k.Ask(Unlink, [tmp]);
    }
    var _ := k.Ask(SyncDir, [ParentOf(target)]);
  }

  /** fsync, close, publish under the target name, then fsync the directory. */
  method Finish(k: Kernel, target: bytes, tmp: bytes, ghost got: bytes, excl: bool) returns (err: Option<Errno>)
    requires k.log.pc == if k.log.job.Upload? then Filling(got, []) else Syncing(got)
    requires if k.log.job.Upload? then |got| == k.log.job.length && k.log.job.excl == excl else !excl
    modifies k
    ensures k.log.job == old(k.log.job)
    ensures k.log.pc == Done(err)
    ensures k.log.written == old(k.log.written)
    ensures Followed(old(k.asked), k.asked, PlanToPublish(target, tmp, excl), tmp, err)
    ensures err.Some? ==> err in k.script
  {
    ghost var before := k.asked;
    err := Flush(k, tmp, got);
    if err.Some? {
      FailedAfter(before, k.asked, PlanToPublish(target, tmp, excl), 0, tmp, err.value);
      return;
    }
    assert before + [] == before;
    err := Publish(k, target, tmp, got, excl);
  }

  /** What an upload is going to store, whatever the reads deliver. */
  function Body(head: bytes, rest: bytes, length: nat): bytes
    requires |head| + |rest| >= length
  {
    (head + rest)[..length]
  }

  lemma BodyOfParts(job: Job, rest: bytes, taken: bytes)
    requires job.Upload? && taken <= rest
    requires |Head(job)| + |taken| == job.length
    ensures |job.head| + |rest| >= job.length
    ensures Head(job) + taken == Body(job.head, rest, job.length)
  {}

  /** One round of that loop: a read of at most `want` bytes, and the writes they take. */
  method Take(k: Kernel, src: Source, file: Sink, tmp: bytes, want: nat) returns (err: Option<Errno>)
    requires src.Valid() && file.Valid() && k.log.written == file.out && 0 < want <= IOBUF
    requires k.log.pc == Filling(file.out, [])
    requires k.log.job.Upload? && |file.out| + want <= k.log.job.length
    modifies k, src, file
    ensures k.log.job == old(k.log.job) && k.log.written == file.out
    ensures src.Valid() && file.Valid() && old(src.cursor) <= src.cursor <= old(src.cursor) + want
    ensures src.cursor > old(src.cursor) || src.step > old(src.step) || err.Some?
    ensures old(src.step) <= src.step
    ensures err.Some? ==> k.log.pc == Done(err) && k.asked == old(k.asked) + Removal(tmp)
    ensures err.Some? ==> Missed(err.value, src, file, old(src.cursor) + want)
    ensures err.None? ==>
              && file.out == old(file.out) + src.stream[old(src.cursor)..src.cursor]
              && k.log.pc == Filling(file.out, []) && k.asked == old(k.asked)
  {
    var r := src.Read(want);
    match r
    case Broken(e) =>
      k.Note(GotError(e));
      if e == EINTR {
        return None;
      }
      CleanUp(k, tmp, true, false, e);
      return Some(e);
    case End =>
      k.Note(GotEnd);
      CleanUp(k, tmp, true, false, ECONNRESET);
      return Some(ECONNRESET);
    case Chunk(data) =>
      k.Note(Got(data));
      ghost var got := file.out + data;
      err := WriteAllFd(k, file, data, got);
      if err.Some? {
        CleanUp(k, tmp, true, false, err.value);
      }
  }

  /** Why the bytes of a body could not be moved: a transfer was refused, or the stream ends
      before byte `end`. */
  ghost predicate Missed(e: Errno, src: Source, file: Sink, end: nat) {
    Refused(e, src.script) || Refused(e, file.script) || (e == ECONNRESET && |src.stream| < end)
  }

  /** The read loop of an upload: exactly `length` more bytes, or a report of what went wrong. */
  method Receive(k: Kernel, src: Source, file: Sink, tmp: bytes, length: nat) returns (err: Option<Errno>)
    requires src.Valid() && file.Valid() && k.log.written == file.out
    requires k.log.pc == Filling(file.out, [])
    requires k.log.job.Upload? && |file.out| + length == k.log.job.length
    modifies k, src, file
    ensures k.log.job == old(k.log.job) && k.log.written == file.out
    ensures src.Valid() && old(src.cursor) <= src.cursor <= old(src.cursor) + length
    ensures err.Some? ==> k.log.pc == Done(err) && k.asked == old(k.asked) + Removal(tmp)
    ensures err.Some? ==> Missed(err.value, src, file, old(src.cursor) + length)
    ensures err.None? ==>
              && src.cursor == old(src.cursor) + length
              && file.out == old(file.out) + src.stream[old(src.cursor)..src.cursor]
              && k.log.pc == Filling(file.out, []) && k.asked == old(k.asked)
  {
    var remaining := length;
    while remaining > 0
      invariant k.log.job == old(k.log.job) && src.Valid() && file.Valid()
      invariant old(src.cursor) <= src.cursor && 0 <= remaining == length - (src.cursor - old(src.cursor))
      invariant file.out == old(file.out) + src.stream[old(src.cursor)..src.cursor] == k.log.written
      invariant k.log.pc == Filling(file.out, []) && k.asked == old(k.asked)
      decreases |src.script| - src.step, remaining
    {
      var from := src.cursor;
      err := Take(k, src, file, tmp, Min(remaining, IOBUF));
      if err.Some? {
        return;
      }
      ReadOn(src.stream, old(src.cursor), from, src.cursor);
      remaining := remaining - (src.cursor - from);
    }
    return None;
  }

  lemma ReadOn(stream: bytes, start: nat, from: nat, cursor: nat)
    requires start <= from <= cursor <= |stream|
    ensures stream[start..from] + stream[from..cursor] == stream[start..cursor]
  {}

  /** What an upload that reports `err` has done, as its caller sees it. */
  ghost predicate Reported(k: Kernel, err: Option<Errno>)
    reads k
  {
    && k.log.pc == Done(err) && err == FirstFatal(k.log.job, k.log.trace) && Balanced(k.log.trace)
    && (HasNamed(k.log.trace) <==> err.None?)
    && (if err.None? then EndsDurably(k.log.job, k.log.trace) else CleansUp(k.log.trace))
  }

  lemma Reports(l: Log, err: Option<Errno>)
    requires l.pc == Done(err)
    ensures err == FirstFatal(l.job, l.trace) && Balanced(l.trace) && (HasNamed(l.trace) <==> err.None?)
    ensures if err.None? then EndsDurably(l.job, l.trace) else CleansUp(l.trace)
  {
    ErrnoIsTheFirstFailure(l.job, l.trace);
    ClosedExactlyOnce(l.job, l.trace);
    NamedMeansSuccess(l.job, l.trace);
    if err.None? {
      AcknowledgedIsSynced(l.job, l.trace);
    } else {
      FailureCleansUp(l.job, l.trace, err.value);
    }
  }

  /** Where the socket stands when the whole body has been taken. */
  function AfterBody(from: nat, head: bytes, length: nat): nat {
    from + (if |head| < length then length - |head| else 0)
  }

  /** fsapi_write_stream: durable PUT of `length` bytes, `head` first and then the socket. */
  method WriteStream(k: Kernel, path: bytes, unique: bytes, src: Source, file: Sink,
                     head: bytes, length: nat, excl: bool)
    returns (err: Option<Errno>)
    requires k.log.job == Upload(head, length, excl) && k.log.trace == [] && k.asked == []
    requires src.Valid() && file.Valid() && file.out == []
    modifies k, src, file
    // the calls made are those the automaton allows, and the result is the one it reports
    ensures k.log.job == old(k.log.job) && Reported(k, err)
    // they name the parents, the temporary file beside the target, and the target
    ensures var tmp := TempIn(ParentOf(path), unique);
            Followed([], k.asked, PlanToOpen(path, tmp) + PlanToPublish(path, tmp, excl), tmp, err)
    // what is published is the body, and nothing of the socket past the body is read
    ensures k.log.written == file.out
    ensures src.Valid() && old(src.cursor) <= src.cursor <= AfterBody(old(src.cursor), head, length)
    ensures err.None? ==>
              && src.cursor == AfterBody(old(src.cursor), head, length) <= |src.stream|
              && |head| + |src.stream[old(src.cursor)..]| >= length
              && file.out == Body(head, src.stream[old(src.cursor)..], length)
    // it fails only because some call failed, or the client closed early; and then nothing is published
    ensures err.Some? ==> err in k.script || Missed(err.value, src, file, AfterBody(old(src.cursor), head, length))
    ensures |src.stream| < AfterBody(old(src.cursor), head, length) ==> err.Some?
  {
    var tmp := TempIn(ParentOf(path), unique);
    err := Store(k, path, tmp, src, file, head, length, excl);
    Reports(k.log, err);
  }

  method Store(k: Kernel, path: bytes, tmp: bytes, src: Source, file: Sink, head: bytes, length: nat, excl: bool)
    returns (err: Option<Errno>)
    requires k.log.job == Upload(head, length, excl) && k.log.trace == []
    requires src.Valid() && file.Valid() && file.out == []
    modifies k, src, file
    ensures k.log.job == old(k.log.job) && k.log.pc == Done(err)
    ensures Followed(old(k.asked), k.asked, PlanToOpen(path, tmp) + PlanToPublish(path, tmp, excl), tmp, err)
    ensures k.log.written == file.out
    ensures src.Valid() && old(src.cursor) <= src.cursor <= AfterBody(old(src.cursor), head, length)
    ensures err.None? ==>
              && src.cursor == AfterBody(old(src.cursor), head, length) <= |src.stream|
              && |head| + |src.stream[old(src.cursor)..]| >= length
              && file.out == Body(head, src.stream[old(src.cursor)..], length)
    ensures err.Some? ==> err in k.script || Missed(err.value, src, file, AfterBody(old(src.cursor), head, length))
  {
    ghost var before := k.asked;
    err := MakeTemp(k, path, tmp, false);
    if err.Some? {
      GivenUp(before, k.asked, PlanToOpen(path, tmp), PlanToPublish(path, tmp, excl), tmp, err.value);
      return;
    }
    ghost var there := k.asked;
    err := Fill(k, tmp, src, file, head, length);
    if err.Some? {
      FailedAfter(there, k.asked, PlanToPublish(path, tmp, excl), 0, tmp, err.value);
    } else {
      BodyOfParts(k.log.job, src.stream[old(src.cursor)..], src.stream[old(src.cursor)..src.cursor]);
      err := Finish(k, path, tmp, file.out, excl);
    }
    FollowedOn(before, there, k.asked, PlanToOpen(path, tmp), PlanToPublish(path, tmp, excl), tmp, err);
  }

  /** The body goes into the temporary file. */
  method Fill(k: Kernel, tmp: bytes, src: Source, file: Sink, head: bytes, length: nat) returns (err: Option<Errno>)
    requires k.log.job.Upload? && k.log.job.head == head && k.log.job.length == length
    requires k.log.pc == Filling(Head(k.log.job), Head(k.log.job)) && k.log.written == []
    requires src.Valid() && file.Valid() && file.out == []
    modifies k, src, file
    ensures k.log.job == old(k.log.job) && k.log.written == file.out
    ensures src.Valid() && old(src.cursor) <= src.cursor <= AfterBody(old(src.cursor), head, length)
    ensures err.Some? ==> k.log.pc == Done(err) && k.asked == old(k.asked) + Removal(tmp)
    ensures err.Some? ==> Missed(err.value, src, file, AfterBody(old(src.cursor), head, length))
    ensures err.None? ==>
              && k.log.pc == Filling(file.out, []) && k.asked == old(k.asked)
              && src.cursor == AfterBody(old(src.cursor), head, length)
              && file.out == Head(k.log.job) + src.stream[old(src.cursor)..src.cursor]
  {
    var use := Min(|head|, length);
    err := WriteAllFd(k, file, head[..use], head[..use]);
    if err.Some? {
      CleanUp(k, tmp, true, false, err.value);
      return;
    }
    err := Receive(k, src, file, tmp, length - use);
  }

  /** The read loop of a copy: to the end of the source, an interrupted read being an error. */
  method Drain(k: Kernel, src: Source, file: Sink, tmp: bytes) returns (err: Option<Errno>)
    requires src.Valid() && src.cursor == 0 && file.Valid() && k.log.written == file.out == []
    requires k.log.job == Duplicate && k.log.pc == Filling([], [])
    modifies k, src, file
    ensures k.log.job == Duplicate && k.log.written == file.out
    ensures err.Some? ==> k.log.pc == Done(err) && k.asked == old(k.asked) + Removal(tmp)
    ensures err.Some? ==> Refuse(err.value) in src.script || Refused(err.value, file.script)
    ensures err.None? ==> file.out == src.stream && k.log.pc == Draining(file.out) && k.asked == old(k.asked)
  {
    var more := true;
    while more
      invariant src.Valid() && file.Valid()
      invariant file.out == src.stream[..src.cursor] == k.log.written
      invariant k.log.job == Duplicate && k.asked == old(k.asked)
      invariant more ==> k.log.pc == Filling(file.out, [])
      invariant !more ==> src.cursor == |src.stream| && k.log.pc == Draining(file.out)
      decreases more, |src.stream| - src.cursor
    {
      var r := src.Read(IOBUF);
      match r
      case Broken(e) =>
        k.Note(GotError(e));
        CleanUp(k, tmp, true, true, e);
        return Some(e);
      case End =>
        k.Note(GotEnd);
        more := false;
      case Chunk(data) =>
        k.Note(Got(data));
        ReadToHere(src.stream, src.cursor - |data|, src.cursor);
        ghost var got := file.out + data;
        err := WriteAllFd(k, file, data, got);
        if err.Some? {
          CleanUp(k, tmp, true, true, err.value);
          return;
        }
    }

    return None;
  }

  lemma ReadToHere(stream: bytes, from: nat, cursor: nat)
    requires from <= cursor <= |stream|
    ensures stream[..from] + stream[from..cursor] == stream[..cursor]
  {}

  /** fsapi_copy: durable copy of one open file, read to its end. */
  method Copy(k: Kernel, from: bytes, dst: bytes, unique: bytes, src: Source, file: Sink)
    returns (err: Option<Errno>)
    requires k.log.job == Duplicate && k.log.trace == [] && k.asked == []
    requires src.Valid() && src.cursor == 0 && file.Valid() && file.out == []
    modifies k, src, file
    ensures k.log.job == Duplicate && Reported(k, err)
    ensures var tmp := TempIn(ParentOf(dst), unique);
            Followed([Asked(OpenSource, [from])], k.asked,
                     PlanToOpen(dst, tmp) + PlanToPublish(dst, tmp, false), tmp, err)
    ensures k.log.written == file.out
    ensures err.None? ==> file.out == src.stream
    ensures err.Some? ==> err in k.script || Refuse(err.value) in src.script || Refused(err.value, file.script)
  {
    var tmp := TempIn(ParentOf(dst), unique);
    err := Duplicated(k, from, dst, tmp, src, file);
    Reports(k.log, err);
  }

  method Duplicated(k: Kernel, from: bytes, dst: bytes, tmp: bytes, src: Source, file: Sink)
    returns (err: Option<Errno>)
    requires k.log.job == Duplicate && k.log.trace == [] && k.asked == []
    requires src.Valid() && src.cursor == 0 && file.Valid() && file.out == []
    modifies k, src, file
    ensures k.log.job == Duplicate && k.log.pc == Done(err)
    ensures Followed([Asked(OpenSource, [from])], k.asked,
                     PlanToOpen(dst, tmp) + PlanToPublish(dst, tmp, false), tmp, err)
    ensures k.log.written == file.out
    ensures err.None? ==> file.out == src.stream
    ensures err.Some? ==> err in k.script || Refuse(err.value) in src.script || Refused(err.value, file.script)
  {
    err := OpenToCopy(k, from);
    if err.Some? {
      FailedAfter(k.asked, k.asked, PlanToOpen(dst, tmp) + PlanToPublish(dst, tmp, false), 0, tmp, err.value);
      return;
    }
    err := FillAndFinish(k, dst, tmp, src, file);
  }

  lemma AtStart(l: Log)
    requires l.trace == []
    ensures l.pc == Start(l.job) && l.written == []
  {}

  /** The source is opened, and is no directory. */
  method OpenToCopy(k: Kernel, from: bytes) returns (err: Option<Errno>)
    requires k.log.job == Duplicate && k.log.trace == [] && k.asked == []
    modifies k
    ensures k.log.job == Duplicate && k.log.written == old(k.log.written)
    ensures k.log.pc == if err.None? then Making else Done(err)
    ensures k.asked == [Asked(OpenSource, [from])]
    ensures err.Some? ==> err in k.script
  {
    AtStart(k.log);
    err := k.Ask(OpenSource, [from]);
    if err.Some? {
      return;
    }
    err := k.Do(CheckSource);
    if err.Some? {
      var _ := k.Do(CloseSource);
    }
  }

  /** The rest, once there is a file to read. */
  method FillAndFinish(k: Kernel, dst: bytes, tmp: bytes, src: Source, file: Sink) returns (err: Option<Errno>)
    requires k.log.job == Duplicate && k.log.pc == Making && k.log.written == []
    requires src.Valid() && src.cursor == 0 && file.Valid() && file.out == []
    modifies k, src, file
    ensures k.log.job == Duplicate && k.log.pc == Done(err)
    ensures Followed(old(k.asked), k.asked, PlanToOpen(dst, tmp) + PlanToPublish(dst, tmp, false), tmp, err)
    ensures k.log.written == file.out
    ensures err.None? ==> file.out == src.stream
    ensures err.Some? ==> err in k.script || Refuse(err.value) in src.script || Refused(err.value, file.script)
  {
    ghost var before := k.asked;
    err := MakeTemp(k, dst, tmp, true);
    if err.Some? {
      GivenUp(before, k.asked, PlanToOpen(dst, tmp), PlanToPublish(dst, tmp, false), tmp, err.value);
      return;
    }
    ghost var there := k.asked;
    err := Drain(k, src, file, tmp);
    if err.Some? {
      FailedAfter(there, k.asked, PlanToPublish(dst, tmp, false), 0, tmp, err.value);
    } else {
      var _ := k.Do(CloseSource);
      err := Finish(k, dst, tmp, file.out, false);
    }
    FollowedOn(before, there, k.asked, PlanToOpen(dst, tmp), PlanToPublish(dst, tmp, false), tmp, err);
  }
}
