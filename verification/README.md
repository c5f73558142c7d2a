# Verification model of the unas daemon

unas is a small HTTP file server: one process per connection, a jailed share, atomic and durable
uploads. This project models the four hand-written engines of its daemon and proves what they are
for. It is checked with `dafny verify dfyconfig.toml`.

Code that changes things in place is modelled as classes and methods with loops (descriptors,
connection buffer, request, JSON buffer, disk, the upload and copy routines). Each is proved
against a specification, and the theorems are about that specification. What the operating system
decides is a parameter: every read, write and other call is answered from a finite script, so a
theorem for every script covers every pattern of short transfers, interruptions and failures. A
script that has run out grants every call.

## The parts

**Publishing a file** (`Publication.dfy`, `Share.dfy`, `ShareRuns.dfy`, `ShareCrash.dfy`,
`ShareDurable.dfy`).
`Publication` says which system call may follow which when one process stores an upload or a copy,
and holds the C routines themselves, loops and clean-up labels included, proved to make only those
calls. An interrupted write is made again, and so is an interrupted read of an upload; an interrupted read
ends a copy. `Share` runs any number of such processes, one system call at a time, together with MOVE,
DELETE, directory creation, GETs in progress and a kernel that writes names and data back when it
likes, over one file system with a durable copy beside it. The invariant of `Share.Inv` holds in
every interleaving; from it follow the statements about readers, crashes, exclusive creation and
temporary names. `ShareDurable` derives from
an acknowledgement that the directory was synced, says when an acknowledged upload is found again under
its whole path, and what a crash shows of a MOVE.

**The jail** (`Jail.dfy`, `Tree.dfy`, `Disks.dfy`, `Contained.dfy`, `Landing.dfy`, `Mkdirs.dfy`,
`Placement.dfy`, `SmallTrees.dfy`, `RmTree.dfy`, `Moves.dfy`, `Checked.dfy`).
`Jail` has the text-only resolution of a URL path. `Tree` has a directory tree with symbolic links,
unsearchable directories and a limit on links, and how a path is walked through it. `Contained` has
the canonical-path check, `Landing` what the check says of a path as a walk, `Mkdirs` mkdir -p,
`Placement` where an upload comes to stand, `SmallTrees` three counterexamples, `RmTree` recursive
removal, `Moves` renaming, `Checked` what DELETE and MOVE touch after the daemon's own check.

**The JSON builder** (`Utf8.dfy`, `Decimal.dfy`, `Json.dfy`, `JsonInverse.dfy`, `JsonBuilder.dfy`,
`JsonTheorems.dfy`, `JsonBuf.dfy`, `Listing.dfy`, `ListingClient.dfy`). A reader of RFC 8259 written independently of the
builder, the builder's calls against the document tree they describe, the growing buffer, and the
directory listing built with it, as a client reads it.

**HTTP** (`Strtoll.dfy`, `HttpHead.dfy`, `HttpParse.dfy`, `HttpPrint.dfy`, `HttpRequest.dfy`,
`Ranges.dfy`, `Daemon.dfy`). The incremental head reader, the header parser against a printer, byte
ranges and entity tags, and a whole PUT from the first byte on the socket to the published name.

**The child cap** (`ChildCap.dfy`). The accept loop and the SIGCHLD handler sharing one counter that
neither updates in a single step.

`Bytes.dfy` and `Posix.dfy` are shared: byte strings, descriptors. `Words.dfy` spells out the words of the
protocols.

## Where the code and its documentation differ

- `src/core/fsapi.h` says that a tail that has not been created yet cannot hide a symbolic link. It
  can: a dangling one (`SmallTrees.DanglingTail`). It does exactly when the first component that does
  not resolve is found by `lstat` (`Landing.AcceptedTailExactly`). The conclusion drawn from the claim
  holds all the same for a target that does not exist, with no assumption about dangling links
  (`Placement.NewUploadStaysInside`): mkdir reports such a link as existing, and the next call fails.
- The check looks at the whole path when that resolves. A path that leaves the share through one
  link and comes back through another, which somebody with access to the tree outside the share must
  have made, is accepted, and a file replaced through it stands outside (`SmallTrees.OutAndBack`). An
  accepted target stands inside exactly when it is no symbolic link or the check accepts its directory
  too (`Placement.TargetInsideExactly`; for an upload that replaces a file, with its temporary file,
  `Placement.ReplacingUploadExactly`; for DELETE and both ends of MOVE,
  `Checked.DeleteInsideExactly`, `Checked.MoveInsideExactly` and `Checked.MoveTakesInsideExactly`).
- The comment in the accept loop of `src/core/unasd.c` says that without the signal mask the count
  drifts up by one each time a child finishes before it is counted. A decrement that merely comes
  before its increment does no harm when the counter is positive (`ChildCap.EarlyDecrementOnlyHurtsAtZero`).
  The count is too high by exactly the number of decrements that found it at zero or ran between the
  load and the store of an increment (`ChildCap.DriftIsExactly`), so it is true at rest if and only if
  there was none (`ChildCap.CountIsTrueExactly`). With the mask there never is one
  (`ChildCap.MaskedLosesNothing`).
- `fsync_dir` covers the immediate parent only. An upload into a directory that mkdir -p has just
  created is acknowledged and can still be lost (`ShareCrash.NewParentCanBeLost`). It survives if the
  entries of the directories on its path were on disk before (`ShareDurable.AcknowledgedIsFound`), and
  where those entries were on disk or new, if and only if each has come to disk by the time of the crash
  (`ShareDurable.AcknowledgedIsFoundExactly`).
- The head buffer has 65536 bytes, but a head is too large from 65535 received bytes on. A stream with a
  head is read the same way however the bytes arrive if and only if the head does not end in byte 65536
  (`HttpHead.SplitIrrelevantExactly`). If it does, one read of everything finds it and a read that stops after
  65535 bytes makes it too large (`HttpHead.SplitMatters`); there are such streams (`HttpHead.SplitCanMatter`).
- The comments say that a byte range is parsed strictly, digits only. `strtoll` takes blanks and signs that
  the grammar of RFC 7233 does not have: "bytes=0--0" is served (`Ranges.NotStandardButServed`). A range
  that is served has one of the standard's forms if and only if it holds no blank, no plus sign and one dash
  only (`Ranges.StandardExactly`). The model does as the code does.
- A `Content-Length` may be written with blanks and signs too: "+5" is taken (`HttpParse.NotStandardButTaken`).
  The length of an accepted request is one of section 3.3.2 of RFC 7230 if and only if it holds none
  (`HttpParse.LengthIsStandardExactly`).
- A create-only upload that ends in EEXIST is answered 412, the target exists. A clash of temporary names
  looks the same (`Publication.TempClashLooksTheSame`); as long as only calls that make a name answer EEXIST,
  it is one of the two (`Publication.ExistsExactly`).
- `fsapi_mkdirs` takes EEXIST for success at every component, so it can succeed without leaving a directory:
  the PUT of a directory at a dangling link is answered 201 (`SmallTrees.NoDirectoryMade`). After success the
  path leads to a directory if and only if it was not so that something stood there before and led to none
  (`Mkdirs.DirectoryExactly`).

## Model

| member | source | states |
|---|---|---|
| Publication.WriteStream | src/core/fsapi.c:269-315 | on success exactly `length` bytes, buffered prefix then socket, are in the published file and nothing past them was read; it fails only if some call was refused or the stream ends early, and then nothing is published; the calls made are a path of the automaton that ends in the reported result; they name the parents, a temporary file beside the target, and the target; every descriptor opened is closed exactly once |
| Publication.Copy | src/core/fsapi.c:336-371 | the same for a copy and its two descriptors: on success the published file is the source to its end |
| Publication.Receive | src/core/fsapi.c:289-296 | the read loop moves exactly the missing bytes from the socket to the file for every pattern of short reads and writes, or reports the failure with the temporary file closed and unlinked |
| Publication.WriteAllFd | src/core/fsapi.c:45-54 | all of the data lands in order whatever is written short or interrupted, or the first real error is reported |
| Publication.DescriptorsBalance | src/core/fsapi.c:343-371 | on every path of every trace the source, and the temporary file, is open once or not at all, as the position in the code says |
| Publication.ClosedExactlyOnce | src/core/fsapi.c:343-371 | at the end both are closed; whatever was closed on the way was open, and whatever was opened was not |
| Publication.AcknowledgedIsSynced | src/core/fsapi.c:297-308 | no operation reports success unless its last calls are a successful fsync and close, the link or rename that publishes, and the fsync of the directory |
| Publication.FailureCleansUp | src/core/fsapi.c:310-315 | an operation that fails after it has made its temporary file ends with the unlink of it |
| Publication.DirsOfExactly | src/core/fsapi.c:96-111 | mkdir is called for every component's end of the parent's path and for nothing else |
| Publication.PublishesWhatItWrote | src/core/fsapi.c:269-308 | what is linked or renamed to the target is the file that was opened for writing, and what is synced is the target's directory |
| Publication.TempIsBeside | src/core/fsapi.c:69-94 | the temporary file stands in the target's directory unless its name is cut off |
| Publication.TempNamesDiffer | src/core/fsapi.c:86-94 | two of them have the same name only if their numbers are the same |
| Publication.ParentOfChild | src/core/fsapi.c:69-79 | the directory of a path is what the path was put together from |
| Publication.InterruptionsDoNotMatter | src/core/fsapi.c:45-54 | leaving out the interrupted writes, and the interrupted reads of an upload, a trace leads to the same place |
| Publication.InterruptedCopyFails | src/core/fsapi.c:355-358 | a copy one of whose reads was interrupted ends with an error |
| Publication.OneWayToPublish | src/core/fsapi.c:299-307 | no trace of a create-only upload calls rename, and no other trace calls link |
| Publication.ExistsExactly | src/core/fsapi.c:282-303 | as long as only calls that make a name answer EEXIST, a create-only upload ends in EEXIST if and only if its link or the opening of its temporary file did |
| Publication.TempClashLooksTheSame | src/core/fsapi.c:282-283 | a trace in which it is the temporary file, not the target |
| Publication.ErrnoIsTheFirstFailure | src/core/fsapi.c:310-315 | the reported error is that of the first call whose failure is not ignored, not one of the clean-up |
| Publication.BytesAreConserved | src/core/fsapi.c:285-308 | along every trace, failing ones included, what was written is a prefix of prefix plus reads and no longer than the declared length; it is all of it when the name is published |
| Publication.NamedMeansSuccess | src/core/fsapi.c:298-309 | a trace binds the target name if and only if it is past its publishing call without failure |
| Share.InvStep | src/core/fsapi.c:269-371 | every system call of every process, every MOVE, DELETE, mkdir, GET step and write-back keeps the invariant of the share |
| ShareRuns.NamesAreComplete | src/core/fsapi.c:269-315 | in every interleaving every ordinary name leads to a directory or a complete body at every moment |
| ShareRuns.PublishedNeverChanges | src/core/fsapi.c:297-309 | the bytes of a file never change once a name has led to it |
| ShareRuns.ReaderSeesOneBody | src/core/unasd.c:239-305 | an open GET sends a prefix of the one body its file held when opened, whatever is renamed, replaced or removed |
| ShareRuns.AcknowledgedWasPublished | src/core/fsapi.c:297-309 | no upload or copy reports success before its whole body stood under a name |
| ShareRuns.RefusedWasNotPublished | src/core/fsapi.c:310-315 | an operation that failed, or has not come to its publishing call, has bound no name |
| ShareCrash.CrashLeavesAShare | src/core/fsapi.c:297-308 | after a crash at any moment every ordinary name leads to a directory or a complete body |
| ShareCrash.CrashShowsRecentBinding | src/core/fsapi.c:56-67 | after a crash a name has a binding it really had at or after the last fsync of its directory |
| ShareCrash.AcknowledgedIsDurable | src/core/fsapi.c:297-308 | once the directory was fsynced an acknowledged body survives any crash as an entry of that directory, and under every path that leads to the directory after the crash |
| ShareDurable.AcknowledgedWasSynced | src/core/fsapi.c:297-308 | in every run an operation that has reported success bound its name and called fsync on a directory after that |
| ShareDurable.AcknowledgedSurvives | src/core/fsapi.c:297-308 | so its name and whole body survive a crash at any later moment, if that fsync did not fail, the directory it reached was the name's, and the name was not rebound |
| ShareDurable.AcknowledgedIsFound | src/core/fsapi.c:297-308 | an acknowledged upload survives any later crash under its whole path if the names of its directories were on disk at some moment up to the publication and none has been rebound since |
| ShareDurable.AcknowledgedIsFoundExactly | src/core/fsapi.c:56-67 | where those names were on disk or new, it is found after a crash if every one of them has come to disk by then, and lost if one has not |
| ShareDurable.SyncPutsOnDisk | src/core/fsapi.c:56-67 | fsync of a directory whose own path is on disk puts the paths of all its names on disk |
| ShareDurable.PersistedExactly | src/core/fsapi.c:56-67 | a name is on disk exactly if it was at some moment since it got its binding: nothing but a new binding takes it off again |
| ShareDurable.MoveIsDurable | src/core/fsapi.c:328-333 | once both directories have been synced after a MOVE's rename, a crash shows the file under its new name and nothing under the old one, unless somebody has touched them since |
| ShareDurable.OnlyTouched | src/core/fsapi.c:269-402 | no action changes a name but those it is about; a removed name is gone |
| ShareCrash.NewParentCanBeLost | src/core/fsapi.c:56-67 | a run in which no path leads to the new directory after the crash, and an acknowledged upload is lost |
| ShareCrash.CreateNeverReplaces | src/core/fsapi.c:299-303 | whatever call a create-only upload publishes by, it binds a name that was free to the file the upload has written, and changes no other name |
| ShareCrash.CreatesAreSeparated | src/core/fsapi.c:299-303 | between the publications of one name by two create-only uploads some step removed that name |
| ShareCrash.LoserReportsExists | src/core/fsapi.c:302-314 | whoever finds the name taken is a create-only upload; it reports EEXIST, and has unlinked its temporary name or failed to |
| ShareCrash.TempsAreInFlight | src/core/fsapi.c:86-94 | the temporary names present are those of operations in flight, except where an unlink failed |
| ChildCap.InvStep | src/core/unasd.c:680-818 | every step of main, of the children and of the handler keeps the counter invariant |
| ChildCap.CountIsTrue | src/core/unasd.c:680-698 | in every interleaving the counter is the number of unreaped children up to the one update under way |
| ChildCap.CapHolds | src/core/unasd.c:798-801 | counter and children never exceed a positive cap |
| ChildCap.GuardAlwaysPasses | src/core/unasd.c:691-698 | the test for a positive counter never suppresses a decrement |
| ChildCap.ZombiesWillBeReaped | src/core/unasd.c:682-698 | while there is a zombie the signal is pending or the handler will call waitpid again |
| ChildCap.RoomIsReal | src/core/unasd.c:798-801 | with nothing left to reap a connection is admitted if and only if fewer than the cap are running |
| ChildCap.OwnActionsEnd | src/core/unasd.c:680-818 | however main and the handler take turns, they come to rest within so many steps unless a connection comes or a child ends |
| ChildCap.RestIsDrained | src/core/unasd.c:680-818 | where nothing is left to do, every child that has ended has been reaped and the count is that of the children running |
| ChildCap.NeverJams | src/core/unasd.c:798-814 | from every state that a run reaches, main and the handler alone can go on to such a rest with the same children running, and the next connection is admitted if and only if there is no cap or fewer than the cap are running |
| ChildCap.DriftsAway | src/core/unasd.c:802-814 | without the mask the count can drift up to the cap with no child alive, one lost decrement for each |
| ChildCap.CapJams | src/core/unasd.c:802-814 | and then every connection is refused for good |
| ChildCap.EarlyDecrementOnlyHurtsAtZero | src/core/unasd.c:802-814 | from any quiet state without the mask, any number of children running and any count: a child that is reaped before it is counted leaves the counter as it was, except at zero |
| ChildCap.DriftIsExactly | src/core/unasd.c:802-814 | in every interleaving without the mask the counter is too high by exactly the number of decrements that the zero test suppressed or an increment overwrote |
| ChildCap.CountIsTrueExactly | src/core/unasd.c:802-814 | so at rest it is the number of unreaped children if and only if there was no such decrement |
| ChildCap.MaskedLosesNothing | src/core/unasd.c:802-814 | every run with the mask is a run without it in which no decrement is lost |
| Jail.DecodeIntoIsDecode | src/core/fsapi.c:129-149 | decoding into a bounded buffer succeeds if and only if every escape is well formed, no NUL results and it fits; otherwise it is too long exactly if more bytes than fit come before the first bad escape, and invalid if not |
| Jail.DecodeExactly | src/core/fsapi.c:117-149 | a string decodes to just what it is a percent-encoding of, with hexadecimal digits of either case |
| Jail.UrlDecode | src/core/fsapi.c:129-149 | the buffer loop computes just that, NUL-terminated |
| Jail.DecodeEncode | examples/python/client.py:103-107 | decoding undoes a client's percent-encoding of every NUL-free byte string |
| Jail.ResolveIsExact | src/core/fsapi.c:151-194 | resolution succeeds if and only if escapes, segments and lengths are in order, and gives the root followed by the kept segments; when the result counts as a directory |
| Jail.ResolvedStaysUnder | src/core/fsapi.c:168-191 | what is added to the root is plain names only |
| Jail.ResolveAlike | src/core/fsapi.c:151-194 | two URL paths resolve alike if and only if their cleaned segments are equal |
| Jail.ReencodeResolves | src/core/fsapi.c:117-194 | encoding the tail of a resolved path and resolving again gives the same path |
| Jail.ResolveInto | src/core/fsapi.c:151-194 | the in-place loops over the path buffers compute that resolution, errors included |
| Contained.Check | src/core/fsapi.c:196-228 | terminates and accepts if and only if the deepest prefix that resolves does so at or under the canonical root and all longer ones are merely missing, an over-long component not counting as missing; which error otherwise |
| Contained.AcceptedExactly | src/core/fsapi.c:196-228 | what acceptance means, with the two errors that count as missing |
| Contained.WallsAreRefused | src/core/fsapi.c:206-227 | a wall, a loop or an over-long name on the way is refused, not passed over |
| Contained.BoundaryIsComponents | src/core/fsapi.c:212-221 | comparing bytes and a boundary is comparing lists of components |
| Landing.AcceptedIsInside | src/core/fsapi.c:209-227 | what the check accepts is, seen as a walk, inside: some prefix ends inside and the next component leads nowhere |
| Landing.MkdirKeepsInside | src/core/fsapi.c:96-111 | one mkdir on a prefix makes a directory inside if it makes any, and the walk stays inside |
| Landing.AcceptedTailExactly | src/core/fsapi.c:206-209 | for every accepted path that does not resolve: its unresolved tail carries a symbolic link if and only if the first component of it is found at all |
| Mkdirs.MakeDirs | src/core/fsapi.c:96-111 | exactly the next directories on the path are made, up to some component; success leaves something at each component; unless a call is refused without reason, a failure has a component where nothing stands and nothing can be made |
| Mkdirs.BuiltNodes | src/core/fsapi.c:96-111 | the new nodes are directories and stand on the path, all of them up to the last one, and nothing else has changed |
| Mkdirs.GrownStaysInside | src/core/fsapi.c:96-111 | all that happens inside if the walk was inside, and it stays inside |
| Mkdirs.DirectoryExactly | src/core/fsapi.c:96-111 | after success the path leads to a directory if and only if it was not so that something stood there before and led to none |
| Placement.UploadLandsInside | src/core/fsapi.c:278-308 | once the check has accepted the parent, everything made and the new file stand at or under the root, dangling links or not |
| Placement.NewTargetParentAccepted | src/core/fsapi.c:209-227 | for a target that does not exist, accepting it is accepting its parent |
| Placement.NewUploadStaysInside | src/core/unasd.c:540-578 | from the URL path through resolution, check and mkdir -p: a first upload stands inside |
| Placement.PlaceInsideExactly | src/core/fsapi.c:196-228 | a name in a directory that resolves stands inside if and only if the check would accept the directory, whether there is anything of that name or not |
| Placement.TargetInsideExactly | src/core/fsapi.c:196-228 | a target that the check has accepted stands inside if and only if it is no symbolic link or its directory would be accepted too |
| Placement.ReplacingUploadExactly | src/core/fsapi.c:269-308 | an upload over something that is there: mkdir -p makes nothing, the name it rebinds stands inside exactly under that condition, the temporary file exactly if the directory would be accepted |
| SmallTrees.OutAndBack | src/core/fsapi.c:196-228 | a tree where the check accepts a path and the file stands outside |
| SmallTrees.DanglingTail | src/core/fsapi.c:206-209 | a tree where the missing tail of an accepted path begins with a symbolic link |
| SmallTrees.NoDirectoryMade | src/core/unasd.c:378-385 | a tree where a path is accepted, mkdir -p on it succeeds, and there is no directory there |
| RmTree.RemoveTree | src/core/fsapi.c:373-402 | terminates; success removes exactly the subtree, failure nothing outside it and nothing at all unless recursive; links go as leaves; succeeds when no call is refused and nothing stands in the way, never for a path that ends in a dot |
| RmTree.LocateChild | src/core/fsapi.c:391-397 | the path of a child finds that child or nothing, however much is gone already |
| RmTree.ClearChild | src/core/fsapi.c:391-397 | nothing stands in the way of a child if nothing stood in the way of its directory |
| Moves.Move | src/core/fsapi.c:317-334 | the new parent's directories come first; then the rename happens as a whole or not at all, and carries every node but the one replaced; the new parent is synced and then the old one; it fails only for a reason |
| Moves.StillThere | src/core/fsapi.c:317-334 | every node but the one replaced is still there with its content, where it was or where the move carried it |
| Moves.CameFrom | src/core/fsapi.c:317-334 | and nothing else is in the tree after a move |
| Moves.MovedWellFormed | src/core/fsapi.c:317-334 | a move keeps the tree a tree, the working directory included if it is moved or replaced |
| Moves.MovingBack | src/core/fsapi.c:317-334 | moving back undoes a move that replaced nothing |
| Moves.MoveStaysInside | src/core/fsapi.c:317-334 | what a move brings stands at or under the root if the new parent is one the check accepts |
| Checked.MoveInsideExactly | src/core/unasd.c:438-446 | after the daemon's check of the destination: only directories inside are made, and what is moved comes to stand inside if and only if it replaces no symbolic link or the directory would be accepted too |
| Checked.MovedStaysInside | src/core/unasd.c:438-446 | and then every new node anywhere stands inside |
| Checked.MoveTakesInsideExactly | src/core/unasd.c:438-446 | and nothing is taken away from outside the root if and only if what is moved is no symbolic link or the source's directory would be accepted too |
| Checked.DeleteInsideExactly | src/core/unasd.c:413-426 | after the daemon's check of the path: a DELETE removes nothing outside the root if and only if what it removes is no symbolic link or its directory would be accepted too |
| Checked.DeleteOfRoot | src/core/unasd.c:413-426 | the root itself, unless it was given as a symbolic link, stands where its canonical path says, so that removing it touches nothing outside |
| Checked.DeleteStaysInside | src/core/unasd.c:413-426 | a DELETE that fails half way has touched nothing outside under the same condition |
| Utf8.MasksAreTheGrammar | src/core/jsonw.c:141-163 | the mask tests accept exactly the byte sequences of the grammar in section 4 of RFC 3629 |
| Utf8.SeqLenIsExact | src/core/jsonw.c:141-163 | a positive length comes exactly for the encoding of a Unicode scalar value at that place |
| Utf8.LooksNoFurther | src/core/jsonw.c:141-163 | the answer depends on no byte past the string's NUL |
| JsonInverse.StringReadsBack | src/core/jsonw.c:171-202 | an escaped string is a valid string of RFC 8259 and reads back with each invalid byte replaced by U+FFFD |
| JsonInverse.SanitizeIsUtf8 | src/core/jsonw.c:165-202 | what it reads back as is valid UTF-8 |
| JsonInverse.SanitizeIsIdempotent | src/core/jsonw.c:165-202 | replacing invalid bytes twice is replacing them once |
| JsonInverse.SanitizeByScalars | src/core/jsonw.c:165-202 | the encoding of every scalar value is kept, and a byte that begins none becomes the encoding of U+FFFD |
| JsonInverse.PrintIsUtf8 | src/core/jsonw.c:165-227 | whatever bytes the strings hold, the printed text is valid UTF-8 |
| JsonInverse.DocumentReadsBack | src/core/jsonw.c:171-227 | every printed value reads back as itself, up to that replacement |
| JsonBuilder.Follows | src/core/jsonw.c:89-124 | after any calls that make sense the text is that of the document tree they describe, and depth and comma flags are what the tree needs; the latch is set exactly past the depth limit |
| JsonBuilder.LatchIsSticky | src/core/jsonw.c:58-87 | once the error latch is set no call changes the text |
| JsonTheorems.EmittedReadsBack | src/core/jsonw.c:97-227 | emitting any value of nesting at most 32 leaves text that reads back as that value, and the builder reusable; a deeper one, and only that, sets the latch |
| JsonTheorems.AlwaysCompletable | src/core/jsonw.c:97-124 | after any calls that make sense some more calls complete a valid document that begins with the text so far |
| JsonBuf.Buf.Reserve | src/core/jsonw.c:40-56 | capacity is 64 doubled some times and below twice the need once above 64; all bytes copied together stay below it |
| JsonBuf.Buf.EmitString | src/core/jsonw.c:171-202 | the byte loop adds the quoted, escaped string |
| JsonBuf.Buf.PutKey | src/core/jsonw.c:204-210 | the buffer changes as the builder model says, unless an allocation fails |
| JsonBuf.Buf.PutScalar | src/core/jsonw.c:212-227 | likewise for strings, numbers, booleans and null |
| JsonBuf.Buf.Open | src/core/jsonw.c:108-123 | likewise for opening, with the depth limit |
| JsonBuf.Buf.Close | src/core/jsonw.c:115-124 | likewise for closing |
| JsonBuf.Buf.Take | src/core/jsonw.c:78-87 | hands over the whole text and leaves the builder empty, or nothing after any error |
| Listing.ListJson | src/core/fsapi.c:404-448 | the listing reads back as the path asked for and exactly the entries listed, in order, names made UTF-8; it comes unless an allocation fails |
| ListingClient.ClientSees | src/core/fsapi.c:404-448 | a client that looks the members up by name sees exactly the entries there are to see, in order, with their kind, size of regular files only, time and tag |
| HttpHead.Conn.ReadHead | src/core/http.c:136-164 | for every script of short, interrupted and refused reads the outcome is that of reading the stream in those pieces |
| HttpHead.ReadingLeads | src/core/http.c:136-164 | unless a read is refused, that outcome depends on the stream and on whether some read stopped after 65535 bytes, and on nothing else of the script |
| HttpHead.LeadsOneWay | src/core/http.c:136-164 | the outcome that these two allow is unique |
| HttpHead.SplitIrrelevantExactly | src/core/http.c:137-151 | all ways of cutting a stream that has a head into reads, interruptions included, have one outcome if and only if the head does not end in byte 65536 |
| HttpHead.NoHeadOneOutcome | src/core/http.c:137-151 | all ways of cutting a stream that has none have one outcome |
| HttpHead.SplitMatters | src/core/http.c:137-151 | every stream whose head ends in byte 65536 is accepted when one read brings it all, and too large when a read stops after 65535 bytes |
| HttpRequest.Request.Read | src/core/http.c:128-212 | the parsed request is the one-shot parse of the head; head, blank line, buffered body and unread bytes are the stream |
| HttpRequest.Request.ParseLines | src/core/http.c:162-174 | the index loops fill the fields as the specification parses the lines |
| HttpParse.LengthIsThatOfTheHeader | src/core/http.c:103-208 | an accepted request has no stored Content-Length and length -1, or exactly one and its value capped at 2^63-1 |
| HttpParse.SameNameExactly | src/core/http.c:120 | two header names are the same if and only if they differ in the case of ASCII letters only |
| HttpParse.LengthIsStandardExactly | src/core/http.c:193-208 | the Content-Length of an accepted request is digits only if and only if it holds no blank and no sign |
| HttpParse.StandardIsTaken | src/core/http.c:193-208 | every string of digits is taken, with its value capped at 2^63-1 |
| HttpParse.NotStandardButTaken | src/core/http.c:193-208 | a length that is not digits only and is taken |
| HttpPrint.HeadReadsBack | src/core/http.c:78-126 | parsing undoes printing for every request line within the limits, however spaced, and any number of headers of any length with any blanks around their values, of which it keeps what it has room for |
| HttpPrint.AcceptedWhenLengthReadable | src/core/http.c:181-208 | and is accepted if and only if its Content-Length is single and readable; which error otherwise |
| HttpPrint.FoundInAnyCase | src/core/http.c:214-222 | a header is found whatever the case its name was printed in: the first of that name |
| HttpPrint.TwoLengthsAreRefused | src/core/http.c:181-192 | two Content-Length headers are refused, whatever the cases of their names |
| HttpPrint.LengthInAnyCase | src/core/http.c:120-124 | a single one in any case that is digits gives the length |
| HttpPrint.JunkIsIgnored | src/core/http.c:103-109 | a line without a colon is passed over |
| HttpPrint.MessageReadsBack | src/core/http.c:128-212 | a printed head followed by any body is found to end where it ends |
| Strtoll.PlainNumeral | src/core/unasd.c:216-229 | on plain digits the saturating conversion is the number, cut off at the limits |
| Strtoll.SignedNumeral | src/core/unasd.c:216-229 | after blanks and a sign or none, digits are read up to where they end, with that sign |
| Strtoll.NoNumeral | src/core/unasd.c:216-229 | without a digit there nothing is read |
| Ranges.ParseRange | src/core/unasd.c:212-237 | saturating parsing agrees with reading integers of any size, for all sizes up to 2^63-1, and always gives 0 <= s <= e < size |
| Ranges.StandardForms | src/core/unasd.c:207-237 | each form of section 2.1 of RFC 7233 is read as the numbers it spells, for all digit strings |
| Ranges.StandardSelects | src/core/unasd.c:207-237 | byte by byte, each form selects just what the standard says: the last so many, those from a number on, those from one number to another |
| Ranges.NothingSelected | src/core/unasd.c:212-237 | a range is refused if and only if it selects no byte |
| Ranges.StandardServes | src/core/unasd.c:250-305 | and those are the bytes that are sent of a file as long as stat said |
| Ranges.StandardExactly | src/core/unasd.c:207-237 | a range that is served has one of those forms if and only if it holds no blank, no plus sign and one dash only |
| Ranges.NotStandardButServed | src/core/unasd.c:207-237 | a range that has none of them and is served |
| Ranges.WriteAll | src/core/http.c:46-56 | all bytes go out in order for every pattern of short writes, or a prefix before an error |
| Ranges.Serve | src/core/unasd.c:250-305 | for every pattern of short reads and writes the promised part of the one opened file is sent in order and nothing else, all of it unless a call fails, the seek included; nothing for HEAD; 416 exactly when the range selects nothing |
| Ranges.PartsOfSameFile | src/core/unasd.c:239-305 | if the opened file has the size that stat gave, that part is the whole file, or exactly the slice the range names |
| Ranges.TagTellsApart | src/core/fsapi.c:454-457 | two entity tags are equal if and only if size and time are |
| Ranges.TagReadsBack | src/core/fsapi.c:454-457 | the tag reads as the size, a dash, and the time |
| Ranges.IfMatch | src/core/unasd.c:311-320 | comparing through the bounded buffers decides as comparing unbounded strings |
| Ranges.SentTagMatches | src/core/unasd.c:271-272 | the tag that was sent matches, strong or weak, for the same size and time and for no other |
| Daemon.Gate | src/core/unasd.c:386-394 | an upload goes ahead if and only if target, If-None-Match, If-Match and Content-Length allow it; 409 for a directory, 412 for a condition, 411 for no length otherwise |
| Words.IfNoneMatch | src/core/unasd.c:388 | the name of that header, letter by letter (its first half is `IfNone`); likewise for every other word of the protocols in this module |
| Words.ContentLength | src/core/http.c:120 | and for Content-Length |
| Daemon.Unconditional | src/core/unasd.c:386-394 | without conditions everything but a directory may be written |
| Daemon.OnlyIfAbsent | src/core/unasd.c:388-392 | If-None-Match: * lets pass only what is not there |
| Daemon.OnlyIfUnchanged | src/core/unasd.c:389-393 | If-Match with a tag once sent, strong or weak, lets pass just the file of that size and time |
| Daemon.OneRequest | src/core/http.c:136-212 | a request that is accepted for one cutting of the stream into reads is accepted for every other, the same request with its body at the same place, if and only if its head does not end in byte 65536 or is no request at all |
| Daemon.Put | src/core/unasd.c:375-411 | there is an answer if and only if a request came, and the status of a refusal says what stood against it; success means that the conditions held and exactly the Content-Length bytes after the blank line are published and the directory synced, with nothing past them read; otherwise nothing is published; with If-None-Match: * no rename is ever called, and 412 after the upload has begun means that a name was taken |
| Daemon.NothingElseFails | src/core/unasd.c:375-411 | an upload that is allowed is stored, whichever way the bytes come and go, if no call is refused and the whole body comes |

## Left out

- Sockets, listening, timeouts, entropy, the companion app, clients, build files: wrappers and tables.
- Authentication, status and share listings, response heads, dates and content types, problem bodies.
- `dest_subpath`, `depth_infinity` and the mapping of errno to status codes: string tests and tables.
- An endless sequence of EINTR: scripts are finite, so every loop ends.
- Share.InvStep: MOVE's rename and fsyncs, DELETE's unlink and rmdir and each mkdir are single actions of anybody at any moment, not the steps of `fsapi_move` and `fsapi_rmtree` in order; that is more behaviour, not less.
- Moves.Move: what its two fsyncs do for durability is said of the actions in `Share`, by `ShareDurable.MoveIsDurable`.
- Share.InvStep: inode numbers are not reused and a temporary name carries the number of its one owner, in place of pid, clock and counter; no client names a temporary file.
- ShareRuns.ReaderSeesOneBody: that the body is as long as the stat before the open said needs that the file was not replaced in between; `Ranges.Serve` says what is sent otherwise.
- Placement.UploadLandsInside: the tree changes only by the daemon's own mkdir calls between check and use; other processes that replace directories by links meanwhile are not part of this.
- RmTree.RemoveTree: a directory's entries are read as a snapshot when it is opened.
- Placement.TargetInsideExactly: for a target that is a link, the canonical path of its directory must fit the buffer of realpath; likewise in `Checked`.
- JsonBuf.Buf.Reserve: lengths are unbounded integers, so that the doubling ends is assumed to happen below 2^63.
- Listing.ListJson: the text of a modification time is a parameter; `.` and `..`, vanished entries and over-long paths are skipped as in the code.
- HttpRequest.Request.Read: header claims are about stored headers; what comes after the 48th, and what is cut off over-long names and values, is dropped as in the code.
- Publication.WriteStream: the numbers in the temporary name are a parameter; failures of fsync_dir are ignored as in the code, whichever of its calls fails.
- ShareDurable.AcknowledgedSurvives: that fsync_dir reaches the directory of the published name is a condition, for directories may be renamed between two calls.
- Daemon.Put: resolution, check and stat come before it and are parameters; the interim 100 response and the answers' text are not modelled.
