# Kova, modelled and proved in Dafny

Kova builds container images on remote runners. This project models the parts of it whose correctness
spans many calls, interleavings or bytes, and proves what they promise for every input and every run.

- **Runner daemon** (`Daemon.dfy`, `DaemonServer.dfy`). Admission of builds and the retire barrier are a state
  machine over the critical sections of the handlers and of the asynchronous build, in any interleaving. The server
  object carries the system it is part of, so each of its methods is a step that keeps the invariants of all runs, and
  its contract says what the caller learns about that system. Of the replies the machine can produce, the retire
  client accepts exactly those for its own request id.
- **Build progress** (`Intervals.dfy`, `Progress.dfy`, `Observation.dfy`, `ProgressProjection.dfy`,
  `ProgressReports.dfy`, `ProgressPublished.dfy`). The line framer, the event projection and the timing arithmetic, from
  bytes to the published observation. Timing is measured as sets of nanoseconds; the merged and swept computations are
  proved to count those sets in 64 bits. What a stream publishes is also said without the projection's maps, of the list
  of reports in its lines.
- **Command output** (`TailBuffer.dfy`). The bounded tail is the tail of the whole text, and a phrase cut by a
  write boundary is still seen.
- **Scheduling** (`HashRing.dfy`, `Pool.dfy`, `BuildRun.dfy`). The consistent-hash order, the slot pool with its
  refresh, and the semaphores of a whole build run under concurrent refreshes and cancellation.
- **Sources** (`ArchivePath.dfy`, `ArchiveTree.dfy`, `ArchiveFiles.dfy`, `ZipDirectory.dfy`, `Variables.dfy`). Lexical
  path checks against physical link following, the ZIP central directory, extraction budgets and the file tree that
  results, and variable substitution.
- **Failure log** (`FailureLog.dfy`). A size-bounded file of newline-ended records.
- **Recovery** (`JsonPatch.dfy`, `StageJournal.dfy`, `StageAdapter.dfy`, `StageAnswers.dfy`, `StageExecution.dfy`). A
  fail-stop, journalled, closed-scope API client against an arbitrary server, the exact condition of each of its
  answers, JSON Patch by sections 4.1, 4.3, 4.6 and 5 of RFC 6902, and the ordering of a whole invocation.

`Options.dfy`, `Bytes.dfy`, `Sets.dfy` and `Orders.dfy` hold shared types, a fact about finite sets, and sorting. Where
the source updates an object in place the model has a class whose invariant is that of the runs; its methods are tied to
functions on values, and the lemmas are about those functions.

## What the proofs found

- The hash-ring order loop ends if and only if every node kept at least one point after hash collisions
  (`HashRing.OrderEndsIffCovered`); a colliding point is overwritten by the later node.
- The newest record of the failure log survives a trim if and only if it is shorter than the limit or the log was
  empty (`FailureLog.NewestSurvives`): a record of exactly the limit, appended to a log that has records, is dropped
  together with everything else.
- The truncation search keeps the longest prefix that fits if and only if none of its probes fails below a prefix that
  fits (`FailureLog.KeepsLongestIff`). JSON escaping breaks this: a cut inside a two-byte character costs six bytes and
  the whole character two, so a probe there can fail although a longer prefix fits (`FailureLog.LongerPrefixMissed`). If
  no failing probe falls inside a character the longest prefix is kept (`FailureLog.BetweenKeepsLongest`).
- A link target written to an archive is read back unchanged if and only if the extractor takes the member at all,
  trimming leaves the stored text alone, and the text still leads under the top level of the trimmed name
  (`ArchivePath.StoredTargetReadBack`). `./ a` is stored as ` a` and extracted as `a`; in a directory named ` img` the
  target `../../ img/x` is written and then refused (`ArchivePath.SpacedNameExample`).
- In an extraction a member lands exactly where it is named if and only if no earlier member left a link of that very
  name; a file after a link of its name is written to the link's target, inside the top-level directory
  (`ArchiveTree.MembersLandWhereNamed`, `ArchiveTree.SecondMemberExample`). The daemon's validation excludes the case:
  it refuses duplicate paths before it extracts (`ArchiveFiles.CheckDuplicatePaths`), and with distinct paths every
  member lands where it is named (`ArchiveTree.DistinctMembersLand`).
- An archive with a member below a regular file passes the header and the duplicate check and is refused only while it
  is extracted; for distinct paths that is the only refusal of a file operation, in any order of the members
  (`ArchiveFiles.ValidatedExtractsIff`).
- An extraction that fails has taken at most one byte beyond its budget (`ArchiveFiles.Extract`).
- `$NAME` is replaced by the value of the shortest key that is a prefix of `NAME`, so a shorter key captures a longer
  reference (`Variables.ShortestPrefixWins`, `Variables.ShorterNameCaptures`). In a whole text this holds of every
  reference on its own if no value has a dollar sign and every bare reference has a key (`Variables.WholeTextResolves`);
  a bare reference without one can be completed by its neighbour's value (`Variables.NeighbourCompletesName`).
- The tail buffer's `truncated` flag also says yes when a single write fills the buffer exactly and nothing was
  dropped (`TailBuffer.TruncatedStep`).
- The hold patch of an object seen without finalizers does not test them; it can lose finalizers if and only if
  identity and version still match while the document has others, which a server that changes the version with the
  content rules out (`JsonPatch.AppendLosesIff`, `JsonPatch.AppendsHoldOnce`).
- A drain's stop intent loses its pinned UID if and only if an occupancy attempt has the same name, because the
  attempt's entry overwrites it (`StageAdapter.StopIntentPinnedIff`).
- A stage other than unknown comes together with an error if and only if the action succeeded and its result was not
  recorded (`StageExecution.ExecuteStage`, and `StageExecution.UnsyncedResult` for such an invocation); a result that was
  recorded and does not read back is reset to unknown.

## Model

| member | source | states |
|---|---|---|
| `DaemonProtocol.InvHolds` | internal/daemon/handlers.go:40-170 | ownership, identity, upload and barrier invariants hold after every interleaving of handler and build steps |
| `DaemonProtocol.OneUnfinishedOwner` | internal/daemon/handlers.go:172-224 | in every reachable state at most one accepted build is before its terminal write, the status is active exactly while there is one, and it owns the open done channel and the cancel function; a barrier is never unjoinable |
| `DaemonProtocol.RequestIdIsSticky` | internal/daemon/handlers.go:43-80 | a non-empty request id is bound for good: no later run admits anything else, and it names one invocation |
| `DaemonProtocol.BarrierIsSticky` | internal/daemon/retire.go:41-70 | once installed, the barrier is the same in every later state, admissions stop, unfinished work is cancelled, no invocation newly enters batch execution and every later build POST is refused |
| `DaemonProtocol.JoinedMeansFinished` | internal/daemon/retire.go:106-124 | "locally joined" implies that no accepted invocation is before its terminal write |
| `DaemonProtocol.JoinedIsFinal` | internal/daemon/retire.go:106-124 | a joined answer never reverts and the state it reports never changes again, over every continuation |
| `DaemonProtocol.BarredCanJoin` | internal/daemon/retire.go:35-79 | from every barred state at most four steps of the build lead to a joined answer: the barrier cannot strand its build |
| `DaemonProtocol.RetireInterruptsItsOwnUpload` | internal/daemon/retire.go:41-70 | the upload that a retire POST interrupts belongs to the request id it retires |
| `DaemonProtocol.PostMeans` | internal/daemon/handlers.go:43-80 | a build POST is admitted exactly when the runner is unbound, not barred and has nothing unfinished; what it admits is then the only unfinished invocation |
| `DaemonProtocol.PostAnswered` | internal/daemon/handlers.go:43-80 | each answer to a build POST is given exactly under its condition on the admissions so far: malformed, barred, repeated, bound to another, busy or admitted; a repetition gets the current build |
| `DaemonProtocol.AdmissionIsReplayed` | internal/daemon/handlers.go:55-59 | after a named admission every later POST of that id, over any run that does not bar the runner, replays the current build and admits nothing |
| `DaemonProtocol.AdmittedCanComplete` | internal/daemon/handlers.go:172-224 | an admitted build that is not cancelled can run to its end, and what it writes is then the reported build |
| `DaemonProtocol.RetireAcceptedIff` | internal/daemon/retire.go:41-57 | a retire is accepted exactly for the id that barred the runner, and before that for the id of an admitted build or on a runner that never admitted one |
| `DaemonProtocol.RetireCancelsIff` | internal/daemon/retire.go:58-61 | it calls the cancel function of exactly the unfinished invocation that was not cancelled before |
| `DaemonProtocol.RetireMeans` | internal/daemon/retire.go:41-70 | an accepted retire bars the runner for its id, leaves nothing unfinished uncancelled and closes no channel |
| `RetireClient.SoundStateAttests` | internal/daemonclient/retire.go:67-74 | for a barred runner the client's predicate accepts the reported state for exactly the retired id |
| `RetireClient.AcceptedReplyMeans` | internal/daemonclient/retire.go:67-74 | an accepted reply names the request, claims nothing of remote workers, and is either retiring or settled with no active build |
| `RetireClient.EveryAcceptedReplyAttests` | internal/daemonclient/retire.go:48-82 | every 2xx of POST or GET in any state that runs keep carries the right code and satisfies the client for exactly the id that was asked |
| `DaemonServerObject.DaemonServer.constructor` | internal/daemon/command.go:40-61 | a new server object is the start of the system and satisfies its invariants |
| `DaemonServerObject.DaemonServer.HandleBuildPost` | internal/daemon/handlers.go:40-80 | a step of the system that keeps its invariants; each answer exactly under its condition on the admissions so far; an admitted invocation is the only unfinished one and owns the channel, the cancel function and the body |
| `DaemonServerObject.DaemonServer.SetState` | internal/daemon/handlers.go:280-290 | the terminal write of the one unfinished invocation leaves nothing unfinished and reports its status and error under its own id |
| `DaemonServerObject.DaemonServer.ClearBuildExecution` | internal/daemon/handlers.go:292-299 | a late clear never takes the cancel function or the channel from an invocation that is still unfinished |
| `DaemonServerObject.DaemonServer.ClearBuildUpload` | internal/daemon/handlers.go:301-309 | the handler's own body and deadline hook are given up, a later upload's never |
| `DaemonServerObject.DaemonServer.CancelActiveBuild` | internal/daemon/handlers.go:317-326 | a cancel function is called exactly when something is unfinished; it is that invocation's, and so is the channel to wait on and the reported state |
| `DaemonServerObject.DaemonServer.RetireStateLocked` | internal/daemon/retire.go:106-124 | the state of a barred runner has its id and its build and attests to that id alone; it is settled exactly when the retired channel is closed or there was none, and then nothing admitted is unfinished |
| `DaemonServerObject.DaemonServer.HandleRetirePost` | internal/daemon/retire.go:35-79 | accepted exactly for the barring id, the bound id, or on a runner never used; then the runner is barred for that id and will join its build, the unfinished invocation not cancelled before is, only that id's upload is interrupted and the reply satisfies the client for that id alone |
| `DaemonServerObject.DaemonServer.HandleRetireGet` | internal/daemon/retire.go:81-103 | accepted exactly for the id that barred the runner, with a reply that satisfies the client for that id alone and, when settled, with nothing unfinished |
| `DaemonServerObject.RetireWhileUploading` | internal/daemon/retire.go:35-103 | an interleaving of admission, retire, upload and build end on the object: first retiring, in the end settled, each answer for this id alone |
| `Intervals.CoverFits` | internal/batch/build_progress.go:383-389 | intervals inside the accepted time window cover no more nanoseconds than the window, hence no 64-bit overflow |
| `Intervals.CoverIgnoresOrder` | internal/batch/build_progress.go:368-381 | the set covered does not depend on the order of the family |
| `Intervals.SortByStart` | internal/batch/build_progress.go:368-381 | sorted by start and a permutation |
| `Intervals.UnionIntervals` | internal/batch/build_progress.go:368-381 | the merged intervals are separated and cover exactly the nanoseconds of the input |
| `Intervals.UnionNanoseconds` | internal/batch/build_progress.go:383-389 | the 64-bit sum is the exact number of covered nanoseconds |
| `Intervals.SharedNanoseconds` | internal/batch/build_progress.go:391-411 | the comparison of starts and ends yields the size of the intersection of two intervals |
| `Intervals.SweepAt` | internal/batch/build_progress.go:391-411 | advancing whichever interval ends first loses no common nanosecond |
| `Intervals.OverlapNanoseconds` | internal/batch/build_progress.go:391-411 | the two-pointer sweep counts exactly the nanoseconds covered by both families |
| `Intervals.OverlapAtMostUnion` | internal/batch/build_progress.go:391-411 | an overlap exceeds neither union |
| `Progress.AddIntervalKeeps` | internal/batch/build_progress.go:247-276 | a live projection keeps its limits and entry invariants, loses no entry, and records a started interval under its key |
| `Progress.AddIntervalMeans` | internal/batch/build_progress.go:247-276 | the exact condition under which an interval is taken; it is then recorded under its key with the given end and flag, and nothing else changes |
| `Progress.AddVertexKeeps` | internal/batch/build_progress.go:205-227 | recording a vertex keeps the map invariants or refuses the stream |
| `Progress.ConsumeKeeps` | internal/batch/build_progress.go:146-243 | every line keeps the invariant and the first refusal reason |
| `Progress.FeedAppend` | internal/batch/build_progress.go:92-130 | framing a concatenation is framing its parts in turn |
| `Progress.ChunksDoNotMatter` | internal/batch/build_progress.go:92-130 | within the byte budget the state depends only on the concatenation of all writes |
| `Progress.OverBudgetRefused` | internal/batch/build_progress.go:92-130 | beyond the budget every way of cutting the stream is refused |
| `Progress.OverBudgetReason` | internal/batch/build_progress.go:92-130 | the write that exceeds the budget refuses the stream for that, unless an earlier line already did, for good |
| `Progress.RefusalStays` | internal/batch/build_progress.go:132-138 | a refusal and its reason survive all later writes |
| `Progress.FeedIsReference` | internal/batch/build_progress.go:92-130 | the incremental framer computes the split-at-newlines reference, oversize lines included |
| `Progress.StreamMeaning` | internal/batch/build_progress.go:92-130 | a whole stream within the budget projects to the reference of its bytes, however it was cut |
| `ProgressReports.EventTaken` | internal/batch/build_progress.go:205-242 | one event takes its reports in turn, vertices before statuses, up to the first that is refused |
| `ProgressReports.EventHeld` | internal/batch/build_progress.go:205-276 | the same of one event on any live projection, with the exact condition for staying live |
| `ProgressReports.FirstFaultIff` | internal/batch/build_progress.go:205-276 | a list of reports is accepted exactly when each is well formed, any two agree on kind and end, and the counts are within the limits, however the list is cut |
| `ProgressReports.TakeAllMeans` | internal/batch/build_progress.go:205-276 | reports are taken up to the first fault, with its reason; until then the maps hold exactly the vertices and intervals reported, each with the end and flag of its last report |
| `ProgressReports.CleanIffNoFault` | internal/batch/build_progress.go:146-243 | no line of a stream has a fault exactly when all are blank or records, there are not too many, and their reports together are sound |
| `ProgressReports.DiagnosticsForwarded` | internal/batch/build_progress.go:172-196 | logs, warnings and vertex errors are forwarded in order, also after a refusal; a nil log or warning refuses the stream |
| `ProgressReports.LineForwarded` | internal/batch/build_progress.go:146-196 | what each line adds to the output, in any state |
| `ProgressReports.LinesMean` | internal/batch/build_progress.go:146-243 | a stream of lines is read as its first fault, or as exactly the maps of the reports of all lines |
| `ProgressReports.SplitMeans` | internal/batch/build_progress.go:103-128 | the lines and the text after them are the stream, without newlines in them |
| `ProgressReports.StreamMeans` | internal/batch/build_progress.go:92-276 | however a stream is cut, its fate is its first fault in stream order or the maps of all its reports |
| `Observations.CompleteVerticesContribute` | internal/batch/build_progress.go:278-364 | if no vertex evidence is missing there is an interval and a vertex count |
| `Observations.ObservedIsConsistent` | internal/buildobservation/observation.go:96-137 | whatever the event history, the assembled observation breaks no validity clause but possibly the magnitude bound |
| `Observations.NormalizeOnlyBoundsUnions` | internal/buildobservation/observation.go:68-78 | normalising drops an assembled observation exactly when a union exceeds a day, and otherwise changes nothing |
| `Observations.PublishedMeans` | internal/batch/build_progress.go:278-364 | for every stream however cut: dropped as invalid exactly when it was never refused, has vertices and intervals and a union exceeds a day; otherwise the refusal, the missing stream or the assembled observation, and always valid |
| `ProgressPublished.StreamPublishes` | internal/batch/build_progress.go:92-364 | for every stream within the budget, however cut: the reason why nothing is observed, or counts, unions and overlap of exactly the intervals whose last reports say they are over |
| `ProgressPublished.ObservedObserves` | internal/batch/build_progress.go:278-364 | the observation assembled from the maps says of each family what the reports say |
| `ProgressPublished.SameCover` | internal/batch/build_progress.go:278-364 | the nanoseconds of a family are those of the reports, an interval counting as its last report has it |
| `Observations.FinishIgnoresChunks` | internal/batch/build_progress.go:278-364 | two ways of cutting the same bytes publish the same observation, or both are unavailable beyond the budget |
| `Observations.ListedCover` | internal/batch/build_progress.go:278-364 | a complete listing of a family, in any order, covers what the family covers |
| `ProgressObject.ProgressProjection.constructor` | internal/batch/build_progress.go:88-90 | a new object is the empty stream |
| `ProgressObject.ProgressProjection.RecordEvent` | internal/batch/build_progress.go:205-242 | whatever reports the maps held, the event adds its own: refused for the first fault among them, else live exactly when all reports together are sound, the maps then holding each interval with the end and flag of its last report |
| `ProgressObject.ProgressProjection.ForwardDiagnostics` | internal/batch/build_progress.go:172-196 | the loops forward what `ProgressReports.DiagnosticsForwarded` says |
| `ProgressObject.ProgressProjection.AppendPart` | internal/batch/build_progress.go:92-130 | adding a newline-free part is feeding its bytes one by one |
| `ProgressObject.ProgressProjection.Write` | internal/batch/build_progress.go:92-130 | the line-at-a-time loop is the byte-at-a-time specification |
| `ProgressObject.ProgressProjection.Finish` | internal/batch/build_progress.go:278-364 | the result is the specified observation of the object's state |
| `ProgressObject.WalkIntervals` | internal/batch/build_progress.go:278-364 | for any map iteration order, the gathered families, the vertex count and the cached count are those of the map |
| `ProgressObject.Measure` | internal/batch/build_progress.go:278-364 | the union of a family is absent exactly as specified and otherwise its exact size |
| `ProgressObject.Assemble` | internal/batch/build_progress.go:278-364 | the loop-built observation is the set-based one |
| `TailBuffer.ContainsASCIIFold` | internal/batch/command_output.go:56-74 | true exactly when the pattern occurs somewhere up to ASCII case |
| `TailBuffer.FoldMeans` | internal/batch/command_output.go:56-74 | a byte matches a small letter exactly as that letter or its capital, and anything else only as itself |
| `TailBuffer.CutWindow` | internal/batch/command_output.go:24-48 | an occurrence in a concatenation lies in one half or in the window around the cut |
| `TailBuffer.TruncatedStep` | internal/batch/command_output.go:24-48 | the flag's exact meaning over the write history: bytes were dropped or one write filled the buffer |
| `TailBuffer.NextSummarizes` | internal/batch/command_output.go:24-48 | updating from the kept tail equals summarising the whole text again: tail, flag and phrase detection |
| `TailBuffer.BoundedTailBuffer.Write` | internal/batch/command_output.go:24-48 | after every write the fields summarise everything written |
| `TailBuffer.BoundedTailBuffer.Text` | internal/batch/command_output.go:76-83 | the text is the last bytes of everything written, marked when truncated |
| `HashRing.NewConsistentHash` | internal/scheduler/hash.go:17-31 | a sorted ring whose points are exactly the hashes of all virtual nodes, each owned by the last node that hashes to it; covered exactly when every node keeps a point |
| `HashRing.WalkMeets` | internal/scheduler/hash.go:35-56 | the clockwise walk lists each node it meets once and nothing else |
| `HashRing.OrderEndsIffCovered` | internal/scheduler/hash.go:35-56 | the order loop ends within one lap if every node owns a point and never otherwise |
| `HashRing.LapIsPermutation` | internal/scheduler/hash.go:35-56 | one lap of a covered ring orders all node indices, each once |
| `HashRing.LapIsClockwise` | internal/scheduler/hash.go:35-56 | of two nodes in the order, the first has a point that comes before every point of the second, clockwise from the key |
| `HashRing.Search` | internal/scheduler/hash.go:35-56 | the binary search returns the first point at or after the hash |
| `HashRing.OrderFrom` | internal/scheduler/hash.go:35-56 | the loop with its early stop yields the whole lap's order |
| `HashRing.GetSlotOrder` | internal/scheduler/hash.go:35-56 | a permutation of all indices, ordered by each node's first point clockwise from the key |
| `SlotPool.Slot.TryAcquire` | internal/scheduler/pool.go:144-151 | takes a token exactly when one is free |
| `SlotPool.PickPass` | internal/scheduler/pool.go:112-142 | takes one token of the first eligible slot of the order and no other, or none is eligible |
| `SlotPool.PickAvailableSlot` | internal/scheduler/pool.go:112-142 | null exactly when every slot is full; a cooling slot only when every other is full or cooling; the first of its class in the key's order; one token moves |
| `SlotPool.OrderIsClockwise` | internal/scheduler/pool.go:112-142 | the order in which slots are tried is that of their first points clockwise from the key |
| `SlotPool.PresentMeans` | internal/scheduler/pool.go:44-80 | exactly the addresses that are not nil count, as often as given |
| `SlotPool.Pool.constructor` | internal/scheduler/pool.go:25-29 | one fresh empty slot for each present address and no other, sorted, with a matching ring |
| `SlotPool.Pool.Replace` | internal/scheduler/pool.go:44-80 | one slot per present address, the old object where there was one, sorted, with the ring of exactly that many nodes' hashes; no token of any slot is touched |
| `SlotPool.RefreshKeepsIdentity` | internal/scheduler/pool.go:44-80 | a slot object survives a refresh exactly when its address does, and stays the only one for it |
| `SlotPool.RefreshKeepsDistinct` | internal/scheduler/pool.go:44-80 | distinct addresses give distinct slots |
| `BuildRun.InvHolds` | internal/batch/build.go:174-273 | the token accounting holds after every interleaving of scheduler, tasks, refreshes and cancellation |
| `BuildRun.TokensMatchHolders` | internal/batch/build.go:211-222 | in every reachable state each semaphore, of a live or dropped slot, holds one token per holder, and at most the capacity |
| `BuildRun.ReleasesNeverBlock` | internal/batch/build.go:174-273 | every release is always possible, also on a slot that a refresh dropped |
| `BuildRun.AllTokensReturned` | internal/batch/build.go:282-282 | when the wait returns every task is finished and every token is back |
| `BuildRun.StayingAddressKeepsSlot` | internal/batch/build.go:174-273 | an address present in all refreshes of a run keeps its slot |
| `BuildRun.RefreshMovesNoToken` | internal/scheduler/pool.go:44-80 | a refresh changes no semaphore, and new slots start empty |
| `BuildRun.WaitCanReturn` | internal/batch/build.go:282-282 | from every waiting state, releasing leads to the return in a known number of steps |
| `ArchivePath.SplitJoin` | internal/source/archive.go:341-357 | splitting undoes joining |
| `ArchivePath.TrimMeans` | internal/source/archive.go:341-357 | trimming takes away the white space at both ends, all of it, and nothing else |
| `ArchivePath.CleanSuffixFirst` | internal/source/single.go:241-257 | cleaning the target before joining it to its directory does not change where it leads |
| `ArchivePath.CleanIdempotent` | internal/source/archive.go:341-357 | cleaning a clean path changes nothing |
| `ArchivePath.LeadingUpIffClimbs` | internal/source/archive.go:341-357 | a cleaned path begins with dot-dot exactly when some prefix of the path climbs above its start |
| `ArchivePath.RootTest` | internal/source/single.go:241-257 | the textual prefix test is a test of the first component |
| `ArchivePath.PathAccepted` | internal/source/archive.go:341-357 | a name is accepted exactly when it is relative and never climbs; the result is a list of plain names |
| `ArchivePath.AcceptedHasNoBackslash` | internal/source/archive.go:341-357 | an accepted path reads the same when normalised again |
| `ArchivePath.TargetAccepted` | internal/source/single.go:241-257 | for any relative name, backslashes included: accepted exactly when the target is relative and leads from the link's directory under the link's top level; the stored form is clean and a valid link |
| `ArchivePath.StoredTargetReadBack` | internal/source/single.go:122-152 | for any raw name the written target is read back unchanged exactly when the member is extracted, trimming leaves the text alone and it leads under the top level of the trimmed name |
| `ArchivePath.TrimmedNameReadBack` | internal/source/archive.go:422-466 | for a name that trimming leaves alone the text alone decides |
| `ArchivePath.SpacedNameExample` | internal/source/archive.go:422-466 | a target written unchanged and without white space at its ends that the extractor refuses |
| `ArchivePath.WrittenTargetExample` | internal/source/single.go:241-257 | a concrete target that is stored with leading white space |
| `ArchivePath.ReadTargetExample` | internal/source/archive.go:390-513 | the stored target is extracted as another one |
| `ArchiveTree.FollowStaysInside` | internal/source/single.go:241-257 | with valid links, following any number of them physically never leaves the top-level directory nor climbs above the root |
| `ArchiveTree.HasLinkParent` | internal/source/archive.go:211-247 | the walk to the parents finds a link exactly when a proper prefix of the path is one |
| `ArchiveTree.CheckEachHeader` | internal/source/archive.go:211-247 | succeeds exactly when every header and the declared total are in order, and collects exactly the link names |
| `ArchiveTree.CheckArchiveHeaders` | internal/source/archive.go:211-247 | succeeds exactly when the archive has few enough members, small enough, well named, with regular required files of at most a MiB and none below a link; every error tells the truth about some member |
| `ArchiveTree.LimitIs` | internal/source/archive.go:249-262 | the limit of a MiB holds for the Dockerfile and the metadata of a top-level directory and for no other member |
| `ArchiveTree.ShapeIff` | internal/source/archive.go:211-247 | the check on cleaned names is that shape, read off the components of the paths |
| `ArchiveTree.TakeOne` | internal/source/archive.go:421-511 | the name, byte and link checks of one member pass exactly when it fits, and then its bytes are taken; otherwise the budget is passed by one byte at most, and the error tells what is wrong with the member |
| `ArchiveTree.ReadTarget` | internal/source/archive.go:436-466 | a link is read exactly when its text is within both bounds and its target accepted |
| `ArchiveTree.ExtractableIff` | internal/source/archive.go:420-511 | the members pass in order exactly when each passes on its own and all their bytes together fit the budget |
| `ArchiveTree.LastLinkCounts` | internal/source/archive.go:467-476 | a link leads where the last member of its path says |
| `ArchiveTree.StoredLinksValid` | internal/source/archive.go:390-513 | at every moment of an extraction every stored link is valid |
| `ArchiveTree.ExtractedTreeIsContained` | internal/source/archive.go:390-513 | at every moment of an extraction, following links physically from any member's path stays in its top-level directory |
| `ArchiveTree.ParentsAreDirect` | internal/source/archive.go:239-245 | in a checked archive the directory a member is written into is reached without meeting a link, at every moment |
| `ArchiveTree.MembersLandWhereNamed` | internal/source/archive.go:478-484 | at the moment of its writing a member lands where it is named exactly when no earlier member left a link of that name; otherwise at that link's target |
| `ArchiveTree.SecondMemberExample` | internal/source/archive.go:478-484 | a checked archive of duplicate paths whose second member is written through the link that the first left |
| `ArchiveTree.DistinctMembersLand` | internal/source/archive.go:86-98 | in a checked archive without duplicate paths every member lands where it is named |
| `ArchiveFiles.ExtractOne` | internal/source/archive.go:421-511 | succeeds exactly when the member's checks pass and none of its file operations is refused; the tree then has it in its place |
| `ArchiveFiles.Extract` | internal/source/archive.go:390-513 | succeeds exactly when every member passes its checks and no file operation of any is refused, having taken exactly their bytes within the budget; any run takes at most one byte beyond it |
| `ArchiveFiles.ExtractArchive` | internal/source/archive.go:390-513 | header check and extraction together: succeeds exactly when the archive has the shape, each member passes on its own, their bytes together fit and no file operation is refused; the links of the resulting tree are those of the containment results |
| `ArchiveFiles.TreeLinks` | internal/source/archive.go:436-476 | whatever files and directories a tree has, its links are the last ones stored under their paths |
| `ArchiveFiles.CheckDuplicatePaths` | internal/source/archive.go:86-98 | passes exactly when every name is acceptable and no two members have one path |
| `ArchiveFiles.DistinctPlacedIff` | internal/source/archive.go:427-484 | with distinct paths and nothing below a link, all file operations succeed exactly when no member lies below a file, whatever the order; the tree then holds the members and their directories and no more |
| `ArchiveFiles.ValidatedExtractsIff` | internal/source/archive.go:390-513 | an archive without duplicate paths extracts exactly when its checks pass and no member lies below a file, to exactly that tree |
| `ZipDirectory.FindEnd` | internal/source/zip_directory.go:29-50 | the backward scan returns the chosen end record, or there is none |
| `ZipDirectory.WalkHeaders` | internal/source/zip_directory.go:80-110 | succeeds exactly when the directory is the concatenation of as many encoded headers as it declares, within the limit, machine conversions included; too many entries exactly when more are declared or follow one another |
| `ZipDirectory.CheckZipEntryCount` | internal/source/zip_directory.go:19-111 | succeeds exactly when the last end record, directly or through its ZIP64 record, leads to such a directory inside the file; too many entries exactly as for that directory |
| `ZipDirectory.TiledIffDirectory` | internal/source/zip_directory.go:80-110 | stepping from header to header covers a range in n steps exactly when the range is the concatenation of n headers, each with its name, extra field and comment |
| `ZipDirectory.DirectoryCountIsUnique` | internal/source/zip_directory.go:80-110 | the number of headers is determined by the bytes |
| `ZipDirectory.WrittenArchiveAccepted` | internal/source/zip_directory.go:19-111 | a directory within the limit, its end record and a comment that holds no end record are accepted after any prefix |
| `ZipDirectory.PlainArchiveAccepted` | internal/source/zip_directory.go:19-111 | without a comment there is no such condition |
| `ZipDirectory.WrittenZip64Accepted` | internal/source/zip_directory.go:51-79 | the same with the real values in a ZIP64 record, when any of the three fields of the end record says so |
| `Variables.ReplacedLength` | internal/source/variables.go:110-118 | the length after replacing is predicted by the count of occurrences |
| `Variables.RefusedIffTooLarge` | internal/source/variables.go:110-118 | the check made before replacing refuses exactly when the replacement would exceed the limit |
| `Variables.ReplaceBuildVariables` | internal/source/variables.go:39-84 | too large exactly when some intermediate content is; otherwise the substitution, accepted exactly when no unknown name remains, and refused with exactly the names that do |
| `Variables.FirstPrefixWins` | internal/source/variables.go:39-84 | a reference becomes the value of the first key that is a prefix of its name, followed by the rest |
| `Variables.ShortestPrefixWins` | internal/source/variables.go:39-84 | with keys in ascending order, as they are substituted, it is the shortest key that is a prefix of the name |
| `Variables.WholeTextResolves` | internal/source/variables.go:39-84 | a text of any number of references, bare or braced, is replaced reference by reference, if values have no dollar sign and each bare name has a key |
| `Variables.ResolvedByShortest` | internal/source/variables.go:39-84 | in such a text the shortest key that is a prefix of a bare name decides |
| `Variables.NeighbourCompletesName` | internal/source/variables.go:39-84 | a bare reference without a key, followed by one whose value completes its name to a key, is taken by that key |
| `Variables.UnknownReferenceStays` | internal/source/variables.go:39-84 | with no key a prefix of the name the reference stays |
| `Variables.BracedReference` | internal/source/variables.go:39-84 | a reference in braces becomes the value of its name |
| `Variables.ShorterNameCaptures` | internal/source/variables.go:39-84 | two concrete keys of which the shorter takes the longer one's reference |
| `FailureLog.FindKeepOffset` | internal/store/failure_log_store.go:138-155 | the start of the line after the bytes to drop |
| `FailureLog.OffsetIsBoundary` | internal/store/failure_log_store.go:138-155 | in a file of records the offset is a record boundary and what follows are whole records |
| `FailureLog.DropIsLeast` | internal/store/failure_log_store.go:94-136 | what is dropped is the least number of records that leaves less than the limit |
| `FailureLog.AppendKeeps` | internal/store/failure_log_store.go:41-71 | after an append the log is within the limit and a suffix of old records and new one, and all of them exactly while they fit |
| `FailureLog.NewestSurvives` | internal/store/failure_log_store.go:94-136 | the newest record survives exactly when it is shorter than the limit or the log was empty |
| `FailureLog.TrimKeepsLongestSuffix` | internal/store/failure_log_store.go:94-136 | a trim keeps the longest suffix of records that is strictly shorter than the limit |
| `FailureLog.LogIsSuffixOfHistory` | internal/store/failure_log_store.go:41-71 | after any history the log is a record-aligned suffix of it and never over the limit |
| `FailureLog.LogHoldsShortSuffixes` | internal/store/failure_log_store.go:41-71 | after any history every run of newest records that is shorter than the limit is in the log |
| `FailureLog.WholeWhileItFits` | internal/store/failure_log_store.go:62-70 | the log is the whole history exactly as long as that fits the limit |
| `FailureLog.KeepsLongestIff` | internal/store/failure_log_store.go:182-224 | the prefix kept is the longest that fits exactly when no probe fails below a prefix that fits, as when every shorter prefix of a fitting one fits |
| `FailureLog.LongerPrefixMissed` | internal/store/failure_log_store.go:182-224 | for JSON escaping, a family of logs whose longest fitting prefix the search misses |
| `FailureLog.BetweenKeepsLongest` | internal/store/failure_log_store.go:182-224 | for JSON escaping, the longest fitting prefix is kept if no failing probe falls inside a character, hence always for a text without two-byte characters |
| `FailureLog.Truncate` | internal/store/failure_log_store.go:182-224 | the loop keeps the prefix the search function ends with; it fits, and there is none only if not even the marker fits |
| `FailureLog.MarshalLine` | internal/store/failure_log_store.go:157-180 | a record within the limit is written unchanged, one over it with the prefix the search kept and the marker, and none only if even the marker alone is over the limit |
| `FailureLog.LoadLatest` | internal/store/failure_log_store.go:226-272 | for any file, torn last line included, the streaming read folds its lines from the oldest on, and fails exactly when one does not decode |
| `FailureLog.FailsIffMalformed` | internal/store/failure_log_store.go:226-272 | one line that does not decode fails the read, wherever it is and whatever was asked for |
| `FailureLog.LinesAreTheFile` | internal/store/failure_log_store.go:226-272 | the lines read are the whole file, each up to its newline but for a torn last one |
| `FailureLog.LinesOfRecords` | internal/store/failure_log_store.go:226-272 | the lines read from a log of records are exactly the records appended |
| `FailureLog.NewestWins` | internal/store/failure_log_store.go:226-272 | for each target the newest surviving failure is reported, and only such targets are |
| `FailureLog.FailureLogStore.AppendFailure` | internal/store/failure_log_store.go:41-71 | the file stays a sequence of records within the limit; the record's line, whole or truncated, is appended behind everything that was there while that fits, and the call fails exactly when there is no line |
| `FailureLog.FailureLogStore.AppendLine` | internal/store/failure_log_store.go:94-136 | the file after appending and cutting is that of the trimmed records, and the old file with the line while that fits |
| `JsonPatch.AppendOutcome` | internal/recoveryoperator/stage_api.go:486-494 | on any document the hold patch succeeds exactly when its tests hold, and then only sets the finalizers |
| `JsonPatch.AppendsHoldOnce` | internal/recoveryoperator/stage_api.go:470-494 | when versions change with content, the patch changes nothing or appends the hold to finalizers that lacked it and keeps every other pointer |
| `JsonPatch.AppendReplay` | internal/recoveryoperator/stage_api.go:486-494 | sending the patch again never changes what the first time left |
| `JsonPatch.AppendLosesIff` | internal/recoveryoperator/stage_api.go:489-493 | without any promise about versions, existing finalizers are lost exactly when none were seen and the pinned document has others |
| `JsonPatch.CheckDisposalPatch` | internal/recoveryoperator/api.go:386-416 | accepts exactly the four-operation patches that pin the object and replace the finalizers by those not allowed to go |
| `JsonPatch.WithoutKeepsOrder` | internal/recoveryoperator/api.go:406-411 | exactly the positions of names that are not allowed stay, in increasing order |
| `JsonPatch.DisposalRemovesAllowed` | internal/recoveryoperator/api.go:386-416 | an accepted patch leaves any document alone, or the document has the identity and version asked for and loses exactly the allowed finalizers and nothing else |
| `JsonPatch.DisposalAccepts` | internal/recoveryoperator/api.go:386-416 | the patch made for an object's finalizers is accepted and takes effect on it |
| `JsonPatch.RemoveAfterAppend` | internal/recoveryoperator/api.go:406-411 | removing after appending restores the list exactly when the hold is allowed and nothing else in the list is |
| `JsonPatch.DisposalUndoesAppend` | internal/recoveryoperator/api.go:386-416 | on documents, the disposal patch after the hold patch restores the finalizers exactly under that condition |
| `JsonPatch.ContainsIffAgrees` | internal/recoveryoperator/stage_api.go:390-417 | the recursive containment check is agreement of scalars, kinds and array lengths at every path that the proposal sets |
| `StageJournal.AppendKeeps` | internal/recoveryoperator/stages.go:170-189 | a refused append absorbs nothing, any other exactly one line; the lines are always a prefix of the file and within the limit |
| `StageJournal.SyncedIff` | internal/recoveryoperator/stages.go:170-189 | an append succeeds exactly when the file is ours and whole, has room, and the medium writes and syncs the line, and is refused exactly when anything but the sync is missing; after a success the file is whole again |
| `StageJournal.TornIsFinal` | internal/recoveryoperator/stages.go:191-205 | after a partial line no append ever changes the journal again |
| `StageJournal.FinishAttests` | internal/recoveryoperator/stages.go:207-226 | a digest is returned exactly when the medium allows it and the file is exactly the absorbed lines |
| `StageAdapter.ScopeIsClosed` | internal/recoveryoperator/stage_api.go:72-159 | a scope pins the system namespace, writes only in the epoch's namespace when draining and nowhere when collecting, and can read what it can write |
| `StageAdapter.ScopeExistsIff` | internal/recoveryoperator/stage_api.go:72-159 | there is a scope exactly for two proper namespaces apart from each other and the system one and, when draining, proper and distinct names |
| `StageAdapter.ScopeMeans` | internal/recoveryoperator/stage_api.go:72-159 | which paths a scope lets be read, listed, patched and created, path by path |
| `StageAdapter.ReceiptsStayPinned` | internal/recoveryoperator/stage_api.go:110-119 | in every drain scope each expected receipt can be read and is pinned to the UID given for it; an empty one pins nothing |
| `StageAdapter.StopIntentPinnedIff` | internal/recoveryoperator/stage_api.go:108-136 | the stop intent can always be read, and is pinned to its UID exactly when no occupancy attempt has its name |
| `StageAdapter.CollidingStopIntent` | internal/recoveryoperator/stage_api.go:120-136 | a drain of one build whose stop intent has the attempt's name and is no longer pinned |
| `StageAdapter.WireKeeps` | internal/recoveryoperator/stage_api.go:187-200 | one attempt of a permitted, guarded request keeps the invariant whatever server, medium and context do |
| `StageAdapter.GuardReads` | internal/recoveryoperator/stage_api.go:281-287 | a passed guard leaves an active read of the pinned system namespace as the last event; otherwise the adapter has failed |
| `StageAdapter.CreateKeeps` | internal/recoveryoperator/stage_api.go:419-457 | a create keeps the run invariant |
| `StageAdapter.UpdateKeeps` | internal/recoveryoperator/stage_api.go:459-519 | an update keeps the run invariant |
| `StageAdapter.PerformFrame` | internal/recoveryoperator/stage_api.go:161-185 | no call changes the pins or rewrites the trace, and a call is refused exactly when it leaves the adapter failed |
| `StageAdapter.ReturnedIsAnswer` | internal/recoveryoperator/stage_api.go:251-279 | an object is returned and remembered under its own path only as the last answer received, with identity and version |
| `StageAdapter.ReturnedIsQualified` | internal/recoveryoperator/stage_api.go:452-518 | a read object has the pinned UID, a created one agrees with the proposal at every path it sets, an updated one is the observed one with the hold appended up to server-maintained fields |
| `StageAdapter.CreatedIsGuarded` | internal/recoveryoperator/stage_api.go:445-457 | an object is returned as created only with the active system read directly before the request and its record |
| `StageAdapter.UpdatedIsGuarded` | internal/recoveryoperator/stage_api.go:498-518 | an object is returned as updated only with the active system read directly before the request and its record |
| `StageAdapter.RunsAreSafe` | internal/recoveryoperator/stage_api.go:187-200 | over every run: at most the allowed requests, each with its own record directly before it, each permitted by the scope, each write directly after a guard, none after an unknown outcome, and the journal holds exactly the records |
| `StageAdapter.FailureIsFinal` | internal/recoveryoperator/stage_api.go:185-190 | after a failure no later call sends anything |
| `StageAdapter.WritesArePinned` | internal/recoveryoperator/stage_api.go:362-386 | every write of every run is in the epoch's namespace, never the system one, on a scoped path, right after the system namespace with the pinned UID was found active; collecting never writes |
| `StageAdapter.PatchesOnlyHold` | internal/recoveryoperator/stage_api.go:470-503 | every patch of every run was built from an object returned in that run and can only append the hold |
| `StageAdapter.RequestsAreJournaled` | internal/recoveryoperator/stages.go:109-111 | the record of every request is a journal line before the request is sent, and there are at least as many lines as requests |
| `StageAnswers.WireAnswered` | internal/recoveryoperator/stage_api.go:187-200 | a request is answered exactly when calls are left, the context lives, the body fits, its record reaches a whole journal and the outcome is known; the answer is the server's |
| `StageAnswers.GetAnswered` | internal/recoveryoperator/stage_api.go:251-279 | a read is absent exactly when it was sent and answered "not found", and returns the object exactly when it is the one asked for with the pinned UID; anything else stops |
| `StageAnswers.GuardAnswered` | internal/recoveryoperator/stage_api.go:281-287 | the guard passes exactly when the pinned system namespace answers, is not being deleted and is active |
| `StageAnswers.ListAnswered` | internal/recoveryoperator/stage_api.go:289-345 | a list is given exactly when it came whole, within the limit and with every item proper |
| `StageAnswers.CreateAnswered` | internal/recoveryoperator/stage_api.go:419-457 | a create exists exactly when the guard passed and the POST was answered "already exists", and returns the object exactly when it keeps the proposal; anything else stops |
| `StageAnswers.UpdateAnswered` | internal/recoveryoperator/stage_api.go:459-519 | an update returns the object exactly when the guard passed and the patch was answered by the observed object with the hold appended; anything else stops |
| `StageExecution.Act` | internal/recoveryoperator/stages.go:254-294 | the action succeeds exactly when both guards pass, the library succeeds and its report is recorded; the stage is then earned and otherwise unknown |
| `StageExecution.SucceedsIff` | internal/recoveryoperator/stages.go:240-294 | an action succeeds exactly when the preparation and the report of a successful library are written and synced to a whole journal and the guards before and after it pass |
| `StageExecution.RunLibrary` | internal/recoveryoperator/stages.go:256-285 | succeeds exactly when the library does and its report is recorded; a report not recorded is an output error; every recorded drain report is the last record |
| `StageExecution.Reserve` | internal/recoveryoperator/stages.go:121-168 | succeeds exactly when the invocation is alive, its file can be made and its preparation is recorded and synced; nothing has been sent |
| `StageExecution.WrittenReadsBack` | internal/recoveryoperator/stages.go:207-226 | after a record that was written the file is exactly the records, so only the medium can make reading it back fail |
| `StageExecution.Attest` | internal/recoveryoperator/stages.go:295-303 | a digest exactly when the result is recorded and reads back, and it attests exactly the records written; the stage is reset exactly when recorded and not read back |
| `StageExecution.ExecuteStage` | internal/recoveryoperator/stages.go:240-308 | no error exactly when the action succeeds, its result is recorded and the journal reads back, and which error exactly when not; the calls reported are the requests sent; a stage other than unknown only when no outcome was unknown and the last request was a passed guard, and with an error exactly when its result was not recorded |
| `StageExecution.UnsyncedResult` | internal/recoveryoperator/stages.go:295-297 | an invocation that succeeds and whose result is written and not synced |
| `StageExecution.JournalFile.Append` | internal/recoveryoperator/stages.go:170-189 | one line is absorbed or none, the file only grows, is whole after a synced line and torn after a refused one that reached it |
| `StageExecution.StageApi.constructor` | internal/recoveryoperator/stage_api.go:173-183 | a new adapter has sent and observed nothing and satisfies the run invariant |
| `StageExecution.StageApi.SendWire` | internal/recoveryoperator/stage_api.go:187-200 | keeps the run invariant; an answer exactly when not failed, at the cost of one request with its record before it; nothing is sent after a failure |
| `StageExecution.StageApi.GetObject` | internal/recoveryoperator/stage_api.go:251-279 | keeps the run invariant; absent exactly when the last request was answered "not found" and nothing failed; an object exactly for a readable path answered with the pinned UID, remembered under its own path |
| `StageExecution.StageApi.Guard` | internal/recoveryoperator/stage_api.go:281-287 | keeps the run invariant; passes exactly when the pinned system namespace is found active, with that read as the last event |
| `StageExecution.StageApi.ListObjects` | internal/recoveryoperator/stage_api.go:289-345 | keeps the run invariant; a list exactly for a listed collection that came whole, within the limit and with every item proper |
| `StageExecution.StageApi.CreateObject` | internal/recoveryoperator/stage_api.go:419-457 | keeps the run invariant; exists exactly when the guarded POST was answered so; an object exactly when posted right after a passed guard, held, and agreeing with the proposal at every path it sets |
| `StageExecution.StageApi.UpdateObject` | internal/recoveryoperator/stage_api.go:459-519 | keeps the run invariant; an object exactly when patched right after a passed guard and equal to the observed one with the hold appended up to server-maintained fields |

## Left out

- HTTP, TLS, routing, JSON decoding and the command line of the daemon and its client: requests and replies are values.
- Running a build, the OCI registry, cache import and export, metrics, the LMDB stores and the service's admission ledgers.
- The drain, inventory and disposal libraries: their calls are an arbitrary sequence of adapter calls.
- SHA-256, FNV and UTF-8: hashes and encoders are parameters, and string lengths count characters.
- Library sorts and Go map iteration: a sort is any sorted permutation and a walk takes any order.
- API paths are structured values, not strings; which content a create must have for its path, the names of occupancy attempts and the typed decoding of objects are given functions.
- JSON numbers are integers and JSON pointers consist of member names only.
- The layout checks of a build archive beyond its headers, and the regular expression that finds unresolved variable names, which is a parameter.
- Files that an operating system changes behind the program's back: the extraction tree and the journal are changed only by the modelled calls.
- What a file written through a link does to the bytes of the link's target: the model follows where it lands, not file contents.
- Other refusals of the file system (name lengths, permissions, a full disk), errors of a member's stream or checksum, and the renaming of the finished tree; what the system does with a member whose own path is a link is a given function.
- Variables.FirstPrefixWins: stated for one reference and the text after it up to the next dollar sign; whole texts are in Variables.WholeTextResolves.
- Variables.WholeTextResolves: not for texts with a bare reference that no key is a prefix of, because there the references are not independent (Variables.NeighbourCompletesName), nor for values with dollar signs.
- SlotPool.PickAvailableSlot: the statement is for a call during which no other task moves a token or a cooldown; other interleavings are in the BuildRun machine, which abstracts the choice of slot.
- HashRing.GetSlotOrder: stated for covered rings, because on any other the source's loop does not end.
