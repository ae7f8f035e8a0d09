/**
 The runner daemon's build, cancel and retire protocol.

 Every POST handler, the asynchronous build goroutine, cancel and retire share
 one mutex. Each critical section is one function on `Server`; everything else
 a goroutine does is a step of its own, so that a run is an arbitrary
 interleaving. An admission is identified by its `done` channel.
 */
module DaemonProtocol {
  import opened Options

  const MAX_REQUEST_ID := 128

  datatype Status = Idle | Running | Cancelling | Completed | Failed | Cancelled

  predicate Active(status: Status) {
    status.Running? || status.Cancelling?
  }

  datatype Build = Build(status: Status, error: string, requestId: string)

  /** The `done` channel made by one admission; the cancel function is that of the same admission. */
  type Invocation = nat

  /** The fields guarded by the daemon's mutex. `uploadDone` also stands for the body and deadline hook it owns. */
  datatype Server = Server(
    build: Build,
    buildRequestId: string,
    buildCancel: Option<Invocation>,
    buildDone: Option<Invocation>,
    uploadDone: Option<Invocation>,
    retiredRequestId: string,
    retireDone: Option<Invocation>,
    retireUnjoinable: bool)

  const NewServer := Server(Build(Idle, "", ""), "", None, None, None, "", None, false)

  // ---------- critical sections ----------

  datatype PostOutcome =
    | BadRequest
    | Barrier
    | Replay(build: Build)
    | OtherBuild
    | Busy
    | Admitted

  function FirstId(ids: seq<string>): string {
    if ids == [] then "" else ids[0]
  }

  function DecidePost(sv: Server, ids: seq<string>): PostOutcome {
    var id := FirstId(ids);
    if |ids| > 1 || |id| > MAX_REQUEST_ID then BadRequest
    else if sv.retiredRequestId != "" then Barrier
    else if id != "" && id == sv.buildRequestId then Replay(sv.build)
    else if sv.buildRequestId != "" then OtherBuild
    else if Active(sv.build.status) then Busy
    else Admitted
  }

  function Admit(sv: Server, requestId: string, done: Invocation): Server {
    sv.(buildRequestId := requestId,
        build := Build(Running, "", requestId),
        buildCancel := Some(done),
        buildDone := Some(done),
        uploadDone := Some(done))
  }

  function SetBuildState(sv: Server, status: Status, error: string): Server {
    sv.(build := Build(status, error, sv.buildRequestId))
  }

  function ClearExecution(sv: Server, done: Invocation): Server {
    if sv.buildDone == Some(done) then sv.(buildDone := None, buildCancel := None) else sv
  }

  function ClearUpload(sv: Server, done: Invocation): Server {
    if sv.uploadDone == Some(done) then sv.(uploadDone := None) else sv
  }

  predicate Cancellable(sv: Server) {
    Active(sv.build.status) && sv.buildCancel.Some?
  }

  function CancelActive(sv: Server, reason: string): Server {
    if Cancellable(sv) then sv.(build := Build(Cancelling, reason, sv.buildRequestId)) else sv
  }

  /** Exactly one non-empty id of at most 128 bytes. */
  predicate RetireIdOk(ids: seq<string>) {
    |ids| == 1 && ids[0] != "" && |ids[0]| <= MAX_REQUEST_ID
  }

  /** The two conflict exits of the retire POST. */
  predicate RetireConflict(sv: Server, id: string) {
    if sv.retiredRequestId != "" then sv.retiredRequestId != id
    else if sv.buildRequestId != "" then sv.buildRequestId != id
    else sv.build.status != Idle
  }

  function InstallBarrier(sv: Server, id: string): Server {
    if sv.retiredRequestId != "" then sv
    else sv.(retiredRequestId := id,
             retireDone := sv.buildDone,
             retireUnjoinable := Active(sv.build.status) && sv.buildDone.None?)
  }

  predicate RetireCancels(sv: Server) {
    sv.build.status == Running && sv.buildCancel.Some?
  }

  function RetirePost(sv: Server, id: string): Server {
    var barred := InstallBarrier(sv, id);
    if RetireCancels(barred) then barred.(build := Build(Cancelling, "retire requested", barred.buildRequestId))
        else barred
  }

  datatype Phase = Retiring | LocallyJoined

  datatype RetireState = RetireState(
    requestId: string, phase: Phase, localSettled: bool, remoteWorkerSettled: bool, build: Build)

  function RetirePhase(sv: Server, closed: set<Invocation>): Phase {
    if sv.retireUnjoinable || (sv.retireDone.Some? && sv.retireDone.value !in closed) then Retiring else LocallyJoined
  }

  function StateLocked(sv: Server, closed: set<Invocation>): RetireState {
    var phase := RetirePhase(sv, closed);
    RetireState(sv.retiredRequestId, phase, phase == LocallyJoined, false, sv.build)
  }

  /** HTTP status and, on success, the body of a retire POST or GET. */
  datatype RetireReply = Refused(code: nat) | Accepted(code: nat, state: RetireState)

  function ReplyFor(state: RetireState): RetireReply {
    Accepted(if state.phase == Retiring then 202 else 200, state)
  }

  function RetirePostReply(sv: Server, ids: seq<string>, closed: set<Invocation>): RetireReply {
    if !RetireIdOk(ids) then Refused(400)
    else if RetireConflict(sv, ids[0]) then Refused(409)
    else ReplyFor(StateLocked(RetirePost(sv, ids[0]), closed))
  }

  function RetireGetReply(sv: Server, ids: seq<string>, closed: set<Invocation>): RetireReply {
    if !RetireIdOk(ids) then Refused(400)
    else if sv.retiredRequestId == "" then Refused(404)
    else if sv.retiredRequestId != ids[0] then Refused(409)
    else ReplyFor(StateLocked(sv, closed))
  }

  // ---------- the interleaving machine ----------

  /**
   Where one admitted invocation stands. `Ready` has passed the last context
   check of the handler, `Building` the one before batch execution; the later
   three follow the terminal status write and differ by who performed it.
   */
  datatype Exec =
    | Uploading
    | Ready
    | Extracting
    | Building
    | Terminal(byHandler: bool, cancelDue: bool)
    | Closed(byHandler: bool)
    | Cleared(byHandler: bool)

  predicate BeforeTerminal(e: Exec) {
    e.Uploading? || e.Ready? || e.Extracting? || e.Building?
  }

  /** `uploadHeld`: the handler's deferred clearBuildUpload has not run yet. */
  datatype Run = Run(requestId: string, exec: Exec, uploadHeld: bool)

  datatype System = System(server: Server, runs: map<Invocation, Run>, cancelled: set<Invocation>)

  const Start := System(NewServer, map[], {})

  /** The channels a select would find closed. */
  function ClosedDones(s: System): set<Invocation> {
    set d | d in s.runs && (s.runs[d].exec.Closed? || s.runs[d].exec.Cleared?)
  }

  datatype Step =
    | Post(ids: seq<string>, done: Invocation)
    | Cancel(reason: string)
    | Retire(ids: seq<string>)
    | PassUploadCheck(d: Invocation)
    | Spawn(d: Invocation)
    | PassExecutionCheck(d: Invocation)
    | WriteTerminal(d: Invocation, status: Status, error: string)
    | SelfCancel(d: Invocation)
    | CloseDone(d: Invocation)
    | ClearBuild(d: Invocation)
    | ReleaseUpload(d: Invocation)

  /** Which terminal status an invocation may write; `cancelled` is seen set by its own context check. */
  predicate MayWrite(e: Exec, status: Status, cancelled: bool) {
    match e
    case Uploading => status == Failed || (status == Cancelled && cancelled)
    case Extracting => status == Failed || (status == Cancelled && cancelled)
    case Building => status == Completed || status == Failed || (status == Cancelled && cancelled)
    case _ => false
  }

  predicate Enabled(s: System, step: Step) {
    match step
    case Post(_, done) => done !in s.runs
    case Cancel(_) => true
    case Retire(_) => true
    case PassUploadCheck(d) => d in s.runs && s.runs[d].exec == Uploading && d !in s.cancelled
    case Spawn(d) => d in s.runs && s.runs[d].exec == Ready
    case PassExecutionCheck(d) => d in s.runs && s.runs[d].exec == Extracting && d !in s.cancelled
    case WriteTerminal(d, status, _) => d in s.runs && MayWrite(s.runs[d].exec, status, d in s.cancelled)
    case SelfCancel(d) => d in s.runs && s.runs[d].exec.Terminal? && s.runs[d].exec.cancelDue
    case CloseDone(d) => d in s.runs && s.runs[d].exec.Terminal? && !s.runs[d].exec.cancelDue
    case ClearBuild(d) => d in s.runs && s.runs[d].exec.Closed?
    case ReleaseUpload(d) =>
      d in s.runs && s.runs[d].uploadHeld && HandlerReturned(s.runs[d].exec)
  }

  /** The handler returns after spawning the goroutine or after clearing the execution itself. */
  predicate HandlerReturned(e: Exec) {
    match e
    case Uploading => false
    case Ready => false
    case Extracting => true
    case Building => true
    case Terminal(byHandler, _) => !byHandler
    case Closed(byHandler) => !byHandler
    case Cleared(_) => true
  }

  function Move(s: System, d: Invocation, e: Exec): System
    requires d in s.runs
  {
    s.(runs := s.runs[d := s.runs[d].(exec := e)])
  }

  function Apply(s: System, step: Step): System
    requires Enabled(s, step)
  {
    match step
    case Post(ids, done) =>
      if DecidePost(s.server, ids) != Admitted then s
      else s.(server := Admit(s.server, FirstId(ids), done),
              runs := s.runs[done := Run(FirstId(ids), Uploading, true)])
    case Cancel(reason) =>
      s.(server := CancelActive(s.server, reason),
         cancelled := if Cancellable(s.server) then s.cancelled + {s.server.buildCancel.value} else s.cancelled)
    case Retire(ids) =>
      if !RetireIdOk(ids) || RetireConflict(s.server, ids[0]) then s
      else s.(server := RetirePost(s.server, ids[0]),
              cancelled := if RetireCancels(s.server) then s.cancelled + {s.server.buildCancel.value} else s.cancelled)
    case PassUploadCheck(d) => Move(s, d, Ready)
    case Spawn(d) => Move(s, d, Extracting)
    case PassExecutionCheck(d) => Move(s, d, Building)
    case WriteTerminal(d, status, error) =>
      var byHandler := s.runs[d].exec.Uploading?;
      Move(s.(server := SetBuildState(s.server, status, error)), d, Terminal(byHandler, byHandler && status == Failed))
    case SelfCancel(d) =>
      Move(s.(cancelled := s.cancelled + {d}), d, Terminal(s.runs[d].exec.byHandler, false))
    case CloseDone(d) => Move(s, d, Closed(s.runs[d].exec.byHandler))
    case ClearBuild(d) =>
      Move(s.(server := ClearExecution(s.server, d)), d, Cleared(s.runs[d].exec.byHandler))
    case ReleaseUpload(d) =>
      s.(server := ClearUpload(s.server, d), runs := s.runs[d := s.runs[d].(uploadHeld := false)])
  }

  /** `t` is where the run `steps` leads from `s`. */
  ghost predicate Leads(s: System, steps: seq<Step>, t: System)
    decreases |steps|
  {
    if steps == [] then s == t
    else Enabled(s, steps[0]) && Leads(Apply(s, steps[0]), steps[1..], t)
  }

  // ---------- invariants ----------

  /** An active status is owned by exactly one unfinished invocation, through an open `done`. */
  ghost predicate Ownership(s: System) {
    var sv := s.server;
    && sv.buildCancel == sv.buildDone
    && (forall d <- s.runs :: BeforeTerminal(s.runs[d].exec) ==> Active(sv.build.status) && sv.buildDone == Some(d))
    && (Active(sv.build.status) ==>
          sv.buildDone.Some? && sv.buildDone.value in s.runs && BeforeTerminal(s.runs[sv.buildDone.value].exec))
    && (sv.buildDone.Some? ==> sv.buildDone.value in s.runs)
    && (sv.build.status == Cancelling ==> sv.buildDone.value in s.cancelled)
    && s.cancelled <= s.runs.Keys
  }

  ghost predicate OneNamed(s: System) {
    forall d, e | d in s.runs && e in s.runs :: s.runs[d].requestId != "" && s.runs[e].requestId != "" ==> d == e
  }

  /** A request id, once bound, names one invocation; every other one was anonymous. */
  ghost predicate Identity(s: System) {
    var sv := s.server;
    && sv.build.requestId == sv.buildRequestId
    && (sv.build.status == Idle ==> s.runs.Keys == {} && sv.buildRequestId == "")
    && (forall d <- s.runs :: s.runs[d].requestId != "" ==> s.runs[d].requestId == sv.buildRequestId)
    && OneNamed(s)
    && (forall d <- s.runs :: BeforeTerminal(s.runs[d].exec) ==> s.runs[d].requestId == sv.buildRequestId)
  }

  /** The body and deadline hook belong to the request the runner is bound to. */
  ghost predicate UploadOwned(s: System) {
    s.server.uploadDone.Some? ==>
      && s.server.uploadDone.value in s.runs
      && s.runs[s.server.uploadDone.value].requestId == s.server.buildRequestId
      && s.runs[s.server.uploadDone.value].uploadHeld
  }

  ghost predicate BarrierSound(s: System) {
    var sv := s.server;
    && !sv.retireUnjoinable
    && |sv.retiredRequestId| <= MAX_REQUEST_ID
    && (sv.retiredRequestId == "" ==> sv.retireDone.None?)
    && (sv.retireDone.Some? ==> sv.retireDone.value in s.runs)
    && (sv.retiredRequestId != "" ==>
          && sv.build.status != Running
          && (forall d <- s.runs :: BeforeTerminal(s.runs[d].exec) ==> sv.retireDone == Some(d))
          && (if sv.buildRequestId == "" then sv.build.status == Idle else sv.buildRequestId == sv.retiredRequestId))
  }

  /** Some admitted invocation has this request id. */
  ghost predicate BoundTo(s: System, id: string) {
    exists d :: d in s.runs && s.runs[d].requestId == id
  }

  /** The runner is bound by an admission, is idle only before the first, and says "running" only until cancelled. */
  ghost predicate Binding(s: System) {
    && (s.server.buildRequestId != "" ==> BoundTo(s, s.server.buildRequestId))
    && (s.runs.Keys == {} ==> s.server.build.status == Idle)
    && (s.server.build.status == Running ==> s.server.buildDone.Some? && s.server.buildDone.value !in s.cancelled)
  }

  ghost predicate Inv(s: System) {
    Ownership(s) && Identity(s) && UploadOwned(s) && BarrierSound(s) && Binding(s)
  }

  lemma OwnershipKeptByPost(s: System, step: Step)
    requires Inv(s) && Enabled(s, step) && (step.Post?)
    ensures Ownership(Apply(s, step))
  {
  }

  lemma OwnershipKeptByOrder(s: System, step: Step)
    requires Inv(s) && Enabled(s, step) && (step.Cancel? || step.Retire?)
    ensures Ownership(Apply(s, step))
  {
  }

  lemma OwnershipKeptByRun(s: System, step: Step)
    requires Inv(s) && Enabled(s, step) && (!step.Post? && !step.Cancel? && !step.Retire?)
    ensures Ownership(Apply(s, step))
  {
  }

  lemma OwnershipKept(s: System, step: Step)
    requires Inv(s) && Enabled(s, step)
    ensures Ownership(Apply(s, step))
  {
    if step.Post? {
      OwnershipKeptByPost(s, step);
    } else if step.Cancel? || step.Retire? {
      OwnershipKeptByOrder(s, step);
    } else {
      OwnershipKeptByRun(s, step);
    }
  }

  lemma OneNamedKept(s: System, step: Step)
    requires Inv(s) && Enabled(s, step)
    ensures OneNamed(Apply(s, step))
  {
  }

  lemma IdentityKeptByPost(s: System, step: Step)
    requires Inv(s) && Enabled(s, step) && step.Post?
    ensures Identity(Apply(s, step))
  {
    OneNamedKept(s, step);
  }

  lemma IdentityKeptByOther(s: System, step: Step)
    requires Inv(s) && Enabled(s, step) && !step.Post?
    ensures Identity(Apply(s, step))
  {
    OneNamedKept(s, step);
  }

  lemma IdentityKept(s: System, step: Step)
    requires Inv(s) && Enabled(s, step)
    ensures Identity(Apply(s, step))
  {
    if step.Post? {
      IdentityKeptByPost(s, step);
    } else {
      IdentityKeptByOther(s, step);
    }
  }

  lemma UploadKept(s: System, step: Step)
    requires Inv(s) && Enabled(s, step)
    ensures UploadOwned(Apply(s, step))
  {
  }

  lemma BarrierKeptByPost(s: System, step: Step)
    requires Inv(s) && Enabled(s, step) && (step.Post?)
    ensures BarrierSound(Apply(s, step))
  {
  }

  lemma BarrierKeptByOrder(s: System, step: Step)
    requires Inv(s) && Enabled(s, step) && (step.Cancel? || step.Retire?)
    ensures BarrierSound(Apply(s, step))
  {
  }

  lemma BarrierKeptByRun(s: System, step: Step)
    requires Inv(s) && Enabled(s, step) && (!step.Post? && !step.Cancel? && !step.Retire?)
    ensures BarrierSound(Apply(s, step))
  {
  }

  lemma BarrierKept(s: System, step: Step)
    requires Inv(s) && Enabled(s, step)
    ensures BarrierSound(Apply(s, step))
  {
    if step.Post? {
      BarrierKeptByPost(s, step);
    } else if step.Cancel? || step.Retire? {
      BarrierKeptByOrder(s, step);
    } else {
      BarrierKeptByRun(s, step);
    }
  }

  lemma BoundKept(s: System, step: Step, id: string)
    requires Enabled(s, step) && BoundTo(s, id)
    ensures BoundTo(Apply(s, step), id)
  {
    var d :| d in s.runs && s.runs[d].requestId == id;
    assert d in Apply(s, step).runs && Apply(s, step).runs[d].requestId == id;
  }

  lemma BindingKeptByPost(s: System, step: Step)
    requires Inv(s) && Enabled(s, step) && step.Post?
    ensures Binding(Apply(s, step))
  {
    if DecidePost(s.server, step.ids) == Admitted { assert step.done in Apply(s, step).runs; }
  }

  lemma BindingKeptByOther(s: System, step: Step)
    requires Inv(s) && Enabled(s, step) && !step.Post?
    ensures Binding(Apply(s, step))
  {
    if s.server.buildRequestId != "" { BoundKept(s, step, s.server.buildRequestId); }
  }

  lemma BindingKept(s: System, step: Step)
    requires Inv(s) && Enabled(s, step)
    ensures Binding(Apply(s, step))
  {
    if step.Post? {
      BindingKeptByPost(s, step);
    } else {
      BindingKeptByOther(s, step);
    }
  }

  lemma InvKept(s: System, step: Step)
    requires Inv(s) && Enabled(s, step)
    ensures Inv(Apply(s, step))
  {
    BindingKept(s, step);
    OwnershipKept(s, step);
    IdentityKept(s, step);
    UploadKept(s, step);
    BarrierKept(s, step);
  }

  lemma {:induction false} InvHolds(s: System, steps: seq<Step>, t: System)
    requires Inv(s) && Leads(s, steps, t)
    ensures Inv(t)
    decreases |steps|
  {
    if steps != [] {
      InvKept(s, steps[0]);
      InvHolds(Apply(s, steps[0]), steps[1..], t);
    }
  }

  // ---------- what every run keeps ----------

  /** The state `s` is reached by some interleaving. */
  ghost predicate Reachable(s: System) {
    exists steps: seq<Step> :: Leads(Start, steps, s)
  }

  lemma ReachableInv(s: System)
    requires Reachable(s)
    ensures Inv(s)
  {
    var steps: seq<Step> :| Leads(Start, steps, s);
    InvHolds(Start, steps, s);
  }

  ghost predicate Unfinished(s: System, d: Invocation) {
    d in s.runs && BeforeTerminal(s.runs[d].exec)
  }

  /** The status is active exactly while some invocation is unfinished: the one that holds the channel. */
  lemma ActiveIffUnfinished(s: System)
    requires Inv(s)
    ensures forall d: Invocation :: Unfinished(s, d) <==> Active(s.server.build.status) && s.server.buildDone == Some(d)
    ensures Active(s.server.build.status) ==> s.server.buildDone.Some?
  {
  }

  /**
   At most one admitted invocation is before its terminal write, the status is
   active exactly while there is one, it holds the open `done` and the cancel
   function, and so a barrier is never unjoinable.
   */
  lemma OneUnfinishedOwner(s: System)
    requires Reachable(s)
    ensures forall d: Invocation, e: Invocation :: Unfinished(s, d) && Unfinished(s, e) ==> d == e
    ensures Active(s.server.build.status) <==> exists d: Invocation :: Unfinished(s, d)
    ensures forall d: Invocation :: Unfinished(s, d) ==>
              s.server.buildDone == Some(d) && s.server.buildCancel == Some(d) && d !in ClosedDones(s)
    ensures !s.server.retireUnjoinable
  {
    ReachableInv(s);
    if Active(s.server.build.status) {
      assert Unfinished(s, s.server.buildDone.value);
    }
  }

  lemma BoundStep(s: System, step: Step)
    requires Inv(s) && Enabled(s, step) && s.server.buildRequestId != ""
    ensures var t := Apply(s, step); t.server.buildRequestId == s.server.buildRequestId && t.runs.Keys == s.runs.Keys
  {
  }

  /**
   A build POST is admitted exactly when the runner is unbound, not barred and has nothing unfinished; what it
   admits is then the only unfinished invocation, and otherwise nothing changes.
   */
  lemma PostMeans(s: System, ids: seq<string>, done: Invocation)
    requires Inv(s) && done !in s.runs
    ensures var admits, t := DecidePost(s.server, ids) == Admitted, Apply(s, Post(ids, done));
            && Inv(t)
            && (admits <==>
                  && |ids| <= 1 && |FirstId(ids)| <= MAX_REQUEST_ID && !Barred(s) && s.server.buildRequestId == ""
                  && forall d: Invocation :: !Unfinished(s, d))
            && (admits ==> forall d: Invocation :: Unfinished(t, d) <==> d == done)
            && (!admits ==> t == s)
  {
    InvKept(s, Post(ids, done));
    ActiveIffUnfinished(s);
    ActiveIffUnfinished(Apply(s, Post(ids, done)));
  }

  /** Some admitted invocation has a request id. */
  ghost predicate Named(s: System) {
    exists d :: d in s.runs && s.runs[d].requestId != ""
  }

  ghost predicate Repeats(s: System, id: string) {
    id != "" && BoundTo(s, id)
  }

  lemma BoundMeans(s: System, id: string)
    requires Inv(s)
    ensures Named(s) <==> s.server.buildRequestId != ""
    ensures Repeats(s, id) <==> id != "" && id == s.server.buildRequestId
  {
    if s.server.buildRequestId != "" {
      var d :| d in s.runs && s.runs[d].requestId == s.server.buildRequestId;
    }
  }

  /** What answers a build POST is decided by the admissions so far; a repeated one gets the current build. */
  ghost predicate PostAnswer(s: System, ids: seq<string>, outcome: PostOutcome) {
    var id, ok := FirstId(ids), |ids| <= 1 && |FirstId(ids)| <= 128;
    && (outcome.BadRequest? <==> !ok)
    && (outcome.Barrier? <==> ok && Barred(s))
    && (outcome.Replay? <==> ok && !Barred(s) && Repeats(s, id))
    && (outcome.Replay? ==> outcome.build == s.server.build && outcome.build.requestId == id)
    && (outcome.OtherBuild? <==> ok && !Barred(s) && Named(s) && !Repeats(s, id))
    && (outcome.Busy? <==> ok && !Barred(s) && !Named(s) && exists d: Invocation :: Unfinished(s, d))
    && (outcome.Admitted? <==> ok && !Barred(s) && !Named(s) && forall d: Invocation :: !Unfinished(s, d))
  }

  lemma PostAnswered(s: System, ids: seq<string>)
    requires Inv(s)
    ensures PostAnswer(s, ids, DecidePost(s.server, ids))
  {
    BoundMeans(s, FirstId(ids));
    ActiveIffUnfinished(s);
    if Active(s.server.build.status) { assert Unfinished(s, s.server.buildDone.value); }
  }

  /** After a named admission every later POST of that id on a runner not barred replays the current build. */
  lemma AdmissionIsReplayed(s: System, ids: seq<string>, done: Invocation, steps: seq<Step>, t: System)
    requires Inv(s) && done !in s.runs && DecidePost(s.server, ids) == Admitted && FirstId(ids) != ""
    requires Leads(Apply(s, Post(ids, done)), steps, t) && !Barred(t)
    ensures DecidePost(t.server, ids) == Replay(t.server.build)
    ensures t.runs.Keys == s.runs.Keys + {done} && t.server.build.requestId == FirstId(ids)
  {
    var u := Apply(s, Post(ids, done));
    InvKept(s, Post(ids, done));
    RequestIdIsSticky(u, steps, t);
    InvHolds(u, steps, t);
  }

  /** A retire is accepted for the id that barred the runner, and before that for the id of the build or on no build. */
  lemma RetireAcceptedIff(s: System, id: string)
    requires Inv(s) && id != ""
    ensures !RetireConflict(s.server, id) <==>
            if Barred(s) then s.server.retiredRequestId == id else BoundTo(s, id) || s.runs.Keys == {}
  {
    BoundMeans(s, id);
  }

  /** It calls the cancel function of what is unfinished unless that was already cancelled. */
  lemma RetireCancelsIff(s: System, d: Invocation)
    requires Inv(s)
    ensures RetireCancels(s.server) && s.server.buildCancel == Some(d) <==> Unfinished(s, d) && d !in s.cancelled
  {
    ActiveIffUnfinished(s);
  }

  /** An accepted retire bars the runner for its id and leaves nothing unfinished that is not cancelled. */
  lemma RetireMeans(s: System, ids: seq<string>)
    requires Inv(s) && RetireIdOk(ids) && !RetireConflict(s.server, ids[0])
    ensures var t := Apply(s, Retire(ids));
            && Inv(t) && Barred(t) && t.server.retiredRequestId == ids[0]
            && ClosedDones(t) == ClosedDones(s)
            && (forall d: Invocation :: Unfinished(t, d) ==> d in t.cancelled)
            && (RetireCancels(s.server) ==>
                  Unfinished(t, s.server.buildCancel.value) && s.server.buildCancel.value in t.cancelled)
            && (t.server.uploadDone.Some? ==>
                  t.server.uploadDone.value in t.runs && t.runs[t.server.uploadDone.value].requestId == ids[0])
  {
    InvKept(s, Retire(ids));
    ActiveIffUnfinished(Apply(s, Retire(ids)));
    if s.server.uploadDone.Some? { RetireInterruptsItsOwnUpload(s, ids[0]); }
  }

  /** A non-empty request id is bound for good and is admitted at most once, over any continuation. */
  lemma {:induction false} RequestIdIsSticky(s: System, steps: seq<Step>, t: System)
    requires Inv(s) && Leads(s, steps, t) && s.server.buildRequestId != ""
    ensures t.server.buildRequestId == s.server.buildRequestId
    ensures t.runs.Keys == s.runs.Keys
    ensures OneNamed(t)
    decreases |steps|
  {
    if steps != [] {
      BoundStep(s, steps[0]);
      InvKept(s, steps[0]);
      RequestIdIsSticky(Apply(s, steps[0]), steps[1..], t);
    }
  }

  ghost predicate Barred(s: System) {
    s.server.retiredRequestId != ""
  }

  lemma BarredStep(s: System, step: Step)
    requires Inv(s) && Barred(s) && Enabled(s, step)
    ensures var t := Apply(s, step);
            && t.server.retiredRequestId == s.server.retiredRequestId
            && t.server.retireDone == s.server.retireDone
            && t.runs.Keys == s.runs.Keys
            && s.cancelled <= t.cancelled
            && ClosedDones(s) <= ClosedDones(t)
            && (forall d <- s.runs :: t.runs[d].exec.Building? ==> s.runs[d].exec.Building?)
  {
    ClosedStep(s, step);
  }

  /** A closed channel stays closed. */
  lemma ClosedStep(s: System, step: Step)
    requires Enabled(s, step)
    ensures ClosedDones(s) <= ClosedDones(Apply(s, step))
  {
  }

  /**
   Once the barrier is installed, every later state has the same barrier and
   the same admissions, whatever is still unfinished is cancelled, and no
   invocation passes the check in front of batch execution any more.
   */
  lemma {:induction false} BarrierIsSticky(s: System, steps: seq<Step>, t: System)
    requires Inv(s) && Barred(s) && Leads(s, steps, t)
    ensures t.server.retiredRequestId == s.server.retiredRequestId && t.server.retireDone == s.server.retireDone
    ensures t.runs.Keys == s.runs.Keys
    ensures forall d: Invocation :: Unfinished(t, d) ==> d in t.cancelled && t.server.build.status == Cancelling
    ensures forall d <- t.runs :: t.runs[d].exec.Building? ==> s.runs[d].exec.Building?
    ensures ClosedDones(s) <= ClosedDones(t)
    ensures forall ids :: DecidePost(t.server, ids) in {BadRequest, Barrier}
    decreases |steps|
  {
    if steps != [] {
      var u := Apply(s, steps[0]);
      BarredStep(s, steps[0]);
      InvKept(s, steps[0]);
      BarrierIsSticky(u, steps[1..], t);
    }
  }

  function PhaseOf(s: System): Phase {
    RetirePhase(s.server, ClosedDones(s))
  }

  lemma JoinedMeansFinished(s: System)
    requires Inv(s) && Barred(s) && PhaseOf(s) == LocallyJoined
    ensures forall d: Invocation :: !Unfinished(s, d)
    ensures !Active(s.server.build.status)
  {
    assert forall d: Invocation :: d in ClosedDones(s) ==> !Unfinished(s, d);
  }

  lemma JoinedStep(s: System, step: Step)
    requires Inv(s) && Barred(s) && PhaseOf(s) == LocallyJoined && Enabled(s, step)
    ensures PhaseOf(Apply(s, step)) == LocallyJoined && Apply(s, step).server.build == s.server.build
  {
    BarredStep(s, step);
    JoinedMeansFinished(s);
  }

  /**
   "Locally joined" means that no accepted invocation is before its terminal
   write; it never reverts, and the reported build never changes again.
   */
  lemma {:induction false} JoinedIsFinal(s: System, steps: seq<Step>, t: System)
    requires Inv(s) && Barred(s) && PhaseOf(s) == LocallyJoined && Leads(s, steps, t)
    ensures forall d: Invocation :: !Unfinished(t, d)
    ensures StateLocked(t.server, ClosedDones(t)) == StateLocked(s.server, ClosedDones(s))
    decreases |steps|
  {
    if steps == [] {
      JoinedMeansFinished(s);
    } else {
      var u := Apply(s, steps[0]);
      BarredStep(s, steps[0]);
      InvKept(s, steps[0]);
      JoinedStep(s, steps[0]);
      JoinedIsFinal(u, steps[1..], t);
    }
  }

  /** The step that brings an invocation closer to its closed `done`. */
  function StepTowardJoin(d: Invocation, e: Exec): Step {
    match e
    case Ready => Spawn(d)
    case Terminal(_, due) => if due then SelfCancel(d) else CloseDone(d)
    case _ => WriteTerminal(d, Cancelled, "")
  }

  function StepsLeft(e: Exec): nat {
    match e
    case Ready => 4
    case Terminal(_, due) => if due then 2 else 1
    case Closed(_) => 0
    case Cleared(_) => 0
    case _ => 3
  }

  /** A barred runner can always still join: the unfinished invocation is never stuck behind the barrier. */
  lemma {:induction false} BarredCanJoin(s: System) returns (steps: seq<Step>, t: System)
    requires Inv(s) && Barred(s)
    ensures Leads(s, steps, t) && PhaseOf(t) == LocallyJoined && |steps| <= 4
    ensures |steps| <= if s.server.retireDone.None? then 0 else StepsLeft(s.runs[s.server.retireDone.value].exec)
    decreases if s.server.retireDone.None? then 0 else StepsLeft(s.runs[s.server.retireDone.value].exec)
  {
    if PhaseOf(s) == LocallyJoined {
      return [], s;
    }
    var d := s.server.retireDone.value;
    var step := StepTowardJoin(d, s.runs[d].exec);
    assert BeforeTerminal(s.runs[d].exec) ==> d in s.cancelled;
    var u := Apply(s, step);
    BarredStep(s, step);
    InvKept(s, step);
    assert StepsLeft(u.runs[d].exec) < StepsLeft(s.runs[d].exec);
    var rest;
    rest, t := BarredCanJoin(u);
    steps := [step] + rest;
    assert steps[1..] == rest;
  }

  lemma LeadsFrom(s: System, step: Step, steps: seq<Step>, t: System)
    requires Enabled(s, step) && Leads(Apply(s, step), steps, t)
    ensures Leads(s, [step] + steps, t)
  {
    assert ([step] + steps)[1..] == steps;
  }

  /** Nothing but its own cancellation keeps an admitted build from running to its end. */
  lemma AdmittedCanComplete(s: System, d: Invocation, status: Status, error: string)
    returns (steps: seq<Step>, t: System)
    requires Inv(s) && d in s.runs && s.runs[d].exec == Uploading && d !in s.cancelled
    requires status == Completed || status == Failed
    ensures Leads(s, steps, t) && t.runs == s.runs[d := s.runs[d].(exec := Terminal(false, false))]
    ensures t.server.build == Build(status, error, s.runs[d].requestId)
  {
    var s1 := Apply(s, PassUploadCheck(d));
    var s2 := Apply(s1, Spawn(d));
    var s3 := Apply(s2, PassExecutionCheck(d));
    t := Apply(s3, WriteTerminal(d, status, error));
    LeadsFrom(s3, WriteTerminal(d, status, error), [], t);
    LeadsFrom(s2, PassExecutionCheck(d), [WriteTerminal(d, status, error)] + [], t);
    LeadsFrom(s1, Spawn(d), [PassExecutionCheck(d)] + ([WriteTerminal(d, status, error)] + []), t);
    steps := [Spawn(d)] + ([PassExecutionCheck(d)] + ([WriteTerminal(d, status, error)] + []));
    LeadsFrom(s, PassUploadCheck(d), steps, t);
    steps := [PassUploadCheck(d)] + steps;
  }

  /** The upload a retire POST interrupts is the upload of the request it retires. */
  lemma RetireInterruptsItsOwnUpload(s: System, id: string)
    requires Inv(s) && id != "" && !RetireConflict(s.server, id) && s.server.uploadDone.Some?
    ensures var d := s.server.uploadDone.value;
            d in s.runs && s.runs[d].requestId == id && s.runs[d].uploadHeld
  {
  }
}

/** The daemon client's acceptance of a retire response. */
module RetireClient {
  import opened Options
  import opened DaemonProtocol

  datatype WireBuild = WireBuild(status: string, error: string, requestId: string)

  /** The decoded response; the two flags are pointers, absent when the server omitted them. */
  datatype Wire = Wire(
    requestId: string, phase: string, localSettled: Option<bool>, remoteWorkerSettled: Option<bool>, build: WireBuild)

  function StatusName(status: Status): string {
    match status
    case Idle => "idle"
    case Running => "running"
    case Cancelling => "cancelling"
    case Completed => "completed"
    case Failed => "failed"
    case Cancelled => "cancelled"
  }

  function PhaseName(phase: Phase): string {
    if phase == Retiring then "retiring" else "locally-joined"
  }

  /** Encoding by the server and decoding by the client. */
  function OnTheWire(state: RetireState): Wire {
    Wire(state.requestId, PhaseName(state.phase), Some(state.localSettled), Some(state.remoteWorkerSettled),
         WireBuild(StatusName(state.build.status), state.build.error, state.build.requestId))
  }

  /** The full attestation predicate of requestRetire. */
  predicate Attests(wire: Wire, requestId: string) {
    && requestId != "" && |requestId| <= MAX_REQUEST_ID
    && wire.requestId == requestId
    && wire.localSettled.Some?
    && wire.remoteWorkerSettled == Some(false)
    && (wire.build.requestId == "" || wire.build.requestId == requestId)
    && wire.build.status != ""
    && (wire.phase == "retiring" || wire.phase == "locally-joined")
    && wire.localSettled.value == (wire.phase == "locally-joined")
    && (wire.localSettled.value ==> wire.build.status != "running" && wire.build.status != "cancelling")
  }

  /** An accepted reply names the request, claims nothing of remote workers, and settles only with no active build. */
  lemma AcceptedReplyMeans(wire: Wire, requestId: string)
    requires 0 < |requestId| <= 128
    ensures Attests(wire, requestId) <==>
            && wire.requestId == requestId && wire.build.requestId in {"", requestId}
            && wire.remoteWorkerSettled == Some(false) && wire.build.status != ""
            && ((wire.localSettled == Some(false) && wire.phase == "retiring")
                || (wire.localSettled == Some(true) && wire.phase == "locally-joined"
                    && wire.build.status !in {"running", "cancelling"}))
  {
    assert |"retiring"| != |"locally-joined"|;
  }

  lemma StatusNames(status: Status)
    ensures StatusName(status) != ""
    ensures StatusName(status) in ["running", "cancelling"] ==> Active(status)
  {
    var name := StatusName(status);
    assert |name| == match status
                     case Idle => 4
                     case Running => 7
                     case Cancelling => 10
                     case Completed => 9
                     case Failed => 6
                     case Cancelled => 9;
  }

  lemma SoundStateAttests(s: System, closed: set<Invocation>, id: string)
    requires Inv(s) && closed == ClosedDones(s) && Barred(s)
    ensures Attests(OnTheWire(StateLocked(s.server, closed)), id) <==> id == s.server.retiredRequestId
  {
    StatusNames(s.server.build.status);
    if RetirePhase(s.server, closed) == LocallyJoined {
      JoinedMeansFinished(s);
    }
    assert |"retiring"| != |"locally-joined"|;
  }

  /**
   Every 2xx the server can emit, in any state that runs keep, satisfies the client for exactly the id that was asked.
   */
  lemma EveryAcceptedReplyAttests(s: System, ids: seq<string>, post: bool, id: string)
    requires Inv(s)
    ensures var reply := if post then RetirePostReply(s.server, ids, ClosedDones(s))
                                 else RetireGetReply(s.server, ids, ClosedDones(s));
            reply.Accepted? ==>
              && reply.code == (if reply.state.localSettled then 200 else 202)
              && (Attests(OnTheWire(reply.state), id) <==> id == ids[0])
  {
    if post && RetireIdOk(ids) && !RetireConflict(s.server, ids[0]) {
      var t := Apply(s, Retire(ids));
      InvKept(s, Retire(ids));
      assert ClosedDones(t) == ClosedDones(s);
      SoundStateAttests(t, ClosedDones(s), id);
    }
    if !post && RetireIdOk(ids) && s.server.retiredRequestId == ids[0] {
      SoundStateAttests(s, ClosedDones(s), id);
    }
  }
}
