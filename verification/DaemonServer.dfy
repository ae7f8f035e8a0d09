/**
 The daemon server object: the mutex-guarded fields and its critical sections
 as methods. The object carries the system it is part of, so that every method
 is a step of that system and keeps the invariants of its runs; what a method
 means for its caller is stated of the system.
 */
module DaemonServerObject {
  import opened Options
  import opened DaemonProtocol
  import opened RetireClient

  class DaemonServer {
    var build: Build
    var buildRequestId: string
    var buildCancel: Option<Invocation>
    var buildDone: Option<Invocation>
    // Owned by the currently admitted POST; each holds the invocation it serves.
    var buildBody: Option<Invocation>
    var buildReadDeadline: Option<Invocation>
    var buildUploadDone: Option<Invocation>
    var retiredRequestId: string
    var retireDone: Option<Invocation>
    var retireUnjoinable: bool
    /** The server together with the invocations it has admitted. */
    ghost var sys: System

    ghost function View(): Server
      reads this
    {
      Server(build, buildRequestId, buildCancel, buildDone, buildUploadDone, retiredRequestId, retireDone,
          retireUnjoinable)
    }

    ghost predicate Valid()
      reads this
    {
      && Inv(sys) && View() == sys.server
      && buildBody == buildUploadDone && buildReadDeadline == buildUploadDone
    }

    constructor ()
      ensures Valid() && sys == Start
    {
      build := Build(Idle, "", "");
      buildRequestId, retiredRequestId := "", "";
      buildCancel, buildDone := None, None;
      buildBody, buildReadDeadline, buildUploadDone := None, None, None;
      retireDone, retireUnjoinable := None, false;
      sys := Start;
    }

    /** A step that an admitted invocation takes outside the mutex. */
    ghost method StepOutside(step: Step)
      requires Valid() && Enabled(sys, step)
      requires step.PassUploadCheck? || step.Spawn? || step.PassExecutionCheck? || step.SelfCancel? || step.CloseDone?
      modifies this`sys
      ensures Valid() && sys == Apply(old(sys), step)
    {
      InvKept(sys, step);
      sys := Apply(sys, step);
    }

    /**
     The admission part of the build POST; `done` is the channel it makes if it admits. Each answer is given exactly
     under its condition on the admissions so far; an admitted invocation is the only unfinished one.
     */
    method HandleBuildPost(ids: seq<string>, done: Invocation) returns (outcome: PostOutcome)
      requires Valid() && done !in sys.runs
      modifies this
      ensures Valid() && sys == Apply(old(sys), Post(ids, done))
      ensures PostAnswer(old(sys), ids, outcome)
      ensures outcome == Admitted ==> forall d: Invocation :: Unfinished(sys, d) <==> d == done
      ensures outcome == Admitted ==>
                && build == Build(Running, "", FirstId(ids)) && buildRequestId == FirstId(ids)
                && sys.runs == old(sys).runs[done := Run(FirstId(ids), Uploading, true)] && done !in sys.cancelled
                && buildDone == buildCancel == buildBody == buildReadDeadline == Some(done)
      ensures outcome != Admitted ==> sys == old(sys)
    {
      ghost var step := Post(ids, done);
      PostAnswered(sys, ids);
      PostMeans(sys, ids, done);
      if |ids| > 1 {
        return BadRequest;
      }
      var requestId := FirstId(ids);
      if |requestId| > MAX_REQUEST_ID {
        return BadRequest;
      }
      if retiredRequestId != "" {
        return Barrier;
      }
      if requestId != "" && requestId == buildRequestId {
        return Replay(build);
      }
      if buildRequestId != "" {
        return OtherBuild;
      }
      if Active(build.status) {
        return Busy;
      }
      TakeOwnership(requestId, done);
      sys := Apply(sys, step);
      outcome := Admitted;
    }

    /** The fields of an admission. */
    method TakeOwnership(requestId: string, done: Invocation)
      modifies this`build, this`buildRequestId, this`buildCancel, this`buildDone
      modifies this`buildBody, this`buildReadDeadline, this`buildUploadDone
      ensures View() == Admit(old(View()), requestId, done)
      ensures buildBody == buildUploadDone && buildReadDeadline == buildUploadDone
    {
      buildRequestId := requestId;
      build := Build(Running, "", requestId);
      buildCancel := Some(done);
      buildDone := Some(done);
      buildBody := Some(done);
      buildUploadDone := Some(done);
      buildReadDeadline := Some(done);
    }

    /** The terminal write of invocation `d`: afterwards nothing is unfinished and the status is not active. */
    method SetState(status: Status, error: string, ghost d: Invocation)
      requires Valid() && Enabled(sys, WriteTerminal(d, status, error))
      modifies this`build, this`sys
      ensures Valid() && sys == Apply(old(sys), WriteTerminal(d, status, error))
      ensures Unfinished(old(sys), d) && forall e: Invocation :: !Unfinished(sys, e)
      ensures build == Build(status, error, old(sys).runs[d].requestId) && !Active(status)
    {
      ghost var step := WriteTerminal(d, status, error);
      InvKept(sys, step);
      ActiveIffUnfinished(Apply(sys, step));
      build := Build(status, error, buildRequestId);
      sys := Apply(sys, step);
    }

    /** A late clear never takes the cancel function or the channel from an invocation that is still unfinished. */
    method ClearBuildExecution(done: Invocation)
      requires Valid() && Enabled(sys, ClearBuild(done))
      modifies this`buildDone, this`buildCancel, this`sys
      ensures Valid() && sys == Apply(old(sys), ClearBuild(done))
      ensures buildDone != Some(done) && buildCancel != Some(done)
      ensures forall d: Invocation :: Unfinished(old(sys), d) ==>
                Unfinished(sys, d) && buildDone == Some(d) && buildCancel == Some(d)
    {
      ghost var step := ClearBuild(done);
      InvKept(sys, step);
      if buildDone == Some(done) {
        buildDone := None;
        buildCancel := None;
      }
      sys := Apply(sys, step);
    }

    /** Gives up the handler's own body and deadline hook, and never those of a later upload. */
    method ClearBuildUpload(done: Invocation)
      requires Valid() && Enabled(sys, ReleaseUpload(done))
      modifies this`buildBody, this`buildReadDeadline, this`buildUploadDone, this`sys
      ensures Valid() && sys == Apply(old(sys), ReleaseUpload(done))
      ensures buildBody != Some(done) && buildReadDeadline != Some(done)
      ensures old(buildBody) != Some(done) ==>
                buildBody == old(buildBody) && buildReadDeadline == old(buildReadDeadline)
    {
      ghost var step := ReleaseUpload(done);
      InvKept(sys, step);
      if buildUploadDone == Some(done) {
        buildBody := None;
        buildReadDeadline := None;
        buildUploadDone := None;
      }
      sys := Apply(sys, step);
    }

    /**
     Returns the channel to wait on and the invocation whose cancel function was called, if any. A cancel function is
     called exactly when something is unfinished; it is that invocation's, and so is the channel.
     */
    method CancelActiveBuild(reason: string) returns (done: Option<Invocation>, called: Option<Invocation>)
      requires Valid()
      modifies this`build, this`sys
      ensures Valid() && sys == Apply(old(sys), Cancel(reason))
      ensures forall d: Invocation :: Unfinished(sys, d) <==> called == Some(d)
      ensures called.Some? ==>
                && called.value in sys.cancelled && done == called
                && build == Build(Cancelling, reason, sys.runs[called.value].requestId)
      ensures called.None? ==> sys == old(sys)
    {
      ghost var step := Cancel(reason);
      InvKept(sys, step);
      ActiveIffUnfinished(sys);
      if !Active(build.status) || buildCancel.None? {
        return buildDone, None;
      }
      called := buildCancel;
      build := Build(Cancelling, reason, buildRequestId);
      sys := Apply(sys, step);
      done := buildDone;
    }

    /**
     `closed` are the channels a select finds closed at this moment. The state attests the barrier to exactly the
     retired id, and "settled" means that no admitted invocation is before its terminal write.
     */
    method RetireStateLocked(closed: set<Invocation>) returns (state: RetireState)
      requires Valid() && Barred(sys) && closed == ClosedDones(sys)
      ensures state == StateLocked(sys.server, closed)
      ensures state.requestId == retiredRequestId && state.build == build && !state.remoteWorkerSettled
      ensures state.localSettled <==> retireDone.None? || retireDone.value in closed
      ensures state.localSettled ==> forall d: Invocation :: !Unfinished(sys, d)
      ensures !state.localSettled ==> retireDone.value in sys.runs
      ensures forall id :: Attests(OnTheWire(state), id) <==> id == retiredRequestId
    {
      forall id ensures Attests(OnTheWire(StateLocked(sys.server, closed)), id) <==> id == retiredRequestId {
        SoundStateAttests(sys, closed, id);
      }
      if PhaseOf(sys) == LocallyJoined { JoinedMeansFinished(sys); }
      var phase := LocallyJoined;
      if retireUnjoinable {
        phase := Retiring;
      } else if retireDone.Some? {
        if retireDone.value !in closed {
          phase := Retiring;
        }
      }
      state := RetireState(retiredRequestId, phase, phase == LocallyJoined, false, build);
    }

    /**
     Also returns the invocation whose cancel function was called and the one whose body was closed. An accepted
     retire bars the runner for the id asked, leaves nothing unfinished that is not cancelled, interrupts only the
     upload of that id, and its reply satisfies the client for exactly that id.
     */
    method HandleRetirePost(ids: seq<string>, closed: set<Invocation>)
      returns (reply: RetireReply, called: Option<Invocation>, interrupted: Option<Invocation>)
      requires Valid() && closed == ClosedDones(sys)
      modifies this
      ensures Valid() && sys == Apply(old(sys), Retire(ids))
      ensures reply.Accepted? <==>
              && |ids| == 1 && 0 < |ids[0]| <= 128
              && if Barred(old(sys)) then old(retiredRequestId) == ids[0]
                 else BoundTo(old(sys), ids[0]) || old(sys).runs.Keys == {}
      ensures reply.Refused? ==> sys == old(sys) && called.None? && interrupted.None?
      ensures reply.Refused? ==> reply.code == if |ids| == 1 && 0 < |ids[0]| <= 128 then 409 else 400
      ensures reply.Accepted? ==>
                && retiredRequestId == ids[0] && reply.state == StateLocked(sys.server, ClosedDones(sys))
                && reply.code == (if reply.state.localSettled then 200 else 202)
                && forall id :: Attests(OnTheWire(reply.state), id) <==> id == ids[0]
      ensures reply.Accepted? ==> forall d: Invocation :: Unfinished(sys, d) ==> d in sys.cancelled
      ensures reply.Accepted? ==>
                forall d: Invocation :: called == Some(d) <==> Unfinished(old(sys), d) && d !in old(sys).cancelled
      ensures reply.Accepted? && called.Some? ==>
                Unfinished(sys, called.value) && build == Build(Cancelling, "retire requested", ids[0])
      ensures reply.Accepted? && called.None? ==> build == old(build)
      ensures reply.Accepted? ==> retireDone == if Barred(old(sys)) then old(retireDone) else old(buildDone)
      ensures interrupted.Some? ==> interrupted.value in sys.runs && sys.runs[interrupted.value].requestId == ids[0]
      ensures reply.Accepted? ==> interrupted == buildBody == buildReadDeadline
    {
      ghost var step := Retire(ids);
      if !RetireIdOk(ids) {
        return Refused(400), None, None;
      }
      var requestId := ids[0];
      RetireAcceptedIff(sys, requestId);
      forall d: Invocation
        ensures RetireCancels(sys.server) && sys.server.buildCancel == Some(d) <==>
                Unfinished(sys, d) && d !in sys.cancelled
      {
        RetireCancelsIff(sys, d);
      }
      var accepted;
      accepted, called := Bar(requestId);
      if !accepted {
        return Refused(409), None, None;
      }
      RetireMeans(sys, ids);
      sys := Apply(sys, step);
      interrupted := buildBody;
      var state := RetireStateLocked(closed);
      reply := Accepted(if state.phase == Retiring then 202 else 200, state);
    }

    /** The conflict exits, and otherwise the barrier with the cancel function it calls. */
    method Bar(requestId: string) returns (accepted: bool, called: Option<Invocation>)
      modifies this`build, this`retiredRequestId, this`retireDone, this`retireUnjoinable
      ensures accepted == !RetireConflict(old(View()), requestId)
      ensures View() == if accepted then RetirePost(old(View()), requestId) else old(View())
      ensures called == if accepted && RetireCancels(old(View())) then old(buildCancel) else None
    {
      if retiredRequestId != "" && retiredRequestId != requestId {
        return false, None;
      }
      if retiredRequestId == "" {
        if (buildRequestId != "" && buildRequestId != requestId) || (buildRequestId == "" && build.status != Idle) {
          return false, None;
        }
        retiredRequestId := requestId;
        retireDone := buildDone;
        retireUnjoinable := Active(build.status) && buildDone.None?;
      }
      accepted, called := true, None;
      if build.status == Running && buildCancel.Some? {
        called := buildCancel;
        build := Build(Cancelling, "retire requested", buildRequestId);
      }
    }

    /** Accepted exactly for the id that barred the runner; the reply then satisfies the client for that id alone. */
    method HandleRetireGet(ids: seq<string>, closed: set<Invocation>) returns (reply: RetireReply)
      requires Valid() && closed == ClosedDones(sys)
      ensures reply.Accepted? <==> |ids| == 1 && 0 < |ids[0]| <= 128 && retiredRequestId == ids[0]
      ensures reply.Accepted? ==>
                && reply.state == StateLocked(sys.server, closed)
                && reply.code == (if reply.state.localSettled then 200 else 202)
                && (forall id :: Attests(OnTheWire(reply.state), id) <==> id == ids[0])
                && (reply.state.localSettled ==> forall d: Invocation :: !Unfinished(sys, d))
      ensures reply.Refused? ==>
                reply.code == if |ids| != 1 || !(0 < |ids[0]| <= 128) then 400 else if Barred(sys) then 409 else 404
    {
      if !RetireIdOk(ids) {
        return Refused(400);
      }
      if retiredRequestId == "" {
        return Refused(404);
      }
      if retiredRequestId != ids[0] {
        return Refused(409);
      }
      var state := RetireStateLocked(closed);
      reply := Accepted(if state.phase == Retiring then 202 else 200, state);
    }
  }

  /** The steps by which a cancelled upload ends are enabled one after the other, and where they lead. */
  lemma CancelledUploadEnds(s: System, done: Invocation, error: string)
    requires done in s.runs && s.runs[done].exec == Uploading && s.runs[done].uploadHeld && done in s.cancelled
    ensures Enabled(s, WriteTerminal(done, Cancelled, error))
    ensures var a := Apply(s, WriteTerminal(done, Cancelled, error));
            && Enabled(a, CloseDone(done))
            && var b := Apply(a, CloseDone(done));
               && Enabled(b, ClearBuild(done))
               && var c := Apply(b, ClearBuild(done));
                  && Enabled(c, ReleaseUpload(done))
                  && var d := Apply(c, ReleaseUpload(done));
                     && d.runs == s.runs[done := Run(s.runs[done].requestId, Cleared(true), false)]
                     && d.server.retiredRequestId == s.server.retiredRequestId
                     && d.server.retireDone == s.server.retireDone && d.server.build.status == Cancelled
  {
  }

  /** The cancelled build of a barred runner ends: terminal write, closed channel, and its handles given up. */
  method EndCancelled(server: DaemonServer, done: Invocation)
    requires server.Valid() && Barred(server.sys) && server.retireDone == Some(done)
    requires done in server.sys.runs && server.sys.runs[done] == Run(server.retiredRequestId, Uploading, true)
    requires done in server.sys.cancelled && server.sys.runs.Keys == {done}
    modifies server
    ensures server.Valid() && ClosedDones(server.sys) == {done}
    ensures server.retiredRequestId == old(server.retiredRequestId) && server.retireDone == Some(done)
    ensures server.build.status == Cancelled
  {
    CancelledUploadEnds(server.sys, done, "build cancelled while receiving upload");
    server.SetState(Cancelled, "build cancelled while receiving upload", done);
    server.StepOutside(CloseDone(done));
    server.ClearBuildExecution(done);
    server.ClearBuildUpload(done);
  }

  /** A build is admitted on a new server and retired while it uploads. */
  method AdmitAndRetire(id: string, done: Invocation) returns (server: DaemonServer, reply: RetireReply)
    requires id != "" && |id| <= MAX_REQUEST_ID
    ensures fresh(server) && server.Valid() && server.retiredRequestId == id && server.retireDone == Some(done)
    ensures server.sys.runs == map[done := Run(id, Uploading, true)] && done in server.sys.cancelled
    ensures reply.Accepted? && reply.code == 202
    ensures forall other :: Attests(OnTheWire(reply.state), other) <==> other == id
  {
    server := new DaemonServer();
    var outcome := server.HandleBuildPost([id], done);
    assert ClosedDones(server.sys) == {};
    var called, interrupted;
    reply, called, interrupted := server.HandleRetirePost([id], {});
  }

  /**
   One interleaving on the object: a build is admitted, the runner is retired during the upload, and the cancelled
   build ends. The first answer is that the runner is retiring, the last that it has settled, each for this id alone.
   */
  method RetireWhileUploading(id: string, done: Invocation) returns (first: RetireReply, last: RetireReply)
    requires id != "" && |id| <= MAX_REQUEST_ID
    ensures first.Accepted? && first.code == 202 && last.Accepted? && last.code == 200
    ensures forall other :: Attests(OnTheWire(first.state), other) <==> other == id
    ensures forall other :: Attests(OnTheWire(last.state), other) <==> other == id
  {
    var server;
    server, first := AdmitAndRetire(id, done);
    EndCancelled(server, done);
    last := server.HandleRetireGet([id], {done});
  }
}
