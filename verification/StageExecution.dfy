/**
 One recovery invocation from reserving its journal to attesting it, and the
 adapter and the journal as the objects that the invocation updates in place.
 */
module StageExecution {
  import opened Options
  import opened Bytes
  import opened StageAdapter
  import opened StageAnswers
  import J = StageJournal
  import P = JsonPatch

  const UNKNOWN := "unknown-preserve"
  const OBSERVED := "inventory-observed-not-retired"

  datatype Action = CollectExact | DrainExact

  datatype Error = NoError | InputError | OutputError | ApiError

  datatype StageResult = StageResult(stage: string, calls: nat, digest: Option<string>)

  /**
   An invocation and everything its environment does to it. `scope` is absent when no adapter could be built;
   `library` are the calls that the collecting or draining library makes, `libraryOk` and `reported` what it returns.
   */
  datatype Invocation = Invocation(
    action: Action, alive: bool,
    reservable: bool, prepared: J.Medium, directorySynced: bool,
    scope: Option<Scope>, maxCalls: nat,
    firstGuard: Input, library: seq<Call>, libraryOk: bool, reported: string, report: J.Medium,
    lastGuard: Input, final: J.Medium,
    synced: bool, ours: bool, readable: bool, stillOurs: bool)

  function Claimed(v: Invocation): string {
    if v.action.CollectExact? then OBSERVED else v.reported
  }

  /** The last request of the trace read the system namespace and found it active. */
  predicate EndsGuarded(scope: Scope, trace: seq<Event>) {
    exists i | 0 <= i < |trace| :: SystemRead(scope, trace[i]) && forall j | i < j < |trace| :: !trace[j].Sent?
  }

  method WriteRecord(rules: Rules, a: Adapter, m: J.Medium, record: Record) returns (b: Adapter, ok: bool)
    requires Inv(rules, a) && !record.WireAttempt?
    ensures (b, ok) == Log(rules, a, m, record)
    ensures Inv(rules, b) && Follows(a, b) && b.failed == a.failed && b.calls == a.calls
    ensures b.trace == a.trace || b.trace == a.trace + [Wrote(record)]
    ensures ok ==> b.trace == a.trace + [Wrote(record)]
  {
    LogKeeps(rules, a, m, record);
    LogFrame(rules, a, m, record);
    var logged := Log(rules, a, m, record);
    b, ok := logged.0, logged.1;
  }

  method CheckSystem(rules: Rules, a: Adapter, input: Input) returns (b: Adapter, ok: bool)
    requires Inv(rules, a)
    ensures b == GuardSystem(rules, a, input).0 && ok == !GuardSystem(rules, a, input).1.Stopped?
    ensures Inv(rules, b) && Follows(a, b) && ok == !b.failed
    ensures ok ==> b.trace != [] && SystemRead(b.scope, b.trace[|b.trace| - 1])
  {
    GuardKeeps(rules, a, input);
    GuardReads(rules, a, input);
    var guarded := GuardSystem(rules, a, input);
    b, ok := guarded.0, !guarded.1.Stopped?;
  }

  // ---------- when the parts of an invocation succeed ----------

  function Base(v: Invocation): Adapter {
    NewAdapter(if v.scope.Some? then v.scope.value else Scope(map[], {}, {}, {}), v.maxCalls)
  }

  /** The adapter once the preparation is recorded, and whether it was. */
  function Prepare(rules: Rules, v: Invocation): (Adapter, bool) {
    Log(rules, Base(v), v.prepared, Prepared)
  }

  predicate Reserves(rules: Rules, v: Invocation) {
    v.alive && v.reservable && Prepare(rules, v).1 && v.directorySynced
  }

  /** The library ran on an adapter and its report was recorded. */
  function Reported(rules: Rules, v: Invocation, a: Adapter): (Adapter, bool) {
    Log(rules, PerformAll(rules, a, v.library), v.report, Report(v.reported))
  }

  /** The adapter after the two guards with the library between them. */
  function Acted(rules: Rules, v: Invocation, ready: Adapter): (Adapter, Outcome) {
    GuardSystem(rules, Reported(rules, v, GuardSystem(rules, ready, v.firstGuard).0).0, v.lastGuard)
  }

  /** Both guards pass, the library succeeds and its report is recorded. */
  predicate Acts(rules: Rules, v: Invocation, ready: Adapter) {
    var first := GuardSystem(rules, ready, v.firstGuard);
    !first.1.Stopped? && v.libraryOk && Reported(rules, v, first.0).1 && !Acted(rules, v, ready).1.Stopped?
  }

  /** The invocation is reserved, has an adapter and its action succeeds. */
  predicate Succeeds(rules: Rules, v: Invocation) {
    Reserves(rules, v) && v.scope.Some? && Acts(rules, v, Prepare(rules, v).0)
  }

  /** Whether the result of a successful action is recorded. */
  predicate Records(rules: Rules, v: Invocation) {
    var done := Acted(rules, v, Prepare(rules, v).0).0;
    Log(rules, done, v.final, Final(Claimed(v), done.calls)).1
  }

  /**
   A success, part by part: the preparation, the report of a library that succeeded, and two passed guards around it,
   each record written and synced to a journal that is whole.
   */
  lemma SucceedsIff(rules: Rules, v: Invocation)
    ensures var ready := Prepare(rules, v).0;
            var guarded := GuardSystem(rules, ready, v.firstGuard).0;
            var ran := PerformAll(rules, guarded, v.library);
            var reported := Log(rules, ran, v.report, Report(v.reported)).0;
            Succeeds(rules, v) <==>
              && v.alive && v.reservable && v.directorySynced && v.scope.Some? && v.libraryOk
              && Journaled(J.Journal([], 0, []), v.prepared, rules.encode(Prepared))
              && GuardPasses(rules, ready, v.firstGuard)
              && Journaled(ran.journal, v.report, rules.encode(Report(v.reported)))
              && GuardPasses(rules, reported, v.lastGuard)
  {
    var ready := Prepare(rules, v).0;
    LogKeeps(rules, Base(v), v.prepared, Prepared);
    SyncedExtends(Base(v).journal, v.prepared, rules.encode(Prepared));
    GuardKeeps(rules, ready, v.firstGuard);
    GuardAnswered(rules, ready, v.firstGuard);
    var guarded := GuardSystem(rules, ready, v.firstGuard).0;
    PerformAllKeeps(rules, guarded, v.library);
    var ran := PerformAll(rules, guarded, v.library);
    SyncedExtends(ran.journal, v.report, rules.encode(Report(v.reported)));
    LogKeeps(rules, ran, v.report, Report(v.reported));
    GuardAnswered(rules, Log(rules, ran, v.report, Report(v.reported)).0, v.lastGuard);
  }

  predicate ReadsBack(v: Invocation) {
    v.synced && v.ours && v.readable && v.stillOurs
  }

  /** The stage is the one the library reported, with every outcome known and the last request a guard that passed. */
  predicate Earned(v: Invocation, a: Adapter, stage: string) {
    && stage == Claimed(v) && v.libraryOk && !a.failed
    && v.scope == Some(a.scope) && EndsGuarded(a.scope, a.trace)
  }

  lemma EndsGuardedLater(scope: Scope, trace: seq<Event>, record: Record)
    requires EndsGuarded(scope, trace)
    ensures EndsGuarded(scope, trace + [Wrote(record)])
  {
    var i :| 0 <= i < |trace| && SystemRead(scope, trace[i]) && forall j | i < j < |trace| :: !trace[j].Sent?;
    var next := trace + [Wrote(record)];
    assert SystemRead(scope, next[i]);
  }

  lemma EarnedLater(v: Invocation, a: Adapter, b: Adapter, stage: string, record: Record)
    requires b.scope == a.scope && b.failed == a.failed && (b.trace == a.trace || b.trace == a.trace + [Wrote(record)])
    ensures Earned(v, a, stage) ==> Earned(v, b, stage)
  {
    if EndsGuarded(a.scope, a.trace) { EndsGuardedLater(a.scope, a.trace, record); }
  }

  // ---------- the invocation ----------

  /** Create the journal with its first record, before any connection is made; nothing has been sent. */
  method Reserve(rules: Rules, v: Invocation) returns (a: Adapter, ok: bool, error: Error)
    ensures Inv(rules, a) && !a.failed && a.calls == 0 && a.maxCalls == v.maxCalls && a.scope == Base(v).scope
    ensures a.trace == [] || a.trace == [Wrote(Prepared)]
    ensures ok <==> Reserves(rules, v)
    ensures ok ==> a == Prepare(rules, v).0 && a.trace == [Wrote(Prepared)]
    ensures !ok ==> error == if v.alive then OutputError else InputError
  {
    a := Base(v);
    ok, error := false, NoError;
    if !v.alive {
      error := InputError;
    } else if !v.reservable {
      error := OutputError;
    } else {
      a, ok := WriteRecord(rules, a, v.prepared, Prepared);
      ok := ok && v.directorySynced;
      if !ok { error := OutputError; }
    }
  }

  /**
   A collection is recorded only when it succeeded, a drain report always. It succeeds exactly when the library does
   and its report is recorded; a report that is not recorded is an output error, whatever the library said.
   */
  method RunLibrary(rules: Rules, v: Invocation, ready: Adapter) returns (a: Adapter, error: Error)
    requires Inv(rules, ready)
    ensures Inv(rules, a) && Follows(ready, a)
    ensures error.NoError? <==> v.libraryOk && Reported(rules, v, ready).1
    ensures error.OutputError? <==> (v.libraryOk || v.action.DrainExact?) && !Reported(rules, v, ready).1
    ensures !error.InputError?
    ensures a == if v.libraryOk || v.action.DrainExact? then Reported(rules, v, ready).0
        else PerformAll(rules, ready, v.library)
    ensures error.NoError? || (v.action.DrainExact? && !error.OutputError?) ==>
              a.trace != [] && a.trace[|a.trace| - 1] == Wrote(Report(v.reported))
  {
    PerformAllKeeps(rules, ready, v.library);
    a := PerformAll(rules, ready, v.library);
    error := if v.libraryOk then NoError else ApiError;
    if error.NoError? || v.action.DrainExact? {
      var saved: bool;
      a, saved := WriteRecord(rules, a, v.report, Report(v.reported));
      if !saved { error := OutputError; }
    }
  }

  /** The guarded action between preparation and result: it succeeds exactly when all of its parts do. */
  method Act(rules: Rules, v: Invocation, ready: Adapter) returns (a: Adapter, stage: string, error: Error)
    requires Inv(rules, ready) && v.scope == Some(ready.scope)
    ensures Inv(rules, a) && Follows(ready, a)
    ensures error.NoError? <==> Acts(rules, v, ready)
    ensures if error.NoError? then a == Acted(rules, v, ready).0 && Earned(v, a, stage) else stage == UNKNOWN
  {
    var ok: bool;
    stage := UNKNOWN;
    a, ok := CheckSystem(rules, ready, v.firstGuard);
    error := if ok then NoError else ApiError;
    if error.NoError? {
      a, error := RunLibrary(rules, v, a);
      if error.NoError? { stage := Claimed(v); }
    }
    if error.NoError? {
      a, ok := CheckSystem(rules, a, v.lastGuard);
      if !ok { error := ApiError; }
    }
    if !error.NoError? { stage := UNKNOWN; }
  }

  /** The journal's file is exactly the records written, the last of them the result, and the digest is its digest. */
  predicate Attested(rules: Rules, digest: bytes -> string, a: Adapter, result: StageResult) {
    && a.trace != [] && a.trace[|a.trace| - 1] == Wrote(Final(result.stage, result.calls))
    && a.journal.file == Concat(LinesOf(rules, a.trace)) && result.digest == Some(digest(a.journal.file))
  }

  /**
   A record that was written leaves a journal whose file is exactly its records, so only the medium can make
   reading it back fail.
   */
  lemma WrittenReadsBack(rules: Rules, digest: bytes -> string, v: Invocation, ready: Adapter, record: Record)
    requires Inv(rules, ready) && !record.WireAttempt? && Log(rules, ready, v.final, record).1
    ensures var a := Log(rules, ready, v.final, record).0;
            var r := J.Finish(a.journal, digest, v.synced, v.ours, v.readable, v.stillOurs);
            && (r.Some? <==> ReadsBack(v)) && (r.Some? ==> r.value == digest(a.journal.file))
            && a.journal.file == Concat(LinesOf(rules, a.trace))
  {
    LogKeeps(rules, ready, v.final, record);
    J.SyncedIff(ready.journal, v.final, rules.encode(record));
    J.FinishAttests(Log(rules, ready, v.final, record).0.journal, digest, v.synced, v.ours, v.readable, v.stillOurs);
  }

  /**
   Record the result and read the journal back. The stage is reset exactly when it was recorded and does not read back.
   */
  method Attest(rules: Rules, digest: bytes -> string, v: Invocation, ready: Adapter, stage: string, calls: nat)
    returns (result: StageResult, saved: bool, a: Adapter)
    requires Inv(rules, ready)
    ensures Inv(rules, a) && Follows(ready, a) && a.failed == ready.failed && result.calls == calls
    ensures a.calls == ready.calls
    ensures a.trace == ready.trace || a.trace == ready.trace + [Wrote(Final(stage, calls))]
    ensures saved <==> Log(rules, ready, v.final, Final(stage, calls)).1 && ReadsBack(v)
    ensures result.stage == if Log(rules, ready, v.final, Final(stage, calls)).1 && !ReadsBack(v) then UNKNOWN
        else stage
    ensures Earned(v, ready, stage) ==> Earned(v, a, stage)
    ensures if saved then Attested(rules, digest, a, result) else result.digest.None?
  {
    var ok: bool;
    a, ok := WriteRecord(rules, ready, v.final, Final(stage, calls));
    EarnedLater(v, ready, a, stage, Final(stage, calls));
    result, saved := StageResult(stage, calls, None), false;
    if ok {
      WrittenReadsBack(rules, digest, v, ready, Final(stage, calls));
      var attested := J.Finish(a.journal, digest, v.synced, v.ours, v.readable, v.stillOurs);
      if attested.None? {
        result := result.(stage := UNKNOWN);
      } else {
        result, saved := result.(digest := attested), true;
      }
    }
  }

  /**
   Without an error exactly when the action succeeds, its result is recorded and the journal reads back; the digest
   then attests a file made of exactly the records written, from the preparation to this very result. A stage other
   than "unknown" is only ever returned when every outcome of the invocation was known and its last request found the
   system namespace active; it comes with an error exactly when the action succeeded and its result was not recorded.
   */
  method ExecuteStage(rules: Rules, digest: bytes -> string, v: Invocation)
    returns (result: StageResult, error: Error, a: Adapter)
    ensures Inv(rules, a) && result.calls == Requests(a.trace) <= v.maxCalls
    ensures error.InputError? <==> !v.alive
    ensures error.OutputError? <==> v.alive && result.digest.None?
    ensures error.ApiError? <==> result.digest.Some? && !Succeeds(rules, v)
    ensures a.trace != [] ==> a.trace[0] == Wrote(Prepared)
    ensures error.NoError? <==> Succeeds(rules, v) && Records(rules, v) && ReadsBack(v)
    ensures error.NoError? ==> Earned(v, a, result.stage) && Attested(rules, digest, a, result)
    ensures !error.NoError? && result.stage != UNKNOWN <==>
            Succeeds(rules, v) && !Records(rules, v) && Claimed(v) != UNKNOWN
    ensures result.stage != UNKNOWN ==> Earned(v, a, result.stage)
    ensures result.stage in {UNKNOWN, if v.action.CollectExact? then "inventory-observed-not-retired" else v.reported}
    ensures !error.NoError? && result.digest.Some? ==> result.stage == UNKNOWN && Attested(rules, digest, a, result)
  {
    var ok: bool;
    a, ok, error := Reserve(rules, v);
    if !ok { return StageResult(UNKNOWN, 0, None), error, a; }
    var stage, calls := UNKNOWN, 0;
    error := InputError;
    if v.scope.Some? {
      a, stage, error := Act(rules, v, a);
      calls := a.calls;
    }
    result, ok, a := Attest(rules, digest, v, a, stage, calls);
    if !ok {
      error := OutputError;
    } else if !error.NoError? {
      error := ApiError;
    }
  }

  // ---------- an invocation that keeps its stage with an error ----------

  /** The journal is whole and has room for what the example writes. */
  predicate Roomy(a: Adapter, k: nat) {
    |a.journal.file| == a.journal.count <= 1000 * k
  }

  lemma GoodLog(rules: Rules, a: Adapter, m: J.Medium, record: Record, k: nat)
    requires Roomy(a, k) && k <= 10 && |rules.encode(record)| < 1000
    requires m.ours && m.written >= 1000 && !m.failed
    ensures var (b, ok) := Log(rules, a, m, record);
            && ok == m.synced && Roomy(b, k + 1) && b == a.(journal := b.journal, trace := b.trace)
  {
  }

  /** A guard answered by the active system namespace on a good medium passes. */
  lemma GoodGuard(rules: Rules, a: Adapter, input: Input, k: nat)
    requires Roomy(a, k) && k <= 10 && (forall r: Record :: |rules.encode(r)| < 1000)
    requires !a.failed && a.calls < a.maxCalls && input.alive && input.bodyFits
    requires input.medium.ours && input.medium.written >= 1000 && !input.medium.failed && input.medium.synced
    requires rules.subdomain(SYSTEM) && NamespacePath(SYSTEM) in a.scope.readable
    requires input.reply.Received? && rules.decodes(input.reply.obj) && SystemActive(input.reply.obj)
    requires Qualified(rules, input.reply.obj, Namespace, Key("", SYSTEM), a.scope.readable[NamespacePath(SYSTEM)])
    ensures var (b, outcome) := GuardSystem(rules, a, input);
            !outcome.Stopped? && !b.failed && Roomy(b, k + 1) && b.scope == a.scope && b.maxCalls == a.maxCalls
                && b.calls == a.calls + 1
  {
    GoodLog(rules, a, input.medium, WireAttempt(GET, NamespacePath(SYSTEM), NoBody), k);
  }

  /** A medium on which everything succeeds. */
  const GOOD := J.Medium(true, 1000, false, true)

  /**
   A collection that finds nothing to do, with everything in order except that its result is written and not synced.
   */
  function UnsyncedInvocation(system: Object): Invocation {
    var answered := Input(true, true, GOOD, Received(system));
    Invocation(CollectExact, true, true, GOOD, true,
        Some(Scope(map[NamespacePath(SYSTEM) := system.uid], {}, {}, {})), 2,
               answered, [], true, "", GOOD, answered, GOOD.(synced := false), true, true, true, true)
  }

  /** It returns its earned stage together with an error. */
  lemma UnsyncedResult(rules: Rules, system: Object)
    requires (forall r: Record :: |rules.encode(r)| < 1000) && rules.subdomain(SYSTEM) && rules.decodes(system)
    requires Qualified(rules, system, Namespace, Key("", SYSTEM), system.uid) && SystemActive(system)
    ensures var v := UnsyncedInvocation(system);
            Succeeds(rules, v) && !Records(rules, v) && ReadsBack(v) && Claimed(v) != UNKNOWN
  {
    var v := UnsyncedInvocation(system);
    GoodLog(rules, Base(v), v.prepared, Prepared, 0);
    var ready := Prepare(rules, v).0;
    GoodGuard(rules, ready, v.firstGuard, 1);
    var first := GuardSystem(rules, ready, v.firstGuard).0;
    GoodLog(rules, first, v.report, Report(v.reported), 2);
    var reported := Reported(rules, v, first).0;
    GoodGuard(rules, reported, v.lastGuard, 3);
    var done := Acted(rules, v, ready).0;
    GoodLog(rules, done, v.final, Final(Claimed(v), done.calls), 4);
    assert |OBSERVED| != |UNKNOWN|;
  }

  // ---------- the objects ----------

  /** The open journal file with its byte count and running hash. */
  class JournalFile {
    var file: bytes
    var count: nat
    var lines: seq<bytes>

    ghost function View(): J.Journal
      reads this
    {
      J.Journal(file, count, lines)
    }

    constructor ()
      ensures View() == J.Journal([], 0, []) && J.Inv(View())
    {
      file, count, lines := [], 0, [];
    }

    /**
     One line is absorbed, or none; the file only grows, and is whole again only if nothing of a refused line reached
     it.
     */
    method Append(m: J.Medium, raw: bytes) returns (outcome: J.Outcome)
      requires J.Inv(View())
      modifies this
      ensures J.Inv(View()) && (View(), outcome) == J.Append(old(View()), m, raw)
      ensures lines == if outcome.Refused? then old(lines) else old(lines) + [raw + [NEWLINE]]
      ensures old(file) <= file && (outcome.Synced? ==> file == Concat(lines))
      ensures outcome.Refused? && file != old(file) ==> file != Concat(lines)
    {
      J.AppendKeeps(View(), m, raw);
      J.SyncedIff(View(), m, raw);
      if !m.ours || |file| != count || count + |raw| + 1 > J.MAX_JOURNAL_BYTES { return J.Refused; }
      var line := raw + [NEWLINE];
      var n := if m.written < |line| then m.written else |line|;
      file := file + line[..n];
      assert line[..|line|] == line;
      if m.failed || n != |line| { return J.Refused; }
      lines := lines + [line];
      count := count + n;
      outcome := if m.synced then J.Synced else J.Unsynced;
    }
  }

  /** The adapter with the counters and observations it updates; its trace always has the properties of every run. */
  class StageApi {
    const rules: Rules
    const scope: Scope
    const maxCalls: nat
    const journal: JournalFile
    var calls: nat
    var failed: bool
    var observed: map<Path, Object>
    ghost var trace: seq<Event>

    ghost function View(): Adapter
      reads this, journal
    {
      Adapter(scope, maxCalls, calls, failed, observed, journal.View(), trace)
    }

    ghost predicate Valid()
      reads this, journal
    {
      Inv(rules, View())
    }

    constructor (rules: Rules, scope: Scope, maxCalls: nat, journal: JournalFile)
      requires journal.View() == J.Journal([], 0, [])
      ensures Valid() && View() == NewAdapter(scope, maxCalls) && this.rules == rules && this.journal == journal
    {
      this.rules, this.scope, this.maxCalls, this.journal := rules, scope, maxCalls, journal;
      calls, failed, observed, trace := 0, false, map[], [];
    }

    /**
     An answer is returned exactly when the adapter has not failed: the request was recorded, then sent, then answered.
     */
    method SendWire(input: Input, verb: Verb, path: Path, body: Body) returns (reply: Option<Reply>)
      requires Valid() && Fit(scope, trace, verb, path, body)
      modifies this, journal
      ensures Valid() && (View(), reply) == Wire(rules, old(View()), input, verb, path, body)
      ensures failed <==> reply.None?
      ensures reply.Some? ==>
                && trace == old(trace) + [Wrote(WireAttempt(verb, path, body)), Sent(verb, path, body, reply.value)]
                && calls == old(calls) + 1 <= maxCalls
      ensures old(failed) ==> trace == old(trace) && journal.file == old(journal.file)
      ensures observed == old(observed)
    {
      WireKeeps(rules, View(), input, verb, path, body);
      WireAnswers(rules, View(), input, verb, path, body);
      WireCosts(rules, View(), input, verb, path, body);
      reply := Transmit(input, verb, path, body);
    }

    method Transmit(input: Input, verb: Verb, path: Path, body: Body) returns (reply: Option<Reply>)
      requires J.Inv(journal.View())
      modifies this, journal
      ensures J.Inv(journal.View()) && (View(), reply) == Wire(rules, old(View()), input, verb, path, body)
    {
      if failed || !input.alive || calls >= maxCalls || !input.bodyFits {
        failed := true;
        return None;
      }
      var outcome := journal.Append(input.medium, rules.encode(WireAttempt(verb, path, body)));
      if !outcome.Refused? { trace := trace + [Wrote(WireAttempt(verb, path, body))]; }
      if !outcome.Synced? {
        failed := true;
        return None;
      }
      calls := calls + 1;
      var answer := Classify(verb, input.reply);
      trace := trace + [Sent(verb, path, body, answer)];
      if answer.Failure? {
        failed := true;
        return None;
      }
      reply := Some(answer);
    }

    method Conclude(path: Path, reply: Option<Reply>, acceptable: bool) returns (outcome: Outcome)
      modifies this`failed, this`observed
      ensures (View(), outcome) == Settle(old(View()), path, reply, acceptable)
    {
      if reply.None? { return Stopped; }
      if reply.value.NotFound? { return Absent; }
      if reply.value.AlreadyExists? { return Exists; }
      if !reply.value.Received? || !acceptable {
        failed := true;
        return Stopped;
      }
      observed := observed[path := reply.value.obj];
      outcome := Returned(reply.value.obj);
    }

    /** What a call returned is the last answer received, and is remembered under its own path. */
    ghost predicate Remembers(outcome: Outcome)
      reads this
    {
      outcome.Returned? ==>
        && Answered(trace, Received(outcome.obj))
        && PathOf(outcome.obj) in observed && observed[PathOf(outcome.obj)] == outcome.obj
    }

    /** What the server said of a readable path: absent, or the object if it has the pinned UID. */
    method GetObject(input: Input, kind: Kind, key: Key) returns (outcome: Outcome)
      requires Valid()
      modifies this, journal
      ensures Valid() && (View(), outcome) == Get(rules, old(View()), input, kind, key)
      ensures GetAnswer(rules, old(View()), input, kind, key, outcome)
      ensures outcome.Absent? <==> !failed && Answered(trace, NotFound)
      ensures (failed <==> outcome.Stopped?) && Remembers(outcome) && old(trace) <= trace
      ensures outcome.Returned? ==>
                && outcome.obj.kind == kind && outcome.obj.key == key && PathOf(outcome.obj) in scope.readable
                && scope.readable[PathOf(outcome.obj)] in {"", outcome.obj.uid}
    {
      ghost var call := GetCall(kind, key, input);
      PerformKeeps(rules, View(), call);
      PerformFrame(rules, View(), call);
      ReturnedIsAnswer(rules, View(), call);
      ReturnedIsQualified(rules, View(), call);
      GetAnswered(rules, View(), input, kind, key);
      outcome := Fetch(input, kind, key);
    }

    method Fetch(input: Input, kind: Kind, key: Key) returns (outcome: Outcome)
      requires J.Inv(journal.View())
      modifies this, journal
      ensures J.Inv(journal.View()) && (View(), outcome) == Get(rules, old(View()), input, kind, key)
    {
      var path := Address(rules, kind, key);
      if path.None? || path.value !in scope.readable {
        failed := true;
        return Stopped;
      }
      var reply := Transmit(input, GET, path.value, NoBody);
      outcome := Conclude(path.value, reply, Acceptable(rules, reply, kind, key, scope.readable[path.value]));
    }

    /** The guard passes exactly when the adapter has not failed, and then the last event is the active system read. */
    method Guard(input: Input) returns (outcome: Outcome)
      requires Valid()
      modifies this, journal
      ensures Valid() && (View(), outcome) == GuardSystem(rules, old(View()), input)
      ensures (failed <==> outcome.Stopped?) && old(trace) <= trace
      ensures !failed <==> GuardPasses(rules, old(View()), input)
      ensures !failed ==> trace != [] && SystemRead(scope, trace[|trace| - 1])
    {
      GuardKeeps(rules, View(), input);
      GuardReads(rules, View(), input);
      GuardAnswered(rules, View(), input);
      outcome := Probe(input);
    }

    method Probe(input: Input) returns (outcome: Outcome)
      requires J.Inv(journal.View())
      modifies this, journal
      ensures J.Inv(journal.View()) && (View(), outcome) == GuardSystem(rules, old(View()), input)
    {
      outcome := Fetch(input, Namespace, Key("", SYSTEM));
      if !outcome.Returned? || !SystemActive(outcome.obj) {
        failed := true;
        outcome := Stopped;
      }
    }

    /** A list is returned only whole, within the limit and with every item qualified. */
    method ListObjects(input: Input, kind: Kind, ns: string, limit: int) returns (outcome: Outcome)
      requires Valid()
      modifies this, journal
      ensures Valid() && (View(), outcome) == List(rules, old(View()), input, kind, ns, limit)
      ensures failed <==> outcome.Stopped?
      ensures ListAnswer(rules, old(View()), input, kind, ns, limit, outcome)
      ensures outcome.Listed? ==>
                && |outcome.items| <= limit <= 8192 && CollectionPath(kind, ns) in scope.lists
                && forall o <- outcome.items :: Qualified(rules, o, kind, Key(ns, o.key.name), "")
    {
      ghost var call := ListCall(kind, ns, limit, input);
      ListAnswered(rules, View(), input, kind, ns, limit);
      PerformKeeps(rules, View(), call);
      PerformFrame(rules, View(), call);
      if limit < 1 || limit > 8192 || kind == Namespace || CollectionPath(kind, ns) !in scope.lists {
        failed := true;
        return Stopped;
      }
      var reply := Transmit(input, GET, CollectionPath(kind, ns), Limit(limit));
      if reply.None? { return Stopped; }
      if reply.value.NotFound? { return Absent; }
      if !reply.value.ReceivedList? || !reply.value.wellFormed || |reply.value.items| > limit {
        failed := true;
        return Stopped;
      }
      var ok := AllQualified(reply.value.items, kind, ns);
      if !ok || !rules.decodesList(reply.value.items) {
        failed := true;
        return Stopped;
      }
      outcome := Listed(reply.value.items);
    }

    method AllQualified(items: seq<Object>, kind: Kind, ns: string) returns (ok: bool)
      ensures ok <==> forall o <- items :: Qualified(rules, o, kind, Key(ns, o.key.name), "")
    {
      for i := 0 to |items|
        invariant forall o <- items[..i] :: Qualified(rules, o, kind, Key(ns, o.key.name), "")
      {
        if !Qualified(rules, items[i], kind, Key(ns, items[i].key.name), "") {
          return false;
        }
      }
      assert items[..|items|] == items;
      ok := true;
    }

    method WriteGuarded(guard: Input, input: Input, verb: Verb, path: Path, body: Body) returns (reply: Option<Reply>)
      requires J.Inv(journal.View())
      modifies this, journal
      ensures J.Inv(journal.View())
      ensures (View(), reply) == GuardedWrite(rules, old(View()), guard, input, verb, path, body)
    {
      var guarded := Probe(guard);
      if guarded.Stopped? { return None; }
      reply := Transmit(input, verb, path, body);
    }

    /** An object is returned only if it was created right after a guard and keeps the proposal at every path. */
    method CreateObject(guard: Input, input: Input, o: Object) returns (outcome: Outcome)
      requires Valid()
      modifies this, journal
      ensures Valid() && (View(), outcome) == Create(rules, old(View()), guard, input, o)
      ensures CreateAnswer(rules, old(View()), guard, input, o, outcome)
      ensures outcome.Exists? ==> WroteGuarded(scope, trace, POST) && Answered(trace, AlreadyExists)
      ensures (failed <==> outcome.Stopped?) && Remembers(outcome)
      ensures outcome.Returned? ==>
                && WroteGuarded(scope, trace, POST) && outcome.obj.kind == o.kind && outcome.obj.key == o.key
                && outcome.obj.finalizers == Some([RECOVERY_HOLD])
                && forall path :: P.AgreesAt(o.body, outcome.obj.body, path)
    {
      ghost var call := CreateCall(o, guard, input);
      PerformKeeps(rules, View(), call);
      PerformFrame(rules, View(), call);
      ReturnedIsAnswer(rules, View(), call);
      ReturnedIsQualified(rules, View(), call);
      CreatedIsGuarded(rules, View(), guard, input, o);
      CreateAnswered(rules, View(), guard, input, o);
      outcome := Propose(guard, input, o);
    }

    method Propose(guard: Input, input: Input, o: Object) returns (outcome: Outcome)
      requires J.Inv(journal.View())
      modifies this, journal
      ensures (View(), outcome) == Create(rules, old(View()), guard, input, o)
    {
      var path := Address(rules, o.kind, o.key);
      if path.None? || !ValidCreate(rules, scope, path.value, o) {
        failed := true;
        return Stopped;
      }
      var reply := WriteGuarded(guard, input, POST, CollectionPath(o.kind, o.key.ns), Proposal(o));
      outcome := Conclude(path.value, reply, Acceptable(rules, reply, o.kind, o.key, "")
          && KeepsProposal(o, reply.value.obj));
    }

    /**
     An object is returned only if it was patched right after a guard and is what was observed, with the hold appended.
     */
    method UpdateObject(guard: Input, input: Input, o: Object) returns (outcome: Outcome)
      requires Valid()
      modifies this, journal
      ensures Valid() && (View(), outcome) == Update(rules, old(View()), guard, input, o)
      ensures UpdateAnswer(rules, old(View()), guard, input, o, outcome)
      ensures (failed <==> outcome.Stopped?) && Remembers(outcome)
      ensures outcome.Returned? ==>
                && WroteGuarded(scope, trace, PATCH) && PathOf(o) in old(observed)
                && var before := old(observed)[PathOf(o)];
                   && RECOVERY_HOLD !in Finalizers(before)
                   && outcome.obj == before.(finalizers := Some(Finalizers(before) + [RECOVERY_HOLD]),
                                             resourceVersion := outcome.obj.resourceVersion,
                                             managedFields := outcome.obj.managedFields)
    {
      ghost var call := UpdateCall(o, guard, input);
      PerformKeeps(rules, View(), call);
      PerformFrame(rules, View(), call);
      ReturnedIsAnswer(rules, View(), call);
      ReturnedIsQualified(rules, View(), call);
      UpdatedIsGuarded(rules, View(), guard, input, o);
      UpdateAnswered(rules, View(), guard, input, o);
      outcome := Hold(guard, input, o);
    }

    method Hold(guard: Input, input: Input, o: Object) returns (outcome: Outcome)
      requires J.Inv(journal.View())
      modifies this, journal
      ensures (View(), outcome) == Update(rules, old(View()), guard, input, o)
    {
      var path := Address(rules, o.kind, o.key);
      if path.None? || path.value !in scope.targets || path.value !in observed || !rules.decodes(observed[path.value])
         || !ValidUpdate(observed[path.value], o) {
        failed := true;
        return Stopped;
      }
      var before := observed[path.value];
      var reply := WriteGuarded(guard, input, PATCH, path.value, AppendHold(before));
      outcome := Conclude(path.value, reply,
        Acceptable(rules, reply, o.kind, o.key, before.uid) && ValidUpdated(before, o, reply.value.obj));
    }
  }
}
