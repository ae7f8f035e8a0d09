/**
 Which answer each call of the stage adapter gives, as an equivalence on its
 arguments, the adapter's scope and counters, the journal and what the
 environment does.
 */
module StageAnswers {
  import opened Options
  import opened Bytes
  import opened StageAdapter
  import J = StageJournal
  import P = JsonPatch

  // ---------- one request ----------

  /** The journal is whole, has room for the line, and the medium writes and syncs it. */
  ghost predicate Journaled(j: J.Journal, m: J.Medium, raw: bytes) {
    && m.ours && j.file == Concat(j.lines) && j.count + |raw| + 1 <= 80 * 1024 * 1024
    && !m.failed && m.written > |raw| && m.synced
  }

  /** The journal with one more line. */
  function Extended(j: J.Journal, raw: bytes): J.Journal {
    J.Journal(j.file + raw + [NEWLINE], j.count + |raw| + 1, j.lines + [raw + [NEWLINE]])
  }

  /** A request goes out: calls are left, the context lives, the body fits, and its record reaches the journal. */
  ghost predicate Sends(rules: Rules, failed: bool, left: int, j: J.Journal, input: Input, record: Record) {
    !failed && input.alive && left > 0 && input.bodyFits && Journaled(j, input.medium, rules.encode(record))
  }

  /** The outcome is known: only a read can be told "not found", and only a create "already exists". */
  predicate Known(verb: Verb, reply: Reply) {
    match reply
    case Failure => false
    case NotFound => verb == GET
    case AlreadyExists => verb == POST
    case _ => true
  }

  ghost predicate SendsFrom(rules: Rules, a: Adapter, input: Input, verb: Verb, path: Path, body: Body) {
    Sends(rules, a.failed, a.maxCalls - a.calls, a.journal, input, WireAttempt(verb, path, body))
  }

  lemma SyncedExtends(j: J.Journal, m: J.Medium, raw: bytes)
    requires J.Inv(j)
    ensures J.Append(j, m, raw).1 == J.Synced <==> Journaled(j, m, raw)
    ensures Journaled(j, m, raw) ==> J.Append(j, m, raw).0 == Extended(j, raw) && J.Inv(Extended(j, raw))
  {
    J.SyncedIff(j, m, raw);
    J.AppendKeeps(j, m, raw);
    assert j.file + raw + [NEWLINE] == j.file + (raw + [NEWLINE]);
  }

  /** The adapter after a request whose outcome is known. */
  function AfterSend(rules: Rules, a: Adapter, verb: Verb, path: Path, body: Body, reply: Reply): Adapter {
    var record := WireAttempt(verb, path, body);
    a.(calls := a.calls + 1, journal := Extended(a.journal, rules.encode(record)),
       trace := a.trace + [Wrote(record), Sent(verb, path, body, reply)])
  }

  /** A request is answered exactly when it is sent and its outcome is known, and the answer is the server's. */
  lemma WireAnswered(rules: Rules, a: Adapter, input: Input, verb: Verb, path: Path, body: Body)
    requires J.Inv(a.journal)
    ensures var (b, reply) := Wire(rules, a, input, verb, path, body);
            && reply == (if SendsFrom(rules, a, input, verb, path, body) && Known(verb, input.reply)
                         then Some(input.reply) else None)
            && (reply.Some? ==> b == AfterSend(rules, a, verb, path, body, input.reply) && J.Inv(b.journal))
            && b.observed == a.observed && b.scope == a.scope
  {
    var record := WireAttempt(verb, path, body);
    SyncedExtends(a.journal, input.medium, rules.encode(record));
    assert a.trace + [Wrote(record)] + [Sent(verb, path, body, input.reply)]
        == a.trace + [Wrote(record), Sent(verb, path, body, input.reply)];
  }

  // ---------- addresses and objects ----------

  /** Where an object is. */
  function PathAt(kind: Kind, key: Key): Path {
    if kind == Namespace then NamespacePath(key.name) else ObjectPath(kind, key)
  }

  /** A proper name, in no namespace for a namespace and in a proper one for anything else. */
  predicate Addressable(rules: Rules, kind: Kind, key: Key) {
    rules.subdomain(key.name) && if kind == Namespace then key.ns == "" else rules.dnsLabel(key.ns)
  }

  lemma AddressIs(rules: Rules, kind: Kind, key: Key)
    ensures Address(rules, kind, key) == if Addressable(rules, kind, key) then Some(PathAt(kind, key)) else None
  {
  }

  /** The object asked for, with identity and version, the UID if one is pinned, and a readable deletion mark. */
  predicate Proper(rules: Rules, o: Object, kind: Kind, key: Key, uid: string) {
    && o.kind == kind && o.key == key && rules.token(o.uid) && rules.token(o.resourceVersion)
    && uid in {"", o.uid} && !o.deletion.BadDeletion?
  }

  /** What was observed afterwards: the returned object under its path, and nothing else changes. */
  ghost predicate Observes(a: Adapter, b: Adapter, path: Path, outcome: Outcome) {
    b.observed == if outcome.Returned? then a.observed[path := outcome.obj] else a.observed
  }

  lemma SettledIs(b: Adapter, path: Path, reply: Option<Reply>, acceptable: bool)
    ensures var (c, outcome) := Settle(b, path, reply, acceptable);
            && (outcome.Absent? <==> reply == Some(NotFound)) && (outcome.Exists? <==> reply == Some(AlreadyExists))
            && (outcome.Returned? <==> reply.Some? && reply.value.Received? && acceptable)
            && (outcome.Returned? ==> outcome.obj == reply.value.obj)
            && (outcome.Stopped? <==> !outcome.Absent? && !outcome.Exists? && !outcome.Returned?)
            && Observes(b, c, path, outcome)
            && (!outcome.Stopped? ==> c == b.(observed := c.observed))
  {
  }

  // ---------- reads ----------

  ghost predicate ReadSent(rules: Rules, a: Adapter, input: Input, kind: Kind, key: Key) {
    && Addressable(rules, kind, key) && PathAt(kind, key) in a.scope.readable
    && SendsFrom(rules, a, input, GET, PathAt(kind, key), NoBody)
  }

  /** A read tells what the server told: absent, or the object if it is the one asked for; anything else stops. */
  ghost predicate GetAnswer(rules: Rules, a: Adapter, input: Input, kind: Kind, key: Key, outcome: Outcome) {
    && (outcome.Absent? <==> ReadSent(rules, a, input, kind, key) && input.reply.NotFound?)
    && (outcome.Returned? <==>
          && ReadSent(rules, a, input, kind, key) && input.reply.Received?
          && Proper(rules, input.reply.obj, kind, key, a.scope.readable[PathAt(kind, key)])
          && rules.decodes(input.reply.obj))
    && (outcome.Returned? ==> outcome.obj == input.reply.obj)
    && (outcome.Stopped? <==> !outcome.Absent? && !outcome.Returned?)
  }

  lemma GetAnswered(rules: Rules, a: Adapter, input: Input, kind: Kind, key: Key)
    requires J.Inv(a.journal)
    ensures var (b, outcome) := Get(rules, a, input, kind, key);
            && GetAnswer(rules, a, input, kind, key, outcome) && Observes(a, b, PathAt(kind, key), outcome)
            && (!outcome.Stopped? ==>
                  b == AfterSend(rules, a, GET, PathAt(kind, key), NoBody, input.reply).(observed := b.observed))
  {
    AddressIs(rules, kind, key);
    var path := PathAt(kind, key);
    if Addressable(rules, kind, key) && path in a.scope.readable {
      WireAnswered(rules, a, input, GET, path, NoBody);
      var (b, reply) := Wire(rules, a, input, GET, path, NoBody);
      SettledIs(b, path, reply, Acceptable(rules, reply, kind, key, a.scope.readable[path]));
    }
  }

  /** The system namespace answers, is the pinned one, is not being deleted and is active. */
  ghost predicate GuardPasses(rules: Rules, a: Adapter, input: Input) {
    && ReadSent(rules, a, input, Namespace, Key("", "kube-system")) && input.reply.Received?
    && Proper(rules, input.reply.obj, Namespace, Key("", "kube-system"), a.scope.readable[NamespacePath("kube-system")])
    && rules.decodes(input.reply.obj) && input.reply.obj.deletion.NotDeleted? && input.reply.obj.phase == "Active"
  }

  lemma GuardAnswered(rules: Rules, a: Adapter, input: Input)
    requires J.Inv(a.journal)
    ensures var (b, outcome) := GuardSystem(rules, a, input);
            && (outcome.Stopped? <==> !GuardPasses(rules, a, input))
            && (!outcome.Stopped? ==> outcome == Returned(input.reply.obj))
            && (!outcome.Stopped? ==>
                  b == AfterSend(rules, a, GET, NamespacePath(SYSTEM), NoBody, input.reply).(
                           observed := a.observed[NamespacePath(SYSTEM) := input.reply.obj]))
  {
    GetAnswered(rules, a, input, Namespace, Key("", SYSTEM));
  }

  ghost predicate ListSent(rules: Rules, a: Adapter, input: Input, kind: Kind, ns: string, limit: int) {
    && 1 <= limit <= 8192 && kind != Namespace && CollectionPath(kind, ns) in a.scope.lists
    && SendsFrom(rules, a, input, GET, CollectionPath(kind, ns), Limit(limit))
  }

  /** A list is given exactly when it came whole, within the limit and with every item proper. */
  ghost predicate ListAnswer(rules: Rules, a: Adapter, input: Input, kind: Kind, ns: string, limit: int,
        outcome: Outcome) {
    && (outcome.Absent? <==> ListSent(rules, a, input, kind, ns, limit) && input.reply.NotFound?)
    && (outcome.Listed? <==>
          && ListSent(rules, a, input, kind, ns, limit) && input.reply.ReceivedList? && input.reply.wellFormed
          && |input.reply.items| <= limit && rules.decodesList(input.reply.items)
          && forall o <- input.reply.items ::
               rules.subdomain(o.key.name) && Proper(rules, o, kind, Key(ns, o.key.name), ""))
    && (outcome.Listed? ==> outcome.items == input.reply.items)
    && (outcome.Stopped? <==> !outcome.Absent? && !outcome.Listed?)
  }

  lemma ListAnswered(rules: Rules, a: Adapter, input: Input, kind: Kind, ns: string, limit: int)
    requires J.Inv(a.journal)
    ensures var (b, outcome) := List(rules, a, input, kind, ns, limit);
            ListAnswer(rules, a, input, kind, ns, limit, outcome) && b.observed == a.observed
  {
    if kind != Namespace && CollectionPath(kind, ns) in a.scope.lists {
      WireAnswered(rules, a, input, GET, CollectionPath(kind, ns), Limit(limit));
    }
  }

  // ---------- writes ----------

  /** A write goes out: the guard passed, and the write itself is sent with what that left. */
  ghost predicate WriteSent(rules: Rules, a: Adapter, guard: Input, input: Input, verb: Verb, path: Path, body: Body) {
    && GuardPasses(rules, a, guard)
    && Sends(rules, false, a.maxCalls - a.calls - 1,
             Extended(a.journal, rules.encode(WireAttempt(GET, NamespacePath("kube-system"), NoBody))), input,
             WireAttempt(verb, path, body))
  }

  /** The guard's own read is observed too. */
  function Guarded(a: Adapter, guard: Input): Adapter {
    if guard.reply.Received? then a.(observed := a.observed[NamespacePath("kube-system") := guard.reply.obj]) else a
  }

  lemma WriteAnswered(rules: Rules, a: Adapter, guard: Input, input: Input, verb: Verb, path: Path, body: Body)
    requires J.Inv(a.journal)
    ensures var (c, reply) := GuardedWrite(rules, a, guard, input, verb, path, body);
            && reply == (if WriteSent(rules, a, guard, input, verb, path, body) && Known(verb, input.reply)
                         then Some(input.reply) else None)
            && (reply.Some? ==> c.observed == Guarded(a, guard).observed)
  {
    GuardAnswered(rules, a, guard);
    var (b, guarded) := GuardSystem(rules, a, guard);
    if !guarded.Stopped? {
      SyncedExtends(a.journal, guard.medium, rules.encode(WireAttempt(GET, NamespacePath(SYSTEM), NoBody)));
      WireAnswered(rules, b, input, verb, path, body);
    }
  }

  /** The proposal may be sent: unborn, held by the recovery finalizer alone, in scope, and as prescribed. */
  predicate Creatable(rules: Rules, scope: Scope, o: Object) {
    && Addressable(rules, o.kind, o.key) && o.uid == "" && o.resourceVersion == "" && o.deletion.NotDeleted?
    && o.finalizers == Some([RECOVERY_HOLD]) && rules.prescribed(PathAt(o.kind, o.key), o)
    && (if o.kind == ConfigMap then PathAt(o.kind, o.key) in scope.attempts
        else PathAt(o.kind, o.key) in scope.targets)
  }

  ghost predicate CreateSent(rules: Rules, a: Adapter, guard: Input, input: Input, o: Object) {
    && Creatable(rules, a.scope, o)
    && WriteSent(rules, a, guard, input, POST, CollectionPath(o.kind, o.key.ns), Proposal(o))
  }

  /** "Exists" is what the server said to the create; an object is returned exactly if it keeps the proposal. */
  ghost predicate CreateAnswer(rules: Rules, a: Adapter, guard: Input, input: Input, o: Object, outcome: Outcome) {
    && (outcome.Exists? <==> CreateSent(rules, a, guard, input, o) && input.reply.AlreadyExists?)
    && (outcome.Returned? <==>
          && CreateSent(rules, a, guard, input, o) && input.reply.Received?
          && Proper(rules, input.reply.obj, o.kind, o.key, "") && rules.decodes(input.reply.obj)
          && input.reply.obj.finalizers == o.finalizers
          && forall path :: P.AgreesAt(o.body, input.reply.obj.body, path))
    && (outcome.Returned? ==> outcome.obj == input.reply.obj)
    && (outcome.Stopped? <==> !outcome.Exists? && !outcome.Returned?)
  }

  lemma CreateAnswered(rules: Rules, a: Adapter, guard: Input, input: Input, o: Object)
    requires J.Inv(a.journal)
    ensures var (b, outcome) := Create(rules, a, guard, input, o);
            && CreateAnswer(rules, a, guard, input, o, outcome)
            && (!outcome.Stopped? ==> Observes(Guarded(a, guard), b, PathAt(o.kind, o.key), outcome))
  {
    AddressIs(rules, o.kind, o.key);
    var path, at := PathAt(o.kind, o.key), CollectionPath(o.kind, o.key.ns);
    if Creatable(rules, a.scope, o) {
      WriteAnswered(rules, a, guard, input, POST, at, Proposal(o));
      var (c, reply) := GuardedWrite(rules, a, guard, input, POST, at, Proposal(o));
      SettledIs(c, path, reply, Acceptable(rules, reply, o.kind, o.key, "") && KeepsProposal(o, reply.value.obj));
      if input.reply.Received? { P.ContainsIffAgrees(o.body, input.reply.obj.body); }
    }
  }

  /** The update may be sent: it is an object seen before, in scope, with only the hold appended. */
  predicate Holdable(rules: Rules, a: Adapter, o: Object) {
    var path := PathAt(o.kind, o.key);
    && Addressable(rules, o.kind, o.key) && path in a.scope.targets && path in a.observed
    && rules.decodes(a.observed[path]) && RECOVERY_HOLD !in Finalizers(a.observed[path])
    && o == a.observed[path].(finalizers := Some(Finalizers(a.observed[path]) + [RECOVERY_HOLD]))
  }

  ghost predicate UpdateSent(rules: Rules, a: Adapter, guard: Input, input: Input, o: Object) {
    && Holdable(rules, a, o)
    && WriteSent(rules, a, guard, input, PATCH, PathAt(o.kind, o.key), AppendHold(a.observed[PathAt(o.kind, o.key)]))
  }

  /** An object is returned exactly if the patch was answered by what it asked for; anything else stops. */
  ghost predicate UpdateAnswer(rules: Rules, a: Adapter, guard: Input, input: Input, o: Object, outcome: Outcome) {
    && (outcome.Returned? <==>
          && UpdateSent(rules, a, guard, input, o) && input.reply.Received?
          && var back := input.reply.obj;
             && Proper(rules, back, o.kind, o.key, o.uid) && rules.decodes(back)
             && back == o.(resourceVersion := back.resourceVersion, managedFields := back.managedFields))
    && (outcome.Returned? ==> outcome.obj == input.reply.obj)
    && (outcome.Stopped? <==> !outcome.Returned?)
  }

  lemma UpdateAnswered(rules: Rules, a: Adapter, guard: Input, input: Input, o: Object)
    requires J.Inv(a.journal)
    ensures var (b, outcome) := Update(rules, a, guard, input, o);
            && UpdateAnswer(rules, a, guard, input, o, outcome)
            && (!outcome.Stopped? ==> Observes(Guarded(a, guard), b, PathAt(o.kind, o.key), outcome))
  {
    AddressIs(rules, o.kind, o.key);
    var path := PathAt(o.kind, o.key);
    if Holdable(rules, a, o) {
      var before := a.observed[path];
      WriteAnswered(rules, a, guard, input, PATCH, path, AppendHold(before));
      var (c, reply) := GuardedWrite(rules, a, guard, input, PATCH, path, AppendHold(before));
      SettledIs(c, path, reply,
                Acceptable(rules, reply, o.kind, o.key, before.uid) && ValidUpdated(before, o, reply.value.obj));
    }
  }
}
