/**
 The recovery stage adapter: a client of the Kubernetes API that journals every
 request before sending it, stops for good at the first unknown outcome, and
 reaches only the paths its invocation was pinned to. The server, the journal's
 medium and the context are an arbitrary environment (`Input`).
 */
module StageAdapter {
  import opened Options
  import opened Bytes
  import J = StageJournal
  import P = JsonPatch

  const RECOVERY_HOLD := "kova.cofy.dev/recovery-hold"
  const SYSTEM := "kube-system"

  datatype Kind = Namespace | ConfigMap | Pod | KovaBuild

  datatype Key = Key(ns: string, name: string)

  /** Request paths, by what they address. */
  datatype Path =
    | NamespacePath(name: string)
    | ObjectPath(kind: Kind, key: Key)
    | CollectionPath(kind: Kind, ns: string)

  datatype Deletion = NotDeleted | Deleted | BadDeletion

  /** An API object: its identity, the metadata the adapter inspects, and everything else as `body`. */
  datatype Object = Object(
    kind: Kind, key: Key, uid: string, resourceVersion: string, finalizers: Option<seq<string>>,
    deletion: Deletion, phase: string, managedFields: string, body: P.Json)

  /** Decisions of libraries the adapter calls, taken as given. */
  datatype Rules = Rules(
    subdomain: string -> bool,
    dnsLabel: string -> bool,
    token: string -> bool,
    // The labels, annotations and content of a create proposal are those prescribed for its path.
    prescribed: (Path, Object) -> bool,
    // The name of the occupancy attempt for a kind and name, a digest within the epoch.
    attemptName: (Kind, string) -> string,
    decodes: Object -> bool,
    decodesList: seq<Object> -> bool,
    encode: Record -> bytes)

  datatype Verb = GET | POST | PATCH

  datatype Body = NoBody | Limit(limit: int) | Proposal(obj: Object) | AppendHold(before: Object)

  /** `wellFormed` lists name their kind and version and have no continuation. */
  datatype Reply =
    | Failure
    | NotFound
    | AlreadyExists
    | Received(obj: Object)
    | ReceivedList(items: seq<Object>, wellFormed: bool)

  /** What the environment does to one wire attempt. */
  datatype Input = Input(alive: bool, bodyFits: bool, medium: J.Medium, reply: Reply)

  datatype Record =
    | Prepared
    | WireAttempt(verb: Verb, path: Path, body: Body)
    | Report(text: string)
    | Final(stage: string, calls: nat)

  datatype Event =
    | Wrote(record: Record)
    | Sent(verb: Verb, path: Path, body: Body, reply: Reply)

  // ---------- the scope of an invocation ----------

  /** `readable` maps a path to the UID it must have, or to nothing for a name qualified by a receipt. */
  datatype Scope = Scope(readable: map<Path, string>, targets: set<Path>, attempts: set<Path>, lists: set<Path>)

  datatype Pin = Pin(name: string, uid: string)

  /** Something left behind: a build or a pod, by name. */
  datatype Target = Target(kind: Kind, name: string)

  datatype Receipt = Receipt(key: Key, uid: string)

  datatype Pins =
    | Collect(runner: Pin, receipts: Pin)
    | Drain(epoch: Pin, receiptSpace: Pin, stopIntent: Receipt, expected: seq<Receipt>, liabilities: seq<Target>)

  predicate NamespaceOk(rules: Rules, systemUid: string, p: Pin) {
    p.name != SYSTEM && rules.dnsLabel(p.name) && rules.token(p.uid) && p.uid != systemUid
  }

  /** Two namespaces, with names and UIDs apart from each other and from the system one. */
  predicate PinsApart(rules: Rules, systemUid: string, a: Pin, b: Pin) {
    NamespaceOk(rules, systemUid, a) && NamespaceOk(rules, systemUid, b) && a.name != b.name && a.uid != b.uid
  }

  function NamespaceReads(systemUid: string, a: Pin, b: Pin): map<Path, string> {
    map[NamespacePath(SYSTEM) := systemUid, NamespacePath(a.name) := a.uid, NamespacePath(b.name) := b.uid]
  }

  function ListPaths(ns: string): set<Path> {
    {CollectionPath(ConfigMap, ns), CollectionPath(Pod, ns), CollectionPath(KovaBuild, ns)}
  }

  function TargetPaths(epoch: string, liabilities: seq<Target>): set<Path> {
    set t <- liabilities :: ObjectPath(t.kind, Key(epoch, t.name))
  }

  function AttemptPaths(rules: Rules, epoch: string, liabilities: seq<Target>): set<Path> {
    set t <- liabilities :: ObjectPath(ConfigMap, Key(epoch, rules.attemptName(t.kind, t.name)))
  }

  function ReceiptReads(expected: seq<Receipt>): map<Path, string> {
    if expected == [] then map[]
    else
      var last := expected[|expected| - 1];
      ReceiptReads(expected[..|expected| - 1])[ObjectPath(ConfigMap, last.key) := last.uid]
  }

  /** Receipts lie in their own namespace under distinct names. */
  predicate ReceiptsOk(rules: Rules, ns: string, expected: seq<Receipt>) {
    && (forall r <- expected :: r.key.ns == ns && rules.subdomain(r.key.name))
    && (forall i, j :: 0 <= i < j < |expected| ==> expected[i].key != expected[j].key)
  }

  predicate DrainOk(rules: Rules, systemUid: string, pins: Pins)
    requires pins.Drain?
  {
    && PinsApart(rules, systemUid, pins.epoch, pins.receiptSpace)
    && pins.stopIntent.key.ns == pins.epoch.name && rules.subdomain(pins.stopIntent.key.name)
    && ReceiptsOk(rules, pins.receiptSpace.name, pins.expected)
    && forall t <- pins.liabilities :: rules.subdomain(t.name) && (t.kind == Pod || t.kind == KovaBuild)
  }

  function NewScope(rules: Rules, systemUid: string, pins: Pins): Option<Scope> {
    match pins
    case Collect(runner, receipts) =>
      if !PinsApart(rules, systemUid, runner, receipts) then None
      else Some(Scope(NamespaceReads(systemUid, runner, receipts), {}, {},
          ListPaths(runner.name) + ListPaths(receipts.name)))
    case Drain(epoch, space, stop, expected, liabilities) =>
      if !DrainOk(rules, systemUid, pins) then None
      else
        var targets, attempts := TargetPaths(epoch.name, liabilities), AttemptPaths(rules, epoch.name, liabilities);
        Some(Scope(
          ReceiptReads([stop] + expected) + (map p | p in targets + attempts :: "")
          + NamespaceReads(systemUid, epoch, space),
          targets, attempts, {CollectionPath(ConfigMap, space.name)}))
  }

  /** Where an invocation may write: nowhere when it collects, and only in the epoch's namespace when it drains. */
  predicate MayWrite(pins: Pins, p: Path) {
    pins.Drain? && p.ObjectPath? && p.key.ns == pins.epoch.name && p.kind != Namespace
  }

  lemma ScopeIsClosed(rules: Rules, systemUid: string, pins: Pins)
    requires NewScope(rules, systemUid, pins).Some?
    ensures var scope := NewScope(rules, systemUid, pins).value;
            && NamespacePath(SYSTEM) in scope.readable && scope.readable[NamespacePath(SYSTEM)] == systemUid
            && (forall p <- scope.targets + scope.attempts :: MayWrite(pins, p) && p.key.ns != SYSTEM)
            && scope.targets + scope.attempts <= scope.readable.Keys
            && scope.targets !! scope.attempts
  {
  }

  /** Two proper namespaces, apart from each other and from the system one. */
  predicate TwoSpaces(rules: Rules, systemUid: string, a: Pin, b: Pin) {
    && a.name != b.name && a.uid != b.uid && "kube-system" !in {a.name, b.name} && systemUid !in {a.uid, b.uid}
    && rules.dnsLabel(a.name) && rules.dnsLabel(b.name) && rules.token(a.uid) && rules.token(b.uid)
  }

  /** Proper and distinct names: the stop intent in the epoch's namespace, the receipts in theirs. */
  ghost predicate ProperNames(rules: Rules, pins: Pins)
    requires pins.Drain?
  {
    && rules.subdomain(pins.stopIntent.key.name) && pins.stopIntent.key.ns == pins.epoch.name
    && (forall i :: 0 <= i < |pins.expected| ==>
          rules.subdomain(pins.expected[i].key.name) && pins.expected[i].key.ns == pins.receiptSpace.name)
    && (forall i, j :: 0 <= i < j < |pins.expected| ==> pins.expected[i].key.name != pins.expected[j].key.name)
    && (forall i :: 0 <= i < |pins.liabilities| ==>
          rules.subdomain(pins.liabilities[i].name) && pins.liabilities[i].kind in {Pod, KovaBuild})
  }

  lemma NamesIff(rules: Rules, pins: Pins)
    requires pins.Drain?
    ensures ProperNames(rules, pins) <==>
            && pins.stopIntent.key.ns == pins.epoch.name && rules.subdomain(pins.stopIntent.key.name)
            && ReceiptsOk(rules, pins.receiptSpace.name, pins.expected)
            && forall t <- pins.liabilities :: rules.subdomain(t.name) && (t.kind == Pod || t.kind == KovaBuild)
  {
    assert forall i :: 0 <= i < |pins.expected| ==> pins.expected[i] in pins.expected;
    assert forall i :: 0 <= i < |pins.liabilities| ==> pins.liabilities[i] in pins.liabilities;
  }

  /** When there is a scope at all. */
  lemma ScopeExistsIff(rules: Rules, systemUid: string, pins: Pins)
    ensures NewScope(rules, systemUid, pins).Some? <==>
            match pins
            case Collect(a, b) => TwoSpaces(rules, systemUid, a, b)
            case Drain(a, b, _, _, _) => TwoSpaces(rules, systemUid, a, b) && ProperNames(rules, pins)
  {
    if pins.Drain? { NamesIff(rules, pins); }
  }

  /**
   What each path of a scope is for. Collecting reads three namespaces and lists the three kinds in two of them.
   Draining writes a target or its attempt for each liability and lists the receipts.
   */
  lemma ScopeMeans(rules: Rules, systemUid: string, pins: Pins, p: Path)
    requires NewScope(rules, systemUid, pins).Some?
    ensures var scope := NewScope(rules, systemUid, pins).value;
            match pins
            case Collect(a, b) =>
              && scope.targets == {} && scope.attempts == {}
              && (p in scope.readable <==> p in {NamespacePath(SYSTEM), NamespacePath(a.name), NamespacePath(b.name)})
              && (p in scope.lists <==>
                    p.CollectionPath? && p.kind in {ConfigMap, Pod, KovaBuild} && p.ns in {a.name, b.name})
              && scope.readable[NamespacePath(a.name)] == a.uid && scope.readable[NamespacePath(b.name)] == b.uid
            case Drain(a, b, _, _, liabilities) =>
              && (p in scope.targets <==> exists t <- liabilities :: p == ObjectPath(t.kind, Key(a.name, t.name)))
              && (p in scope.attempts <==>
                    exists t <- liabilities ::
                      p == ObjectPath(ConfigMap, Key(a.name, rules.attemptName(t.kind, t.name))))
              && (p in scope.lists <==> p == CollectionPath(ConfigMap, b.name))
              && (p.NamespacePath? ==> (p in scope.readable <==> p.name in {SYSTEM, a.name, b.name}))
              && (p.CollectionPath? ==> p !in scope.readable)
              && NamespacePath(a.name) in scope.readable && scope.readable[NamespacePath(a.name)] == a.uid
              && NamespacePath(b.name) in scope.readable && scope.readable[NamespacePath(b.name)] == b.uid
  {
    if pins.Drain? { ReceiptsAreObjects([pins.stopIntent] + pins.expected, p); }
  }

  lemma {:induction false} ReceiptsAreObjects(expected: seq<Receipt>, p: Path)
    ensures p in ReceiptReads(expected) <==> exists r <- expected :: p == ObjectPath(ConfigMap, r.key)
    decreases |expected|
  {
    if expected != [] {
      var n := |expected| - 1;
      ReceiptsAreObjects(expected[..n], p);
      assert expected == expected[..n] + [expected[n]];
    }
  }

  lemma {:induction false} ReceiptPin(expected: seq<Receipt>, i: nat)
    requires i < |expected| && forall j, k :: 0 <= j < k < |expected| ==> expected[j].key != expected[k].key
    ensures ObjectPath(ConfigMap, expected[i].key) in ReceiptReads(expected)
    ensures ReceiptReads(expected)[ObjectPath(ConfigMap, expected[i].key)] == expected[i].uid
    decreases |expected|
  {
    var n := |expected| - 1;
    if i < n { ReceiptPin(expected[..n], i); }
  }

  /** What a drain may read at an object's path: a receipt at its pinned UID, or anything of a name it may write. */
  lemma ReadableObject(rules: Rules, systemUid: string, pins: Pins, p: Path)
    requires pins.Drain? && NewScope(rules, systemUid, pins).Some? && p.ObjectPath?
    ensures var scope, receipts := NewScope(rules, systemUid, pins).value,
        ReceiptReads([pins.stopIntent] + pins.expected);
            && (p in scope.readable <==> p in scope.targets + scope.attempts || p in receipts)
            && (p in scope.readable ==>
                  scope.readable[p] == if p in scope.targets + scope.attempts then "" else receipts[p])
  {
  }

  /** Every expected receipt stays pinned to its UID. */
  lemma ReceiptsStayPinned(rules: Rules, systemUid: string, pins: Pins, i: nat)
    requires pins.Drain? && NewScope(rules, systemUid, pins).Some? && i < |pins.expected|
    ensures var readable, p := NewScope(rules, systemUid, pins).value.readable,
        ObjectPath(ConfigMap, pins.expected[i].key);
            p in readable && readable[p] == pins.expected[i].uid
  {
    ReadableObject(rules, systemUid, pins, ObjectPath(ConfigMap, pins.expected[i].key));
    DistinctReceipts(rules, systemUid, pins);
    ReceiptPin([pins.stopIntent] + pins.expected, i + 1);
  }

  lemma DistinctReceipts(rules: Rules, systemUid: string, pins: Pins)
    requires pins.Drain? && DrainOk(rules, systemUid, pins)
    ensures var all := [pins.stopIntent] + pins.expected;
            forall j, k :: 0 <= j < k < |all| ==> all[j].key != all[k].key
  {
    assert forall r <- pins.expected :: r.key.ns != pins.stopIntent.key.ns;
  }

  /** Some occupancy attempt of the invocation has the stop intent's name. */
  predicate StopCollides(rules: Rules, pins: Pins)
    requires pins.Drain?
  {
    exists t <- pins.liabilities :: rules.attemptName(t.kind, t.name) == pins.stopIntent.key.name
  }

  /**
   The stop intent stays pinned to its UID exactly when no occupancy attempt has its name, or it was pinned to nothing.
   */
  lemma StopIntentPinnedIff(rules: Rules, systemUid: string, pins: Pins)
    requires pins.Drain? && NewScope(rules, systemUid, pins).Some?
    ensures var readable, p := NewScope(rules, systemUid, pins).value.readable,
        ObjectPath(ConfigMap, pins.stopIntent.key);
            && p in readable && (StopCollides(rules, pins) ==> readable[p] == "")
            && (readable[p] == pins.stopIntent.uid <==> pins.stopIntent.uid == "" || !StopCollides(rules, pins))
  {
    ReadableObject(rules, systemUid, pins, ObjectPath(ConfigMap, pins.stopIntent.key));
    DistinctReceipts(rules, systemUid, pins);
    ReceiptPin([pins.stopIntent] + pins.expected, 0);
    StopIsAttempt(rules, pins);
  }

  lemma StopIsAttempt(rules: Rules, pins: Pins)
    requires pins.Drain? && pins.stopIntent.key.ns == pins.epoch.name
    ensures ObjectPath(ConfigMap, pins.stopIntent.key) in AttemptPaths(rules, pins.epoch.name, pins.liabilities)
            <==> StopCollides(rules, pins)
  {
    assert forall t <- pins.liabilities ::
        ObjectPath(ConfigMap, Key(pins.epoch.name, rules.attemptName(t.kind, t.name)))
        == ObjectPath(ConfigMap, pins.stopIntent.key)
        <==> rules.attemptName(t.kind, t.name) == pins.stopIntent.key.name;
  }

  /**
   A drain of one build whose stop intent has the name of the build's own occupancy attempt: its pinned UID is lost.
   */
  lemma CollidingStopIntent(rules: Rules, build: string)
    requires rules.dnsLabel("epoch") && rules.dnsLabel("receipts") && rules.token("e") && rules.token("r")
    requires rules.subdomain(build) && rules.subdomain(rules.attemptName(KovaBuild, build))
    ensures var stop := Receipt(Key("epoch", rules.attemptName(KovaBuild, build)), "pinned");
            var scope := NewScope(rules, "system",
                Drain(Pin("epoch", "e"), Pin("receipts", "r"), stop, [], [Target(KovaBuild, build)]));
            scope.Some? && ObjectPath(ConfigMap, stop.key) in scope.value.readable
                && scope.value.readable[ObjectPath(ConfigMap, stop.key)] == ""
  {
    var stop := Receipt(Key("epoch", rules.attemptName(KovaBuild, build)), "pinned");
    var pins := Drain(Pin("epoch", "e"), Pin("receipts", "r"), stop, [], [Target(KovaBuild, build)]);
    assert |"epoch"| == 5 && |"receipts"| == 8 && |SYSTEM| == 11 && "e"[0] != "r"[0] && |"e"| == 1 && |"r"| == 1
        && |"system"| == 6;
    assert DrainOk(rules, "system", pins);
    assert pins.liabilities[0] == Target(KovaBuild, build);
    StopIntentPinnedIff(rules, "system", pins);
  }

  // ---------- the adapter ----------

  datatype Adapter = Adapter(
    scope: Scope, maxCalls: nat, calls: nat, failed: bool, observed: map<Path, Object>,
    journal: J.Journal, trace: seq<Event>)

  function NewAdapter(scope: Scope, maxCalls: nat): Adapter {
    Adapter(scope, maxCalls, 0, false, map[], J.Journal([], 0, []), [])
  }

  function Stop(a: Adapter): Adapter {
    a.(failed := true)
  }

  /** Append a record to the journal; a record that was written counts even when it could not be synced. */
  function Log(rules: Rules, a: Adapter, m: J.Medium, record: Record): (Adapter, bool) {
    var (journal, outcome) := J.Append(a.journal, m, rules.encode(record));
    (a.(journal := journal, trace := if outcome.Refused? then a.trace else a.trace + [Wrote(record)]), outcome.Synced?)
  }

  function Send(a: Adapter, e: Event): Adapter {
    a.(calls := a.calls + 1, trace := a.trace + [e])
  }

  /** Only a GET can be told "not found", only a POST "already exists"; anything else unexpected is unknown. */
  function Classify(verb: Verb, reply: Reply): Reply {
    if (reply.NotFound? && verb != GET) || (reply.AlreadyExists? && verb != POST) then Failure else reply
  }

  /** The adapter after one wire attempt, and the answer if its outcome is known. */
  function Wire(rules: Rules, a: Adapter, input: Input, verb: Verb, path: Path, body: Body): (Adapter, Option<Reply>) {
    if a.failed || !input.alive || a.calls >= a.maxCalls || !input.bodyFits then (Stop(a), None)
    else
      var (b, ok) := Log(rules, a, input.medium, WireAttempt(verb, path, body));
      if !ok then (Stop(b), None)
      else
        var reply := Classify(verb, input.reply);
        var sent := Send(b, Sent(verb, path, body, reply));
        if reply.Failure? then (Stop(sent), None) else (sent, Some(reply))
  }

  function Address(rules: Rules, kind: Kind, key: Key): Option<Path> {
    if !rules.subdomain(key.name) then None
    else if kind == Namespace then (if key.ns == "" then Some(NamespacePath(key.name)) else None)
    else if rules.dnsLabel(key.ns) then Some(ObjectPath(kind, key)) else None
  }

  predicate Qualified(rules: Rules, o: Object, kind: Kind, key: Key, uid: string) {
    && rules.subdomain(key.name) && o.kind == kind && o.key == key
    && rules.token(o.uid) && rules.token(o.resourceVersion) && (uid == "" || o.uid == uid)
    && !o.deletion.BadDeletion?
  }

  datatype Outcome = Stopped | Absent | Exists | Returned(obj: Object) | Listed(items: seq<Object>) | Logged

  /** How a call ends once its request was answered: an object that is not acceptable stops the adapter. */
  function Settle(b: Adapter, path: Path, reply: Option<Reply>, acceptable: bool): (Adapter, Outcome) {
    if reply.None? then (b, Stopped)
    else if reply.value.NotFound? then (b, Absent)
    else if reply.value.AlreadyExists? then (b, Exists)
    else if !reply.value.Received? || !acceptable then (Stop(b), Stopped)
    else (b.(observed := b.observed[path := reply.value.obj]), Returned(reply.value.obj))
  }

  predicate Acceptable(rules: Rules, reply: Option<Reply>, kind: Kind, key: Key, uid: string) {
    && reply.Some? && reply.value.Received?
    && Qualified(rules, reply.value.obj, kind, key, uid) && rules.decodes(reply.value.obj)
  }

  function Get(rules: Rules, a: Adapter, input: Input, kind: Kind, key: Key): (Adapter, Outcome) {
    var path := Address(rules, kind, key);
    if path.None? || path.value !in a.scope.readable then (Stop(a), Stopped)
    else
      var (b, reply) := Wire(rules, a, input, GET, path.value, NoBody);
      Settle(b, path.value, reply, Acceptable(rules, reply, kind, key, a.scope.readable[path.value]))
  }

  predicate SystemActive(o: Object) {
    o.deletion.NotDeleted? && o.phase == "Active"
  }

  function GuardSystem(rules: Rules, a: Adapter, input: Input): (Adapter, Outcome) {
    var (b, outcome) := Get(rules, a, input, Namespace, Key("", SYSTEM));
    if outcome.Returned? && SystemActive(outcome.obj) then (b, outcome) else (Stop(b), Stopped)
  }

  function List(rules: Rules, a: Adapter, input: Input, kind: Kind, ns: string, limit: int): (Adapter, Outcome) {
    if limit < 1 || limit > 8192 || kind == Namespace || CollectionPath(kind, ns) !in a.scope.lists
        then (Stop(a), Stopped)
    else
      var (b, reply) := Wire(rules, a, input, GET, CollectionPath(kind, ns), Limit(limit));
      if reply.None? then (b, Stopped)
      else if reply.value.NotFound? then (b, Absent)
      else if !reply.value.ReceivedList? || !reply.value.wellFormed || |reply.value.items| > limit
              || (exists o <- reply.value.items :: !Qualified(rules, o, kind, Key(ns, o.key.name), ""))
              || !rules.decodesList(reply.value.items) then (Stop(b), Stopped)
      else (b, Listed(reply.value.items))
  }

  /** A write is sent only after the system namespace was read and found active. */
  function GuardedWrite(rules: Rules, a: Adapter, guard: Input, input: Input, verb: Verb, path: Path, body: Body)
    : (Adapter, Option<Reply>)
  {
    var (b, guarded) := GuardSystem(rules, a, guard);
    if guarded.Stopped? then (b, None) else Wire(rules, b, input, verb, path, body)
  }

  /** A create proposal is unborn, held by the recovery finalizer alone, and prescribed by the scope. */
  predicate ValidCreate(rules: Rules, scope: Scope, path: Path, o: Object) {
    && o.uid == "" && o.resourceVersion == "" && o.deletion.NotDeleted? && o.finalizers == Some([RECOVERY_HOLD])
    && path in (if o.kind == ConfigMap then scope.attempts else scope.targets)
    && rules.prescribed(path, o)
  }

  /** The server kept the finalizers and every field of the proposal. */
  predicate KeepsProposal(o: Object, back: Object) {
    back.finalizers == o.finalizers && P.ContainsProposal(o.body, back.body)
  }

  function Create(rules: Rules, a: Adapter, guard: Input, input: Input, o: Object): (Adapter, Outcome) {
    var path := Address(rules, o.kind, o.key);
    if path.None? || !ValidCreate(rules, a.scope, path.value, o) then (Stop(a), Stopped)
    else
      var (c, reply) := GuardedWrite(rules, a, guard, input, POST, CollectionPath(o.kind, o.key.ns), Proposal(o));
      Settle(c, path.value, reply, Acceptable(rules, reply, o.kind, o.key, "") && KeepsProposal(o, reply.value.obj))
  }

  function Finalizers(o: Object): seq<string> {
    if o.finalizers.Some? then o.finalizers.value else []
  }

  /** The update is the observed object with the hold appended to finalizers that did not contain it. */
  predicate ValidUpdate(before: Object, o: Object) {
    RECOVERY_HOLD !in Finalizers(before) && o == before.(finalizers := Some(Finalizers(before) + [RECOVERY_HOLD]))
  }

  /** The answer is the observed object with the new finalizers, up to what the server itself maintains. */
  predicate ValidUpdated(before: Object, o: Object, back: Object) {
    back == before.(finalizers := o.finalizers, resourceVersion := back.resourceVersion,
        managedFields := back.managedFields)
  }

  function Update(rules: Rules, a: Adapter, guard: Input, input: Input, o: Object): (Adapter, Outcome) {
    var path := Address(rules, o.kind, o.key);
    if path.None? || path.value !in a.scope.targets || path.value !in a.observed
        || !rules.decodes(a.observed[path.value])
       || !ValidUpdate(a.observed[path.value], o) then (Stop(a), Stopped)
    else
      var before := a.observed[path.value];
      var (c, reply) := GuardedWrite(rules, a, guard, input, PATCH, path.value, AppendHold(before));
      Settle(c, path.value, reply,
             Acceptable(rules, reply, o.kind, o.key, before.uid) && ValidUpdated(before, o, reply.value.obj))
  }

  // ---------- runs ----------

  /** A call of the adapter, or a report its owner writes to the same journal. */
  datatype Call =
    | GetCall(kind: Kind, key: Key, input: Input)
    | ListCall(kind: Kind, ns: string, limit: int, input: Input)
    | GuardCall(input: Input)
    | CreateCall(obj: Object, guard: Input, input: Input)
    | UpdateCall(obj: Object, guard: Input, input: Input)
    | ReportCall(record: Record, medium: J.Medium)

  function Perform(rules: Rules, a: Adapter, call: Call): (Adapter, Outcome) {
    match call
    case GetCall(kind, key, input) => Get(rules, a, input, kind, key)
    case ListCall(kind, ns, limit, input) => List(rules, a, input, kind, ns, limit)
    case GuardCall(input) => GuardSystem(rules, a, input)
    case CreateCall(o, guard, input) => Create(rules, a, guard, input, o)
    case UpdateCall(o, guard, input) => Update(rules, a, guard, input, o)
    case ReportCall(record, m) => if record.WireAttempt? then (a, Logged) else (Log(rules, a, m, record).0, Logged)
  }

  function PerformAll(rules: Rules, a: Adapter, calls: seq<Call>): Adapter
    decreases |calls|
  {
    if calls == [] then a else PerformAll(rules, Perform(rules, a, calls[0]).0, calls[1..])
  }

  // ---------- what every run keeps ----------

  function Requests(trace: seq<Event>): nat {
    if trace == [] then 0 else Requests(trace[..|trace| - 1]) + if trace[|trace| - 1].Sent? then 1 else 0
  }

  /** The journal lines a trace stands for. */
  function LinesOf(rules: Rules, trace: seq<Event>): seq<bytes> {
    if trace == [] then []
    else
      var last := trace[|trace| - 1];
      LinesOf(rules, trace[..|trace| - 1]) + if last.Wrote? then [rules.encode(last.record) + [NEWLINE]] else []
  }

  /** The request at `i` has its own journal record directly before it. */
  predicate OwnRecord(trace: seq<Event>, i: nat)
    requires i < |trace| && trace[i].Sent?
  {
    i > 0 && trace[i - 1] == Wrote(WireAttempt(trace[i].verb, trace[i].path, trace[i].body))
  }

  /** The event read the pinned system namespace and found it active. */
  predicate SystemRead(scope: Scope, e: Event) {
    && NamespacePath(SYSTEM) in scope.readable
    && e.Sent? && e.verb == GET && e.path == NamespacePath(SYSTEM)
    && e.reply.Received? && SystemActive(e.reply.obj)
    && (scope.readable[NamespacePath(SYSTEM)] == "" || e.reply.obj.uid == scope.readable[NamespacePath(SYSTEM)])
  }

  function PathOf(o: Object): Path {
    if o.kind == Namespace then NamespacePath(o.key.name) else ObjectPath(o.kind, o.key)
  }

  ghost predicate Witnessed(trace: seq<Event>, o: Object) {
    exists j :: 0 <= j < |trace| && trace[j].Sent? && trace[j].reply == Received(o)
  }

  /** What the scope lets a request be. A create is held, a patch appends the hold to an object seen without it. */
  ghost predicate Permitted(scope: Scope, earlier: seq<Event>, verb: Verb, path: Path, body: Body) {
    match verb
    case GET => if path.CollectionPath? then path in scope.lists else path in scope.readable
    case POST =>
      && body.Proposal? && path == CollectionPath(body.obj.kind, body.obj.key.ns)
      && PathOf(body.obj) in scope.targets + scope.attempts && body.obj.finalizers == Some([RECOVERY_HOLD])
    case PATCH =>
      && body.AppendHold? && path == PathOf(body.before) && path in scope.targets
      && RECOVERY_HOLD !in Finalizers(body.before) && Witnessed(earlier, body.before)
  }

  /**
   A request may follow a trace: it is permitted and, when it writes, the trace ends in a read of the system namespace.
   */
  ghost predicate Fit(scope: Scope, trace: seq<Event>, verb: Verb, path: Path, body: Body) {
    && Permitted(scope, trace, verb, path, body)
    && (verb != GET ==> trace != [] && SystemRead(scope, trace[|trace| - 1]))
  }

  ghost predicate EventOk(scope: Scope, trace: seq<Event>, i: nat)
    requires i < |trace|
  {
    trace[i].Sent? ==>
      && OwnRecord(trace, i)
      && Permitted(scope, trace[..i], trace[i].verb, trace[i].path, trace[i].body)
      && (trace[i].verb != GET ==> i > 1 && SystemRead(scope, trace[i - 2]))
  }

  ghost predicate EventsOk(scope: Scope, trace: seq<Event>) {
    forall i: nat | i < |trace| :: EventOk(scope, trace, i)
  }

  /** A request whose outcome is unknown, or a record of one that was never sent. */
  predicate Unknown(trace: seq<Event>, i: nat)
    requires i < |trace|
  {
    if trace[i].Sent? then trace[i].reply.Failure?
    else trace[i].record.WireAttempt? && (i + 1 < |trace| ==> !trace[i + 1].Sent?)
  }

  /** Nothing is sent after the first unknown outcome, and the adapter knows it has failed. */
  ghost predicate FailStop(failed: bool, trace: seq<Event>) {
    forall i: nat | i < |trace| && Unknown(trace, i) :: failed && forall j: nat | i < j < |trace| :: !trace[j].Sent?
  }

  ghost predicate ObservedOk(observed: map<Path, Object>, trace: seq<Event>) {
    forall p <- observed :: PathOf(observed[p]) == p && Witnessed(trace, observed[p])
  }

  /** The count, the journal and each event on its own, apart from where the trace stops. */
  ghost predicate Core(rules: Rules, a: Adapter) {
    && a.calls == Requests(a.trace) <= a.maxCalls
    && J.Inv(a.journal) && a.journal.lines == LinesOf(rules, a.trace)
    && EventsOk(a.scope, a.trace) && ObservedOk(a.observed, a.trace)
  }

  ghost predicate Inv(rules: Rules, a: Adapter) {
    Core(rules, a) && FailStop(a.failed, a.trace)
  }

  lemma EventsOkAppend(scope: Scope, trace: seq<Event>, e: Event)
    requires EventsOk(scope, trace) && EventOk(scope, trace + [e], |trace|)
    ensures EventsOk(scope, trace + [e])
  {
    forall i: nat | i < |trace + [e]| ensures EventOk(scope, trace + [e], i) {
      if i < |trace| {
        assert EventOk(scope, trace, i);
        assert (trace + [e])[..i] == trace[..i];
      }
    }
  }

  lemma WitnessedAppend(observed: map<Path, Object>, trace: seq<Event>, e: Event)
    requires ObservedOk(observed, trace)
    ensures ObservedOk(observed, trace + [e])
  {
    forall p <- observed ensures Witnessed(trace + [e], observed[p]) {
      var j :| 0 <= j < |trace| && trace[j].Sent? && trace[j].reply == Received(observed[p]);
      assert (trace + [e])[j] == trace[j];
    }
  }

  lemma LogKeepsCore(rules: Rules, a: Adapter, m: J.Medium, record: Record)
    requires Core(rules, a)
    ensures Core(rules, Log(rules, a, m, record).0)
  {
    J.AppendKeeps(a.journal, m, rules.encode(record));
    var e := Wrote(record);
    assert (a.trace + [e])[..|a.trace|] == a.trace;
    EventsOkAppend(a.scope, a.trace, e);
    WitnessedAppend(a.observed, a.trace, e);
  }

  lemma SendKeepsCore(rules: Rules, b: Adapter, e: Event)
    requires Core(rules, b) && b.calls < b.maxCalls && e.Sent?
    requires EventOk(b.scope, b.trace + [e], |b.trace|)
    ensures Core(rules, Send(b, e))
  {
    assert (b.trace + [e])[..|b.trace|] == b.trace;
    EventsOkAppend(b.scope, b.trace, e);
    WitnessedAppend(b.observed, b.trace, e);
  }

  /** A report, or the record of a request that stops the adapter, sends nothing. */
  lemma FailStopRecord(failed: bool, trace: seq<Event>, record: Record)
    requires FailStop(failed, trace)
    ensures FailStop(failed || record.WireAttempt?, trace + [Wrote(record)])
  {
    var next := trace + [Wrote(record)];
    forall i: nat | i < |trace| && Unknown(next, i) ensures Unknown(trace, i) {
    }
  }

  lemma FailStopSend(trace: seq<Event>, record: Record, e: Event)
    requires FailStop(false, trace) && e.Sent?
    ensures FailStop(e.reply.Failure?, trace + [Wrote(record)] + [e])
  {
    var next := trace + [Wrote(record)] + [e];
    forall i: nat | i < |trace| && Unknown(next, i) ensures Unknown(trace, i) {
    }
  }

  /** A request that is permitted, guarded when it writes, and recorded, is fit to be sent. */
  lemma SendIsOk(scope: Scope, trace: seq<Event>, e: Event)
    requires e.Sent? && Fit(scope, trace, e.verb, e.path, e.body)
    ensures var recorded := trace + [Wrote(WireAttempt(e.verb, e.path, e.body))];
            EventOk(scope, recorded + [e], |recorded|)
  {
    var recorded := trace + [Wrote(WireAttempt(e.verb, e.path, e.body))];
    PermittedLater(scope, trace, recorded, e.verb, e.path, e.body);
    assert (recorded + [e])[..|recorded|] == recorded;
  }

  /** One wire attempt of a permitted request, guarded when it writes, keeps the invariant. */
  lemma WireKeeps(rules: Rules, a: Adapter, input: Input, verb: Verb, path: Path, body: Body)
    requires Inv(rules, a) && Fit(a.scope, a.trace, verb, path, body)
    ensures Inv(rules, Wire(rules, a, input, verb, path, body).0)
  {
    WireKeepsCore(rules, a, input, verb, path, body);
    WireFailStop(rules, a, input, verb, path, body);
  }

  lemma SendAfterLog(rules: Rules, a: Adapter, b: Adapter, e: Event)
    requires Core(rules, b) && b.calls < b.maxCalls && b.scope == a.scope
    requires e.Sent? && b.trace == a.trace + [Wrote(WireAttempt(e.verb, e.path, e.body))]
    requires Fit(a.scope, a.trace, e.verb, e.path, e.body)
    ensures Core(rules, Send(b, e)) && Core(rules, Stop(Send(b, e)))
  {
    SendIsOk(a.scope, a.trace, e);
    SendKeepsCore(rules, b, e);
    StopKeepsCore(rules, Send(b, e));
  }

  lemma StopKeepsCore(rules: Rules, a: Adapter)
    requires Core(rules, a)
    ensures Core(rules, Stop(a))
  {
  }

  lemma WireKeepsCore(rules: Rules, a: Adapter, input: Input, verb: Verb, path: Path, body: Body)
    requires Core(rules, a) && Fit(a.scope, a.trace, verb, path, body)
    ensures Core(rules, Wire(rules, a, input, verb, path, body).0)
  {
    var w, record := Wire(rules, a, input, verb, path, body).0, WireAttempt(verb, path, body);
    if a.failed || !input.alive || a.calls >= a.maxCalls || !input.bodyFits {
      StopKeepsCore(rules, a);
      assert w == Stop(a);
      return;
    }
    LogKeepsCore(rules, a, input.medium, record);
    LogFrame(rules, a, input.medium, record);
    var (b, ok) := Log(rules, a, input.medium, record);
    if ok {
      var e := Sent(verb, path, body, Classify(verb, input.reply));
      SendAfterLog(rules, a, b, e);
      assert w == Send(b, e) || w == Stop(Send(b, e));
    } else {
      StopKeepsCore(rules, b);
      assert w == Stop(b);
    }
  }

  lemma WireFailStop(rules: Rules, a: Adapter, input: Input, verb: Verb, path: Path, body: Body)
    requires FailStop(a.failed, a.trace)
    ensures var b := Wire(rules, a, input, verb, path, body).0; FailStop(b.failed, b.trace)
  {
    var record := WireAttempt(verb, path, body);
    FailStopRecord(a.failed, a.trace, record);
    if !a.failed { FailStopSend(a.trace, record, Sent(verb, path, body, Classify(verb, input.reply))); }
  }

  lemma PermittedLater(scope: Scope, trace: seq<Event>, later: seq<Event>, verb: Verb, path: Path, body: Body)
    requires Permitted(scope, trace, verb, path, body) && trace <= later
    ensures Permitted(scope, later, verb, path, body)
  {
    if verb == PATCH {
      var j :| 0 <= j < |trace| && trace[j].Sent? && trace[j].reply == Received(body.before);
      assert later[j] == trace[j];
    }
  }

  /** The request was sent last and its answer is `reply`. */
  predicate Answered(trace: seq<Event>, reply: Reply) {
    trace != [] && trace[|trace| - 1].Sent? && trace[|trace| - 1].reply == reply
  }

  /** A known answer belongs to the last event; without one the adapter has failed. */
  lemma WireAnswers(rules: Rules, a: Adapter, input: Input, verb: Verb, path: Path, body: Body)
    ensures var (b, reply) := Wire(rules, a, input, verb, path, body);
            && b.scope == a.scope && b.maxCalls == a.maxCalls && a.trace <= b.trace && b.failed == reply.None?
            && (reply.Some? ==>
                  Answered(b.trace, reply.value) && b.trace[|b.trace| - 1] == Sent(verb, path, body, reply.value))
  {
  }

  /** A known answer cost one request with its record; an adapter that had failed does nothing. */
  lemma WireCosts(rules: Rules, a: Adapter, input: Input, verb: Verb, path: Path, body: Body)
    ensures var (b, reply) := Wire(rules, a, input, verb, path, body);
            && b.observed == a.observed && (a.failed ==> b == a)
            && (reply.Some? ==>
                  && b.trace == a.trace + [Wrote(WireAttempt(verb, path, body)), Sent(verb, path, body, reply.value)]
                  && b.calls == a.calls + 1 <= a.maxCalls)
  {
  }

  lemma SettleKeeps(rules: Rules, b: Adapter, path: Path, reply: Option<Reply>, acceptable: bool)
    requires Inv(rules, b)
    requires reply.Some? ==> Answered(b.trace, reply.value)
    requires reply.Some? && reply.value.Received? && acceptable ==> PathOf(reply.value.obj) == path
    ensures Inv(rules, Settle(b, path, reply, acceptable).0)
  {
    if reply.Some? && reply.value.Received? && acceptable {
      assert Witnessed(b.trace, reply.value.obj);
      assert ObservedOk(b.observed[path := reply.value.obj], b.trace);
    }
  }

  lemma GetKeeps(rules: Rules, a: Adapter, input: Input, kind: Kind, key: Key)
    requires Inv(rules, a)
    ensures Inv(rules, Get(rules, a, input, kind, key).0)
  {
    var path := Address(rules, kind, key);
    if path.None? || path.value !in a.scope.readable { return; }
    WireKeeps(rules, a, input, GET, path.value, NoBody);
    WireAnswers(rules, a, input, GET, path.value, NoBody);
    var (b, reply) := Wire(rules, a, input, GET, path.value, NoBody);
    SettleKeeps(rules, b, path.value, reply, Acceptable(rules, reply, kind, key, a.scope.readable[path.value]));
  }

  lemma GuardKeeps(rules: Rules, a: Adapter, input: Input)
    requires Inv(rules, a)
    ensures Inv(rules, GuardSystem(rules, a, input).0)
  {
    GetKeeps(rules, a, input, Namespace, Key("", SYSTEM));
  }

  /** A guard that passes leaves the read of the system namespace as the last event. */
  lemma GuardReads(rules: Rules, a: Adapter, input: Input)
    ensures var (b, outcome) := GuardSystem(rules, a, input);
            && b.scope == a.scope && b.maxCalls == a.maxCalls && a.trace <= b.trace && b.failed == outcome.Stopped?
            && (!outcome.Stopped? ==> b.trace != [] && SystemRead(b.scope, b.trace[|b.trace| - 1]))
  {
    WireAnswers(rules, a, input, GET, NamespacePath(SYSTEM), NoBody);
  }

  lemma ListKeeps(rules: Rules, a: Adapter, input: Input, kind: Kind, ns: string, limit: int)
    requires Inv(rules, a)
    ensures Inv(rules, List(rules, a, input, kind, ns, limit).0)
  {
    if kind != Namespace && CollectionPath(kind, ns) in a.scope.lists {
      WireKeeps(rules, a, input, GET, CollectionPath(kind, ns), Limit(limit));
    }
  }

  lemma GuardedWriteKeeps(rules: Rules, a: Adapter, guard: Input, input: Input, verb: Verb, path: Path, body: Body)
    requires Inv(rules, a) && Permitted(a.scope, a.trace, verb, path, body)
    ensures var (c, reply) := GuardedWrite(rules, a, guard, input, verb, path, body);
            Inv(rules, c) && (reply.Some? ==> Answered(c.trace, reply.value))
  {
    GuardKeeps(rules, a, guard);
    GuardReads(rules, a, guard);
    var (b, guarded) := GuardSystem(rules, a, guard);
    if !guarded.Stopped? {
      PermittedLater(a.scope, a.trace, b.trace, verb, path, body);
      WireKeeps(rules, b, input, verb, path, body);
      WireAnswers(rules, b, input, verb, path, body);
    }
  }

  lemma CreateKeeps(rules: Rules, a: Adapter, guard: Input, input: Input, o: Object)
    requires Inv(rules, a)
    ensures Inv(rules, Create(rules, a, guard, input, o).0)
  {
    var path := Address(rules, o.kind, o.key);
    if path.None? || !ValidCreate(rules, a.scope, path.value, o) { return; }
    GuardedWriteKeeps(rules, a, guard, input, POST, CollectionPath(o.kind, o.key.ns), Proposal(o));
    var (c, reply) := GuardedWrite(rules, a, guard, input, POST, CollectionPath(o.kind, o.key.ns), Proposal(o));
    SettleKeeps(rules, c, path.value, reply, Acceptable(rules, reply, o.kind, o.key, "")
        && KeepsProposal(o, reply.value.obj));
  }

  lemma UpdateKeeps(rules: Rules, a: Adapter, guard: Input, input: Input, o: Object)
    requires Inv(rules, a)
    ensures Inv(rules, Update(rules, a, guard, input, o).0)
  {
    var path := Address(rules, o.kind, o.key);
    if path.None? || path.value !in a.scope.targets || path.value !in a.observed
        || !rules.decodes(a.observed[path.value])
       || !ValidUpdate(a.observed[path.value], o) { return; }
    var before := a.observed[path.value];
    GuardedWriteKeeps(rules, a, guard, input, PATCH, path.value, AppendHold(before));
    var (c, reply) := GuardedWrite(rules, a, guard, input, PATCH, path.value, AppendHold(before));
    SettleKeeps(rules, c, path.value, reply,
                Acceptable(rules, reply, o.kind, o.key, before.uid) && ValidUpdated(before, o, reply.value.obj));
  }

  lemma PerformKeeps(rules: Rules, a: Adapter, call: Call)
    requires Inv(rules, a)
    ensures Inv(rules, Perform(rules, a, call).0)
  {
    match call
    case GetCall(kind, key, input) => GetKeeps(rules, a, input, kind, key);
    case ListCall(kind, ns, limit, input) => ListKeeps(rules, a, input, kind, ns, limit);
    case GuardCall(input) => GuardKeeps(rules, a, input);
    case CreateCall(o, guard, input) => CreateKeeps(rules, a, guard, input, o);
    case UpdateCall(o, guard, input) => UpdateKeeps(rules, a, guard, input, o);
    case ReportCall(record, m) => if !record.WireAttempt? { LogKeeps(rules, a, m, record); }
  }

  /** A report goes to the journal, or not, and changes nothing else. */
  lemma LogKeeps(rules: Rules, a: Adapter, m: J.Medium, record: Record)
    requires Inv(rules, a) && !record.WireAttempt?
    ensures Inv(rules, Log(rules, a, m, record).0)
  {
    LogKeepsCore(rules, a, m, record);
    FailStopRecord(a.failed, a.trace, record);
  }

  lemma LogFrame(rules: Rules, a: Adapter, m: J.Medium, record: Record)
    ensures var (b, ok) := Log(rules, a, m, record);
            && b == a.(journal := b.journal, trace := b.trace) && (ok ==> b.trace == a.trace + [Wrote(record)])
            && (b.trace == a.trace || b.trace == a.trace + [Wrote(record)])
  {
  }

  lemma {:induction false} PerformAllKeeps(rules: Rules, a: Adapter, calls: seq<Call>)
    requires Inv(rules, a)
    ensures Inv(rules, PerformAll(rules, a, calls)) && Follows(a, PerformAll(rules, a, calls))
    decreases |calls|
  {
    if calls != [] {
      PerformKeeps(rules, a, calls[0]);
      PerformFrame(rules, a, calls[0]);
      PerformAllKeeps(rules, Perform(rules, a, calls[0]).0, calls[1..]);
    }
  }

  lemma GuardedWriteFrame(rules: Rules, a: Adapter, guard: Input, input: Input, verb: Verb, path: Path, body: Body)
    ensures var (c, reply) := GuardedWrite(rules, a, guard, input, verb, path, body);
            c.scope == a.scope && c.maxCalls == a.maxCalls && a.trace <= c.trace && c.failed == reply.None?
  {
    GuardReads(rules, a, guard);
    var (b, guarded) := GuardSystem(rules, a, guard);
    if !guarded.Stopped? { WireAnswers(rules, b, input, verb, path, body); }
  }

  /** The adapter is pinned to what it was and its trace has only grown. */
  predicate Follows(a: Adapter, b: Adapter) {
    b.scope == a.scope && b.maxCalls == a.maxCalls && a.trace <= b.trace
  }

  lemma UpdateFrame(rules: Rules, a: Adapter, guard: Input, input: Input, o: Object)
    ensures var (b, outcome) := Update(rules, a, guard, input, o); Follows(a, b) && (outcome.Stopped? <==> b.failed)
  {
    var path := Address(rules, o.kind, o.key);
    if path.Some? && path.value in a.observed {
      GuardedWriteFrame(rules, a, guard, input, PATCH, path.value, AppendHold(a.observed[path.value]));
    }
  }

  lemma CreateFrame(rules: Rules, a: Adapter, guard: Input, input: Input, o: Object)
    ensures var (b, outcome) := Create(rules, a, guard, input, o); Follows(a, b) && (outcome.Stopped? <==> b.failed)
  {
    GuardedWriteFrame(rules, a, guard, input, POST, CollectionPath(o.kind, o.key.ns), Proposal(o));
  }

  lemma ReadFrame(rules: Rules, a: Adapter, call: Call)
    requires call.GetCall? || call.ListCall?
    ensures var (b, outcome) := Perform(rules, a, call); Follows(a, b) && (outcome.Stopped? <==> b.failed)
  {
    if call.ListCall? {
      WireAnswers(rules, a, call.input, GET, CollectionPath(call.kind, call.ns), Limit(call.limit));
    } else {
      var path := Address(rules, call.kind, call.key);
      if path.Some? { WireAnswers(rules, a, call.input, GET, path.value, NoBody); }
    }
  }

  /**
   No call changes what the adapter was pinned to, and a call other than a report is refused exactly when it fails.
   */
  lemma PerformFrame(rules: Rules, a: Adapter, call: Call)
    ensures var (b, outcome) := Perform(rules, a, call);
            Follows(a, b) && (!call.ReportCall? ==> (outcome.Stopped? <==> b.failed))
  {
    match call
    case GetCall(_, _, _) => ReadFrame(rules, a, call);
    case ListCall(_, _, _, _) => ReadFrame(rules, a, call);
    case GuardCall(input) => GuardReads(rules, a, input);
    case CreateCall(o, guard, input) => CreateFrame(rules, a, guard, input, o);
    case UpdateCall(o, guard, input) => UpdateFrame(rules, a, guard, input, o);
    case ReportCall(record, m) =>
  }

  /**
   An object is returned, and remembered under its own path, only as the server's last answer to this very request.
   */
  lemma ReturnedIsAnswer(rules: Rules, a: Adapter, call: Call)
    requires call.GetCall? || call.CreateCall? || call.UpdateCall?
    ensures var (b, outcome) := Perform(rules, a, call);
            outcome.Returned? ==>
              && Answered(b.trace, Received(outcome.obj))
              && PathOf(outcome.obj) in b.observed && b.observed[PathOf(outcome.obj)] == outcome.obj
              && rules.token(outcome.obj.uid) && rules.token(outcome.obj.resourceVersion)
  {
    if call.GetCall? {
      var path := Address(rules, call.kind, call.key);
      if path.Some? { WireAnswers(rules, a, call.input, GET, path.value, NoBody); }
    } else {
      var o, path := call.obj, Address(rules, call.obj.kind, call.obj.key);
      GuardReads(rules, a, call.guard);
      var b := GuardSystem(rules, a, call.guard).0;
      if call.CreateCall? {
        WireAnswers(rules, b, call.input, POST, CollectionPath(o.kind, o.key.ns), Proposal(o));
      } else if path.Some? && path.value in a.observed {
        WireAnswers(rules, b, call.input, PATCH, path.value, AppendHold(a.observed[path.value]));
      }
    }
  }

  /**
   What the caller may rely on: a read object has the pinned UID, a created one keeps the whole proposal, and an
   updated one is what was observed before with the hold appended, but for what the server maintains.
   */
  lemma ReturnedIsQualified(rules: Rules, a: Adapter, call: Call)
    ensures var (b, outcome) := Perform(rules, a, call);
            outcome.Returned? ==>
              match call
              case GetCall(kind, key, _) =>
                && outcome.obj.kind == kind && outcome.obj.key == key && PathOf(outcome.obj) in a.scope.readable
                && (a.scope.readable[PathOf(outcome.obj)] == ""
                    || outcome.obj.uid == a.scope.readable[PathOf(outcome.obj)])
              case CreateCall(o, _, _) =>
                && outcome.obj.kind == o.kind && outcome.obj.key == o.key
                    && outcome.obj.finalizers == Some([RECOVERY_HOLD])
                && forall path :: P.AgreesAt(o.body, outcome.obj.body, path)
              case UpdateCall(o, _, _) =>
                && PathOf(o) in a.observed
                && var before := a.observed[PathOf(o)];
                   && RECOVERY_HOLD !in Finalizers(before)
                   && outcome.obj == before.(finalizers := Some(Finalizers(before) + [RECOVERY_HOLD]),
                                             resourceVersion := outcome.obj.resourceVersion,
                                             managedFields := outcome.obj.managedFields)
              case GuardCall(_) => SystemActive(outcome.obj)
              case _ => false
  {
    var outcome := Perform(rules, a, call).1;
    if call.CreateCall? && outcome.Returned? { P.ContainsIffAgrees(call.obj.body, outcome.obj.body); }
  }

  /** The last request was a write of this kind, with the active system read directly before it and its own record. */
  predicate WroteGuarded(scope: Scope, trace: seq<Event>, verb: Verb) {
    && |trace| > 2 && trace[|trace| - 1].Sent? && trace[|trace| - 1].verb == verb
    && SystemRead(scope, trace[|trace| - 3])
  }

  /** A create is answered only if it was sent directly after the system namespace was read and found active. */
  lemma CreatedIsGuarded(rules: Rules, a: Adapter, guard: Input, input: Input, o: Object)
    ensures var (b, outcome) := Create(rules, a, guard, input, o);
            && (outcome.Returned? || outcome.Exists? ==> WroteGuarded(a.scope, b.trace, POST))
            && (outcome.Exists? ==> Answered(b.trace, AlreadyExists))
  {
    GuardedWriteAnswers(rules, a, guard, input, POST, CollectionPath(o.kind, o.key.ns), Proposal(o));
  }

  /** So was an updated one. */
  lemma UpdatedIsGuarded(rules: Rules, a: Adapter, guard: Input, input: Input, o: Object)
    ensures var (b, outcome) := Update(rules, a, guard, input, o); outcome.Returned? ==>
        WroteGuarded(a.scope, b.trace, PATCH)
  {
    var path := Address(rules, o.kind, o.key);
    if path.Some? && path.value in a.observed {
      GuardedWriteAnswers(rules, a, guard, input, PATCH, path.value, AppendHold(a.observed[path.value]));
    }
  }

  lemma GuardedWriteAnswers(rules: Rules, a: Adapter, guard: Input, input: Input, verb: Verb, path: Path, body: Body)
    ensures var (c, reply) := GuardedWrite(rules, a, guard, input, verb, path, body);
            reply.Some? ==>
              && c.scope == a.scope && |c.trace| > 2 && SystemRead(c.scope, c.trace[|c.trace| - 3])
              && c.trace[|c.trace| - 1] == Sent(verb, path, body, reply.value)
  {
    GuardReads(rules, a, guard);
  }

  /** Over every run: few enough requests, each recorded, permitted and guarded, and none after an unknown outcome. */
  lemma RunsAreSafe(rules: Rules, scope: Scope, maxCalls: nat, calls: seq<Call>)
    ensures var a := PerformAll(rules, NewAdapter(scope, maxCalls), calls);
            && Requests(a.trace) <= maxCalls
            && a.scope == scope && EventsOk(scope, a.trace) && FailStop(a.failed, a.trace)
            && J.Inv(a.journal) && a.journal.lines == LinesOf(rules, a.trace)
  {
    PerformAllKeeps(rules, NewAdapter(scope, maxCalls), calls);
  }

  /** After a failure, calls still end and reports are still written, but no request is sent again. */
  lemma {:induction false} FailureIsFinal(rules: Rules, a: Adapter, calls: seq<Call>)
    requires a.failed
    ensures var b := PerformAll(rules, a, calls);
            && b.failed && b.calls == a.calls && a.trace <= b.trace
            && forall i: nat | |a.trace| <= i < |b.trace| :: !b.trace[i].Sent?
    decreases |calls|
  {
    if calls != [] {
      FailedCall(rules, a, calls[0]);
      FailureIsFinal(rules, Perform(rules, a, calls[0]).0, calls[1..]);
    }
  }

  lemma FailedCall(rules: Rules, a: Adapter, call: Call)
    requires a.failed
    ensures var b := Perform(rules, a, call).0;
            && b.failed && b.calls == a.calls && a.trace <= b.trace
            && forall i: nat | |a.trace| <= i < |b.trace| :: !b.trace[i].Sent?
  {
  }

  /**
   In every run of a pinned invocation a write goes to the epoch's namespace, never the system one, for a path the
   scope names, directly after the system namespace with the pinned UID was found active; collecting never writes.
   */
  lemma WritesArePinned(rules: Rules, systemUid: string, pins: Pins, maxCalls: nat, calls: seq<Call>, i: nat)
    requires NewScope(rules, systemUid, pins).Some? && systemUid != ""
    requires var trace := PerformAll(rules, NewAdapter(NewScope(rules, systemUid, pins).value, maxCalls), calls).trace;
             i < |trace| && trace[i].Sent? && trace[i].verb != GET
    ensures var scope := NewScope(rules, systemUid, pins).value;
            var trace := PerformAll(rules, NewAdapter(scope, maxCalls), calls).trace;
            && pins.Drain? && i > 1
            && trace[i - 2].Sent? && trace[i - 2].reply.Received?
            && trace[i - 2].reply.obj.uid == systemUid && SystemActive(trace[i - 2].reply.obj)
            && (trace[i].verb == POST ==>
                  && trace[i].body.Proposal? && trace[i].body.obj.key.ns == pins.epoch.name != SYSTEM
                  && PathOf(trace[i].body.obj) in scope.targets + scope.attempts)
            && (trace[i].verb == PATCH ==>
                  trace[i].path.ObjectPath? && trace[i].path.key.ns == pins.epoch.name != SYSTEM
                      && trace[i].path in scope.targets)
  {
    var scope := NewScope(rules, systemUid, pins).value;
    RunsAreSafe(rules, scope, maxCalls, calls);
    ScopeIsClosed(rules, systemUid, pins);
    var trace := PerformAll(rules, NewAdapter(scope, maxCalls), calls).trace;
    assert EventOk(scope, trace, i);
    var written := if trace[i].verb == POST then PathOf(trace[i].body.obj) else trace[i].path;
    assert MayWrite(pins, written);
  }

  /** The document is one the client library reads as the object. */
  predicate ReadsAs(doc: P.Json, o: Object) {
    P.Pinned(doc, o.uid, o.resourceVersion) && P.ReadFinalizers(doc) == o.finalizers
  }

  function PatchOf(before: Object): seq<P.Operation> {
    P.AppendOperations(before.uid, before.resourceVersion, before.finalizers, RECOVERY_HOLD)
  }

  /**
   Every patch of every run was built from an object the server returned in that run, and does to the server's
   document nothing at all or the one thing it is for: append the hold to finalizers that lacked it.
   */
  lemma PatchesOnlyHold(rules: Rules, scope: Scope, maxCalls: nat, calls: seq<Call>, i: nat, observed: P.Json,
        current: P.Json)
    requires var trace := PerformAll(rules, NewAdapter(scope, maxCalls), calls).trace;
             && i < |trace| && trace[i].Sent? && trace[i].verb == PATCH
             && (trace[i].body.AppendHold? ==> ReadsAs(observed, trace[i].body.before))
    requires P.Versioned(observed, current)
    ensures var trace := PerformAll(rules, NewAdapter(scope, maxCalls), calls).trace;
            && trace[i].body.AppendHold? && Witnessed(trace[..i], trace[i].body.before)
            && var after := P.Served(current, PatchOf(trace[i].body.before));
               || after == current
               || (&& RECOVERY_HOLD !in P.FinalizerList(current)
                   && P.FinalizerList(after) == P.FinalizerList(current) + [RECOVERY_HOLD]
                   && P.SameElsewhere(current, after))
  {
    RunsAreSafe(rules, scope, maxCalls, calls);
    var trace := PerformAll(rules, NewAdapter(scope, maxCalls), calls).trace;
    assert EventOk(scope, trace, i);
    var before := trace[i].body.before;
    P.AppendsHoldOnce(observed, current, before.uid, before.resourceVersion, RECOVERY_HOLD);
  }

  /**
   The record of every request was a line of the journal before the request was sent, and there are as many lines as
   requests or more.
   */
  lemma {:induction false} RequestsAreJournaled(rules: Rules, trace: seq<Event>, scope: Scope, i: nat)
    requires EventsOk(scope, trace) && i < |trace| && trace[i].Sent?
    ensures Requests(trace) <= |LinesOf(rules, trace)|
    ensures (rules.encode(WireAttempt(trace[i].verb, trace[i].path, trace[i].body)) + [NEWLINE])
            in LinesOf(rules, trace[..i])
  {
    assert EventOk(scope, trace, i);
    assert trace[..i][..i - 1] == trace[..i - 1];
    RequestsHaveLines(rules, trace, scope);
  }

  lemma {:induction false} RequestsHaveLines(rules: Rules, trace: seq<Event>, scope: Scope)
    requires EventsOk(scope, trace)
    ensures Requests(trace) <= |LinesOf(rules, trace)|
    decreases |trace|
  {
    if trace != [] {
      var n := |trace| - 1;
      EventsOkPrefix(scope, trace, n);
      if !trace[n].Sent? {
        RequestsHaveLines(rules, trace[..n], scope);
      } else {
        assert EventOk(scope, trace, n);
        EventsOkPrefix(scope, trace, n - 1);
        assert trace[..n][..n - 1] == trace[..n - 1];
        RequestsHaveLines(rules, trace[..n - 1], scope);
      }
    }
  }

  lemma EventsOkPrefix(scope: Scope, trace: seq<Event>, n: nat)
    requires EventsOk(scope, trace) && n <= |trace|
    ensures EventsOk(scope, trace[..n])
  {
    forall i: nat | i < n ensures EventOk(scope, trace[..n], i) {
      assert EventOk(scope, trace, i);
      assert trace[..n][..i] == trace[..i];
    }
  }
}
