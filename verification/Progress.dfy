/**
 The bounded projection of a BuildKit progress stream: byte and line limits,
 newline splitting, record consumption and the interval map. Decoding JSON,
 trimming white space and hashing identities are parameters (`Env`).
 */
module Progress {
  import opened Options
  import opened Bytes
  import opened Intervals

  const MAX_BYTES := 64 * 1024 * 1024
  const MAX_LINE := 1024 * 1024
  const MAX_EVENTS := 65536
  const MAX_VERTICES := 4096
  const MAX_INTERVALS := 16384

  datatype Instant = Instant(utc: int, zone: int)

  /** An instant with the zone it was written in; a zone offset is less than a day. */
  type Stamp = i: Instant | -DAY_NS < i.zone < DAY_NS witness Instant(0, 0)

  datatype Vertex = Vertex(digest: string, name: string, started: Option<Stamp>, completed: Option<Stamp>, cached: bool)

  datatype StatusRecord = StatusRecord(id: string, vertex: string, started: Option<Stamp>, completed: Option<Stamp>)

  datatype Warning = Warning(short: bytes, detail: seq<bytes>)

  /** A nil list element decodes to None. */
  datatype Event = Event(vertexes: seq<Option<Vertex>>, statuses: seq<Option<StatusRecord>>)

  datatype Diagnostics = Diagnostics(
    logs: seq<Option<bytes>>, warnings: seq<Option<Warning>>, vertexErrors: seq<Option<bytes>>)

  datatype Env = Env(
    trim: bytes -> bytes,
    diagnose: bytes -> Option<Diagnostics>,
    parse: bytes -> Option<Event>,
    digest: string -> nat)

  datatype VertexState = VertexState(isExport: bool, started: bool)

  /** `status` is None for the interval of a vertex, the hashed status id for a push. */
  datatype Key = Key(vertex: nat, status: Option<nat>, start: int)

  datatype Entry = Entry(start: int, end: Option<int>, cached: bool)

  /** The two maps are nil after a refusal; `output` is everything forwarded to the diagnostics sink. */
  datatype Projection = Projection(
    events: nat, reason: string,
    vertices: Option<map<nat, VertexState>>, intervals: Option<map<Key, Entry>>, output: bytes)

  const New := Projection(0, "", Some(map[]), Some(map[]), [])

  // ---------- one record ----------

  function Refuse(p: Projection, reason: string): Projection {
    p.(reason := if p.reason == "" then reason else p.reason, vertices := None, intervals := None)
  }

  function Log(p: Projection, data: bytes): Projection {
    p.(output := p.output + data)
  }

  predicate Live(p: Projection) {
    p.reason == "" && p.vertices.Some? && p.intervals.Some?
  }

  predicate ValidIdentity(value: string) {
    value != "" && |value| <= 256
  }

  predicate BadTimes(start: Stamp, end: Option<Stamp>) {
    || !(YEAR_2000 <= start.utc + start.zone < YEAR_2201)
    || (end.Some? && (end.value.utc < start.utc || end.value.utc - start.utc > MAX_NS))
  }

  function MakeEntry(start: Stamp, end: Option<Stamp>, cached: bool): Entry {
    Entry(start.utc, if end.Some? then Some(end.value.utc) else None, cached)
  }

  /** The result is live exactly when addInterval would return true. */
  function AddInterval(p: Projection, vertex: nat, status: Option<nat>,
                       start: Option<Stamp>, end: Option<Stamp>, cached: bool): Projection
    requires Live(p)
  {
    if start.None? then
      if end.Some? then Refuse(p, "malformed_stream") else p
    else if BadTimes(start.value, end) then Refuse(p, "malformed_stream")
    else
      var key := Key(vertex, status, start.value.utc);
      var known := p.intervals.value;
      if key !in known && |known| == MAX_INTERVALS then Refuse(p, "limit_exceeded")
      else if key in known && known[key].end.Some?
              && (end.None? || known[key].end.value != end.value.utc || known[key].cached != cached)
      then Refuse(p, "malformed_stream")
      else p.(intervals := Some(known[key := MakeEntry(start.value, end, cached)]))
  }

  function AddVertex(env: Env, p: Projection, vertex: Option<Vertex>): Projection
    requires Live(p)
  {
    if vertex.None? || !ValidIdentity(vertex.value.digest) then Refuse(p, "malformed_stream")
    else
      var v := vertex.value;
      var id := env.digest(v.digest);
      var known := p.vertices.value;
      var isExport := v.name == "exporting to image";
      if id in known && known[id].isExport != isExport then Refuse(p, "malformed_stream")
      else if id !in known && |known| == MAX_VERTICES then Refuse(p, "limit_exceeded")
      else
        var started := (id in known && known[id].started) || v.started.Some?;
        AddInterval(p.(vertices := Some(known[id := VertexState(isExport, started)])), id, None, v.started,
            v.completed, v.cached)
  }

  function AddVertices(env: Env, p: Projection, vs: seq<Option<Vertex>>): Projection
    requires Live(p)
    decreases |vs|
  {
    if vs == [] then p
    else
      var q := AddVertex(env, p, vs[0]);
      if Live(q) then AddVertices(env, q, vs[1..]) else q
  }

  const PUSH_MANIFEST := "pushing manifest for "

  predicate IsPush(id: string) {
    id == "pushing layers" || (PUSH_MANIFEST <= id && |id| > |PUSH_MANIFEST|)
  }

  function AddStatus(env: Env, p: Projection, status: Option<StatusRecord>): Projection
    requires Live(p)
  {
    if status.None? || !ValidIdentity(status.value.vertex) || status.value.id == "" || |status.value.id| > 8192
    then Refuse(p, "malformed_stream")
    else if !IsPush(status.value.id) then p
    else
      var s := status.value;
      AddInterval(p, env.digest(s.vertex), Some(env.digest(s.id)), s.started, s.completed, false)
  }

  function AddStatuses(env: Env, p: Projection, ss: seq<Option<StatusRecord>>): Projection
    requires Live(p)
    decreases |ss|
  {
    if ss == [] then p
    else
      var q := AddStatus(env, p, ss[0]);
      if Live(q) then AddStatuses(env, q, ss[1..]) else q
  }

  function AddEvent(env: Env, p: Projection, event: Event): Projection
    requires Live(p)
  {
    var q := AddVertices(env, p, event.vertexes);
    if Live(q) then AddStatuses(env, q, event.statuses) else q
  }

  function LogAll(p: Projection, logs: seq<Option<bytes>>): Projection
    decreases |logs|
  {
    if logs == [] then p
    else LogAll(if logs[0].None? then Refuse(p, "malformed_stream") else Log(p, logs[0].value), logs[1..])
  }

  function LogLines(p: Projection, lines: seq<bytes>): Projection
    decreases |lines|
  {
    if lines == [] then p else LogLines(Log(Log(p, lines[0]), [NEWLINE]), lines[1..])
  }

  function LogWarnings(p: Projection, warnings: seq<Option<Warning>>): Projection
    decreases |warnings|
  {
    if warnings == [] then p
    else
      var w := warnings[0];
      LogWarnings(if w.None? then Refuse(p, "malformed_stream") else LogLines(p, [w.value.short] + w.value.detail),
          warnings[1..])
  }

  function LogErrors(p: Projection, errors: seq<Option<bytes>>): Projection
    decreases |errors|
  {
    if errors == [] then p
    else LogErrors(if errors[0].None? || errors[0].value == [] then p else LogLines(p, [errors[0].value]), errors[1..])
  }

  function LogDiagnostics(p: Projection, d: Diagnostics): Projection {
    LogErrors(LogWarnings(LogAll(p, d.logs), d.warnings), d.vertexErrors)
  }

  const EVENT_LIMIT_NOTE := "[build observation event limit reached; diagnostics continue]\n"
  const MALFORMED_NOTE := "[malformed build progress record discarded]\n"
  const OVERSIZE_NOTE := "[oversize build progress line discarded]\n"
  const BYTE_LIMIT_NOTE := "[build observation byte limit reached; diagnostics continue]\n"
  const OPEN_BRACE: byte := 123

  function CountEvent(p: Projection): Projection {
    var q := if p.events <= MAX_EVENTS then p.(events := p.events + 1) else p;
    if q.events > MAX_EVENTS && q.reason == "" then Log(Refuse(q, "limit_exceeded"), Ascii(EVENT_LIMIT_NOTE)) else q
  }

  function ConsumeLine(env: Env, p: Projection, line: bytes): Projection
    requires p.reason == "" ==> Live(p)
  {
    var trimmed := env.trim(line);
    if trimmed == [] then p
    else
      var q := CountEvent(p);
      if trimmed[0] != OPEN_BRACE then Log(Log(Refuse(q, "malformed_stream"), line), [NEWLINE])
      else if env.diagnose(trimmed).None? then Log(Refuse(q, "malformed_stream"), Ascii(MALFORMED_NOTE))
      else
        var d := LogDiagnostics(q, env.diagnose(trimmed).value);
        DiagnosticsKeepMaps(q, env.diagnose(trimmed).value);
        if d.reason != "" then d
        else if env.parse(trimmed).None? then Refuse(d, "malformed_stream")
        else AddEvent(env, d, env.parse(trimmed).value)
  }

  // ---------- the invariant ----------

  ghost predicate EntryOk(key: Key, entry: Entry) {
    && key.start == entry.start
    && WINDOW_START <= entry.start
    && entry.start <= YEAR_2201 + DAY_NS
    && (entry.end.Some? ==> entry.start <= entry.end.value <= entry.start + MAX_NS)
  }

  ghost predicate HasInterval(intervals: map<Key, Entry>, vertex: nat) {
    exists start :: Key(vertex, None, start) in intervals
  }

  ghost predicate MapsOk(vertices: map<nat, VertexState>, intervals: map<Key, Entry>) {
    && |vertices| <= MAX_VERTICES
    && |intervals| <= MAX_INTERVALS
    && (forall k <- intervals :: EntryOk(k, intervals[k]))
    && (forall v <- vertices :: vertices[v].started ==> HasInterval(intervals, v))
  }

  /** Maps are nil exactly after a refusal, and live maps satisfy the bounds finish relies on. */
  ghost predicate Inv(p: Projection) {
    && (p.reason == "" <==> p.vertices.Some?)
    && (p.reason == "" <==> p.intervals.Some?)
    && (p.reason == "" ==> MapsOk(p.vertices.value, p.intervals.value))
    && p.events <= MAX_EVENTS + 1
    && (p.reason != "" ==> p.reason in {"malformed_stream", "limit_exceeded", "partial_stream"})
  }

  /** Only the diagnostics output and a possible refusal may differ. */
  ghost predicate OnlyLogged(p: Projection, q: Projection) {
    || q == p.(output := q.output)
    || q == Refuse(p, "malformed_stream").(output := q.output)
  }

  lemma {:induction false} LogLinesKeep(p: Projection, lines: seq<bytes>)
    ensures LogLines(p, lines) == p.(output := LogLines(p, lines).output)
    decreases |lines|
  {
    if lines != [] {
      LogLinesKeep(Log(Log(p, lines[0]), [NEWLINE]), lines[1..]);
    }
  }

  lemma {:induction false} LogAllKeep(p: Projection, logs: seq<Option<bytes>>)
    ensures OnlyLogged(p, LogAll(p, logs))
    decreases |logs|
  {
    if logs != [] {
      LogAllKeep(if logs[0].None? then Refuse(p, "malformed_stream") else Log(p, logs[0].value), logs[1..]);
    }
  }

  lemma {:induction false} LogWarningsKeep(p: Projection, warnings: seq<Option<Warning>>)
    ensures OnlyLogged(p, LogWarnings(p, warnings))
    decreases |warnings|
  {
    if warnings != [] {
      var w := warnings[0];
      var q := if w.None? then Refuse(p, "malformed_stream") else LogLines(p, [w.value.short] + w.value.detail);
      if w.Some? { LogLinesKeep(p, [w.value.short] + w.value.detail); }
      LogWarningsKeep(q, warnings[1..]);
    }
  }

  lemma {:induction false} LogErrorsKeep(p: Projection, errors: seq<Option<bytes>>)
    ensures LogErrors(p, errors) == p.(output := LogErrors(p, errors).output)
    decreases |errors|
  {
    if errors != [] {
      if errors[0].Some? { LogLinesKeep(p, [errors[0].value]); }
      LogErrorsKeep(if errors[0].None? || errors[0].value == [] then p else LogLines(p, [errors[0].value]),
          errors[1..]);
    }
  }

  lemma DiagnosticsKeepMaps(p: Projection, d: Diagnostics)
    ensures OnlyLogged(p, LogDiagnostics(p, d))
  {
    LogAllKeep(p, d.logs);
    LogWarningsKeep(LogAll(p, d.logs), d.warnings);
    LogErrorsKeep(LogWarnings(LogAll(p, d.logs), d.warnings), d.vertexErrors);
  }

  // ---------- what every record keeps ----------

  /**
   An interval is taken exactly when it has acceptable times, or none at all, and is either new with room for it or
   does not contradict an end already known. It is then recorded with the given end and flag and nothing else changes.
   */
  lemma AddIntervalMeans(p: Projection, vertex: nat, status: Option<nat>,
                         start: Option<Stamp>, end: Option<Stamp>, cached: bool)
    requires Live(p)
    ensures var q, known := AddInterval(p, vertex, status, start, end, cached), p.intervals.value;
            if start.None? then (Live(q) <==> end.None?) && (Live(q) ==> q == p)
            else
              var key := Key(vertex, status, start.value.utc);
              var over := if end.Some? then Some(end.value.utc) else None;
              && (Live(q) <==>
                    && YEAR_2000 <= start.value.utc + start.value.zone < YEAR_2201
                    && (end.Some? ==> start.value.utc <= end.value.utc <= start.value.utc + MAX_NS)
                    && (if key !in known then |known| != MAX_INTERVALS
                        else known[key].end.Some? ==> known[key] == Entry(known[key].start, over, cached)))
              && (Live(q) ==> q == p.(intervals := Some(known[key := Entry(start.value.utc, over, cached)])))
  {
  }

  lemma AddIntervalKeeps(p: Projection, vertex: nat, status: Option<nat>,
                         start: Option<Stamp>, end: Option<Stamp>, cached: bool)
    requires Live(p)
    requires |p.vertices.value| <= MAX_VERTICES && |p.intervals.value| <= MAX_INTERVALS
    requires forall k <- p.intervals.value :: EntryOk(k, p.intervals.value[k])
    ensures var q := AddInterval(p, vertex, status, start, end, cached);
            Live(q) ==>
              && q == p.(intervals := q.intervals)
              && |q.intervals.value| <= MAX_INTERVALS
              && (forall k <- q.intervals.value :: EntryOk(k, q.intervals.value[k]))
              && p.intervals.value.Keys <= q.intervals.value.Keys
              && (start.Some? ==> Key(vertex, status, start.value.utc) in q.intervals.value)
  {
  }

  ghost predicate LiveOrRefused(p: Projection, q: Projection) {
    && q.events == p.events && q.output == p.output
    && if q.reason == "" then Live(q) && MapsOk(q.vertices.value, q.intervals.value)
       else q.vertices.None? && q.intervals.None? && q.reason in {"malformed_stream", "limit_exceeded"}
  }

  lemma IntervalsGrow(a: map<Key, Entry>, b: map<Key, Entry>)
    requires a.Keys <= b.Keys
    ensures forall v | HasInterval(a, v) :: HasInterval(b, v)
  {
    forall v | HasInterval(a, v) ensures HasInterval(b, v) {
      var start :| Key(v, None, start) in a;
      assert Key(v, None, start) in b;
    }
  }

  /** Adding one vertex and letting the intervals grow keeps the map invariants. */
  lemma VertexMapsKeep(known: map<nat, VertexState>, a: map<Key, Entry>, id: nat, state: VertexState,
        b: map<Key, Entry>)
    requires MapsOk(known, a) && a.Keys <= b.Keys && |b| <= MAX_INTERVALS
    requires (forall k <- b :: EntryOk(k, b[k])) && (id in known || |known| < MAX_VERTICES)
    requires state.started ==> (id in known && known[id].started) || HasInterval(b, id)
    ensures MapsOk(known[id := state], b)
  {
    IntervalsGrow(a, b);
    assert known[id := state].Keys == known.Keys + {id};
  }

  lemma AddVertexKeeps(env: Env, p: Projection, vertex: Option<Vertex>)
    requires Live(p) && MapsOk(p.vertices.value, p.intervals.value)
    ensures LiveOrRefused(p, AddVertex(env, p, vertex))
  {
    var q := AddVertex(env, p, vertex);
    if Live(q) {
      var v := vertex.value;
      var id := env.digest(v.digest);
      var known := p.vertices.value;
      var state := VertexState(v.name == "exporting to image", (id in known && known[id].started) || v.started.Some?);
      var mid := p.(vertices := Some(known[id := state]));
      assert |known[id := state]| <= MAX_VERTICES by { assert known[id := state].Keys == known.Keys + {id}; }
      AddIntervalKeeps(mid, id, None, v.started, v.completed, v.cached);
      if v.started.Some? { assert HasInterval(q.intervals.value, id); }
      VertexMapsKeep(known, p.intervals.value, id, state, q.intervals.value);
    }
  }

  lemma AddStatusKeeps(env: Env, p: Projection, status: Option<StatusRecord>)
    requires Live(p) && MapsOk(p.vertices.value, p.intervals.value)
    ensures LiveOrRefused(p, AddStatus(env, p, status))
  {
    var q := AddStatus(env, p, status);
    if Live(q) && IsPush(status.value.id) {
      var s := status.value;
      AddIntervalKeeps(p, env.digest(s.vertex), Some(env.digest(s.id)), s.started, s.completed, false);
      IntervalsGrow(p.intervals.value, q.intervals.value);
    }
  }

  lemma {:induction false} AddVerticesKeep(env: Env, p: Projection, vs: seq<Option<Vertex>>)
    requires Live(p) && MapsOk(p.vertices.value, p.intervals.value)
    ensures LiveOrRefused(p, AddVertices(env, p, vs))
    decreases |vs|
  {
    if vs != [] {
      AddVertexKeeps(env, p, vs[0]);
      var q := AddVertex(env, p, vs[0]);
      if Live(q) { AddVerticesKeep(env, q, vs[1..]); }
    }
  }

  lemma {:induction false} AddStatusesKeep(env: Env, p: Projection, ss: seq<Option<StatusRecord>>)
    requires Live(p) && MapsOk(p.vertices.value, p.intervals.value)
    ensures LiveOrRefused(p, AddStatuses(env, p, ss))
    decreases |ss|
  {
    if ss != [] {
      AddStatusKeeps(env, p, ss[0]);
      var q := AddStatus(env, p, ss[0]);
      if Live(q) { AddStatusesKeep(env, q, ss[1..]); }
    }
  }

  lemma AddEventKeeps(env: Env, p: Projection, event: Event)
    requires Live(p) && MapsOk(p.vertices.value, p.intervals.value)
    ensures LiveOrRefused(p, AddEvent(env, p, event))
  {
    AddVerticesKeep(env, p, event.vertexes);
    var q := AddVertices(env, p, event.vertexes);
    if Live(q) { AddStatusesKeep(env, q, event.statuses); }
  }

  /** Consuming a record keeps the invariant and a refusal already made. */
  lemma ConsumeKeeps(env: Env, p: Projection, line: bytes)
    requires Inv(p)
    ensures var q := ConsumeLine(env, p, line);
            && Inv(q)
            && (p.reason != "" ==> q.reason == p.reason)
  {
    var trimmed := env.trim(line);
    if trimmed != [] && trimmed[0] == OPEN_BRACE && env.diagnose(trimmed).Some? {
      var q := CountEvent(p);
      var d := LogDiagnostics(q, env.diagnose(trimmed).value);
      DiagnosticsKeepMaps(q, env.diagnose(trimmed).value);
      assert Inv(d);
      if d.reason == "" && env.parse(trimmed).Some? {
        AddEventKeeps(env, d, env.parse(trimmed).value);
      }
    }
  }

  // ---------- the stream ----------

  /** A projection with the line being assembled; `discardLine` skips the rest of an oversize line. */
  datatype Framed = Framed(line: bytes, discardLine: bool, p: Projection)

  ghost predicate FramedInv(f: Framed) {
    Inv(f.p) && |f.line| <= MAX_LINE && (f.discardLine ==> f.line == [] && f.p.reason != "")
  }

  function NoteOversize(p: Projection): Projection {
    Log(Refuse(p, "limit_exceeded"), Ascii(OVERSIZE_NOTE))
  }

  /** The meaning of one byte of the stream. */
  function WriteByte(env: Env, f: Framed, b: byte): (g: Framed)
    requires FramedInv(f)
    ensures FramedInv(g)
    ensures f.p.reason != "" ==> g.p.reason == f.p.reason
  {
    if b == NEWLINE then
      ConsumeKeeps(env, f.p, f.line);
      Framed([], false, if f.discardLine then f.p else ConsumeLine(env, f.p, f.line))
    else if f.discardLine then f
    else if |f.line| + 1 > MAX_LINE then Framed([], true, NoteOversize(f.p))
    else f.(line := f.line + [b])
  }

  function Feed(env: Env, f: Framed, data: bytes): (g: Framed)
    requires FramedInv(f)
    ensures FramedInv(g)
    ensures f.p.reason != "" ==> g.p.reason == f.p.reason
    decreases |data|
  {
    if data == [] then f else Feed(env, WriteByte(env, f, data[0]), data[1..])
  }

  /** A framed projection with the byte count charged so far. */
  datatype Stream = Stream(received: nat, f: Framed)

  const NewFramed := Framed([], false, New)
  const NewStream := Stream(0, NewFramed)

  ghost predicate StreamInv(s: Stream) {
    FramedInv(s.f) && s.received <= MAX_BYTES + 1 && (s.received > MAX_BYTES ==> s.f.p.reason != "")
  }

  /** The byte budget of the whole stream, charged per Write call. */
  function Account(s: Stream, n: nat): Stream {
    if s.received > MAX_BYTES then s
    else if s.received + n > MAX_BYTES then
      Stream(MAX_BYTES + 1, s.f.(p := Log(Refuse(s.f.p, "limit_exceeded"), Ascii(BYTE_LIMIT_NOTE))))
    else Stream(s.received + n, s.f)
  }

  function WriteChunk(env: Env, s: Stream, data: bytes): (r: Stream)
    requires StreamInv(s)
    ensures StreamInv(r)
  {
    var charged := Account(s, |data|);
    Stream(charged.received, Feed(env, charged.f, data))
  }

  function WriteAll(env: Env, s: Stream, chunks: seq<bytes>): (r: Stream)
    requires StreamInv(s)
    ensures StreamInv(r)
    decreases |chunks|
  {
    if chunks == [] then s else WriteAll(env, WriteChunk(env, s, chunks[0]), chunks[1..])
  }

  lemma {:induction false} FeedAppend(env: Env, f: Framed, a: bytes, b: bytes)
    requires FramedInv(f)
    ensures Feed(env, f, a + b) == Feed(env, Feed(env, f, a), b)
    decreases |a|
  {
    if a == [] {
      assert a + b == b;
    } else {
      assert (a + b)[1..] == a[1..] + b;
      FeedAppend(env, WriteByte(env, f, a[0]), a[1..], b);
    }
  }

  /** While the stream fits the budget, only the concatenation of the writes matters. */
  lemma {:induction false} ChunksDoNotMatter(env: Env, s: Stream, chunks: seq<bytes>)
    requires StreamInv(s) && s.received + |Concat(chunks)| <= MAX_BYTES
    ensures WriteAll(env, s, chunks) == Stream(s.received + |Concat(chunks)|, Feed(env, s.f, Concat(chunks)))
    decreases |chunks|
  {
    if chunks != [] {
      ChunksDoNotMatter(env, WriteChunk(env, s, chunks[0]), chunks[1..]);
      FeedAppend(env, s.f, chunks[0], Concat(chunks[1..]));
    }
  }

  lemma {:induction false} WriteAllAppend(env: Env, s: Stream, a: seq<bytes>, b: seq<bytes>)
    requires StreamInv(s)
    ensures WriteAll(env, s, a + b) == WriteAll(env, WriteAll(env, s, a), b)
    decreases |a|
  {
    if a == [] {
      assert a + b == b;
    } else {
      assert (a + b)[1..] == a[1..] + b;
      WriteAllAppend(env, WriteChunk(env, s, a[0]), a[1..], b);
    }
  }

  /** The write that exceeds the budget refuses the stream for that, unless something earlier already did. */
  lemma OverBudgetReason(env: Env, a: seq<bytes>, chunk: bytes, b: seq<bytes>)
    requires |Concat(a)| <= MAX_BYTES < |Concat(a)| + |chunk|
    ensures var before := WriteAll(env, NewStream, a).f.p.reason;
            WriteAll(env, NewStream, a + [chunk] + b).f.p.reason == if before != "" then before else "limit_exceeded"
  {
    var s := WriteAll(env, NewStream, a);
    ChunksDoNotMatter(env, NewStream, a);
    var more := [chunk] + b;
    assert a + [chunk] + b == a + more && more[1..] == b;
    WriteAllAppend(env, NewStream, a, more);
    RefusalStays(env, WriteChunk(env, s, chunk), b);
  }

  /** Beyond the budget every way of cutting the stream is refused. */
  lemma {:induction false} OverBudgetRefused(env: Env, s: Stream, chunks: seq<bytes>)
    requires StreamInv(s) && s.received + |Concat(chunks)| > MAX_BYTES
    ensures WriteAll(env, s, chunks).f.p.reason != ""
    decreases |chunks|
  {
    if chunks != [] {
      var r := WriteChunk(env, s, chunks[0]);
      if r.received > MAX_BYTES {
        RefusalStays(env, r, chunks[1..]);
      } else {
        OverBudgetRefused(env, r, chunks[1..]);
      }
    }
  }

  lemma {:induction false} RefusalStays(env: Env, s: Stream, chunks: seq<bytes>)
    requires StreamInv(s) && s.f.p.reason != ""
    ensures WriteAll(env, s, chunks).f.p.reason == s.f.p.reason
    decreases |chunks|
  {
    if chunks != [] {
      RefusalStays(env, WriteChunk(env, s, chunks[0]), chunks[1..]);
    }
  }

  // ---------- the newline-splitting reference ----------

  function LineEnd(data: bytes): (n: nat)
    ensures n <= |data|
    ensures forall i :: 0 <= i < n ==> data[i] != NEWLINE
    ensures n < |data| ==> data[n] == NEWLINE
  {
    if data == [] || data[0] == NEWLINE then 0 else 1 + LineEnd(data[1..])
  }

  /** A complete line: too long is noted and dropped, otherwise it is one record. */
  function WholeLine(env: Env, p: Projection, line: bytes): (q: Projection)
    requires Inv(p)
    ensures Inv(q)
  {
    ConsumeKeeps(env, p, line);
    if |line| > MAX_LINE then NoteOversize(p) else ConsumeLine(env, p, line)
  }

  /** Split at newlines first and treat each line on its own; the text after the last one stays pending. */
  function Reference(env: Env, p: Projection, data: bytes): Framed
    requires Inv(p)
    decreases |data|
  {
    var n := LineEnd(data);
    if n < |data| then Reference(env, WholeLine(env, p, data[..n]), data[n + 1..])
    else if n > MAX_LINE then Framed([], true, NoteOversize(p))
    else Framed(data, false, p)
  }

  /** A stretch without newlines either fits the pending line or makes it oversize, at once or piecemeal. */
  lemma {:induction false} FeedPart(env: Env, f: Framed, part: bytes)
    requires FramedInv(f) && forall i :: 0 <= i < |part| ==> part[i] != NEWLINE
    ensures Feed(env, f, part) ==
            if f.discardLine then f
            else if |f.line| + |part| > MAX_LINE then Framed([], true, NoteOversize(f.p))
            else f.(line := f.line + part)
    decreases |part|
  {
    if part == [] {
      assert f.line + part == f.line;
    } else {
      FeedPart(env, WriteByte(env, f, part[0]), part[1..]);
      assert f.line + part == f.line + [part[0]] + part[1..];
    }
  }

  lemma FeedLine(env: Env, p: Projection, part: bytes, rest: bytes)
    requires Inv(p) && forall i :: 0 <= i < |part| ==> part[i] != NEWLINE
    ensures Feed(env, Framed([], false, p), part + [NEWLINE] + rest)
            == Feed(env, Framed([], false, WholeLine(env, p, part)), rest)
  {
    var f := Framed([], false, p);
    var tail := [NEWLINE] + rest;
    assert part + [NEWLINE] + rest == part + tail;
    FeedAppend(env, f, part, tail);
    FeedPart(env, f, part);
    assert [] + part == part;
    assert tail[1..] == rest;
  }

  lemma {:induction false} FeedIsReference(env: Env, p: Projection, data: bytes)
    requires Inv(p)
    ensures Feed(env, Framed([], false, p), data) == Reference(env, p, data)
    decreases |data|
  {
    var n := LineEnd(data);
    var part := data[..n];
    if n == |data| {
      assert part == data && [] + data == data;
      FeedPart(env, Framed([], false, p), part);
    } else {
      var rest := data[n + 1..];
      assert data == part + [NEWLINE] + rest;
      FeedLine(env, p, part, rest);
      FeedIsReference(env, WholeLine(env, p, part), rest);
    }
  }

  /** The projection of a whole stream that fits the budget is the newline-splitting reference. */
  lemma StreamMeaning(env: Env, chunks: seq<bytes>)
    requires |Concat(chunks)| <= MAX_BYTES
    ensures WriteAll(env, NewStream, chunks) == Stream(|Concat(chunks)|, Reference(env, New, Concat(chunks)))
  {
    ChunksDoNotMatter(env, NewStream, chunks);
    FeedIsReference(env, New, Concat(chunks));
  }
}
