/**
 The projection object that a build command's stderr is written to. Its
 methods update the fields step by step, as the writer does, and are proved
 against the functions of `Progress` and `Observations`.
 */
module ProgressObject {
  import opened Options
  import opened Bytes
  import opened Intervals
  import opened Progress
  import opened Observations
  import R = ProgressReports

  class ProgressProjection {
    const env: Env
    var line: bytes
    var discardLine: bool
    var received: nat
    var events: nat
    var reason: string
    var vertices: Option<map<nat, VertexState>>
    var intervals: Option<map<Key, Entry>>
    var output: bytes

    ghost function View(): Projection
      reads this
    {
      Projection(events, reason, vertices, intervals, output)
    }

    ghost function FramedView(): Framed
      reads this
    {
      Framed(line, discardLine, View())
    }

    ghost function StreamView(): Stream
      reads this
    {
      Stream(received, FramedView())
    }

    constructor (env: Env)
      ensures StreamView() == NewStream && this.env == env
    {
      this.env := env;
      line, discardLine, received, events, reason := [], false, 0, 0, "";
      vertices, intervals, output := Some(map[]), Some(map[]), [];
    }

    method RefuseStream(why: string)
      modifies this`reason, this`vertices, this`intervals
      ensures View() == Refuse(old(View()), why)
    {
      if reason == "" {
        reason := why;
      }
      vertices := None;
      intervals := None;
    }

    method WriteLog(data: bytes)
      modifies this`output
      ensures View() == Log(old(View()), data)
    {
      output := output + data;
    }

    method WriteLogLine(data: bytes)
      modifies this`output
      ensures View() == LogLines(old(View()), [data])
    {
      WriteLog(data);
      WriteLog([NEWLINE]);
      assert [data][1..] == [];
    }

    method RecordInterval(vertex: nat, status: Option<nat>, start: Option<Stamp>, end: Option<Stamp>, cached: bool)
      returns (ok: bool)
      requires Live(View())
      modifies this`reason, this`vertices, this`intervals
      ensures View() == AddInterval(old(View()), vertex, status, start, end, cached)
      ensures ok == Live(View())
      ensures ok && start.Some? ==>
                intervals == Some(old(intervals).value[Key(vertex, status, start.value.utc) :=
                    Entry(start.value.utc, if end.Some? then Some(end.value.utc) else None, cached)])
    {
      AddIntervalMeans(View(), vertex, status, start, end, cached);
      if start.None? {
        if end.Some? {
          RefuseStream("malformed_stream");
          return false;
        }
        return true;
      }
      if BadTimes(start.value, end) {
        RefuseStream("malformed_stream");
        return false;
      }
      var key := Key(vertex, status, start.value.utc);
      var exists_ := key in intervals.value;
      if !exists_ && |intervals.value| == MAX_INTERVALS {
        RefuseStream("limit_exceeded");
        return false;
      }
      if exists_ {
        var known := intervals.value[key];
        if known.end.Some? && (end.None? || known.end.value != end.value.utc || known.cached != cached) {
          RefuseStream("malformed_stream");
          return false;
        }
      }
      intervals := Some(intervals.value[key := MakeEntry(start.value, end, cached)]);
      ok := true;
    }

    method RecordVertex(vertex: Option<Vertex>) returns (ok: bool)
      requires Live(View())
      modifies this`reason, this`vertices, this`intervals
      ensures View() == AddVertex(env, old(View()), vertex)
      ensures ok == Live(View())
    {
      if vertex.None? || !ValidIdentity(vertex.value.digest) {
        RefuseStream("malformed_stream");
        return false;
      }
      var v := vertex.value;
      var id := env.digest(v.digest);
      var isExport := v.name == "exporting to image";
      var started := v.started.Some?;
      if id in vertices.value {
        if vertices.value[id].isExport != isExport {
          RefuseStream("malformed_stream");
          return false;
        }
        started := vertices.value[id].started || started;
      } else if |vertices.value| == MAX_VERTICES {
        RefuseStream("limit_exceeded");
        return false;
      }
      vertices := Some(vertices.value[id := VertexState(isExport, started)]);
      ok := RecordInterval(id, None, v.started, v.completed, v.cached);
    }

    method RecordStatus(status: Option<StatusRecord>) returns (ok: bool)
      requires Live(View())
      modifies this`reason, this`vertices, this`intervals
      ensures View() == AddStatus(env, old(View()), status)
      ensures ok == Live(View())
    {
      if status.None? || !ValidIdentity(status.value.vertex) || status.value.id == "" || |status.value.id| > 8192 {
        RefuseStream("malformed_stream");
        return false;
      }
      var s := status.value;
      if !IsPush(s.id) {
        return true;
      }
      ok := RecordInterval(env.digest(s.vertex), Some(env.digest(s.id)), s.started, s.completed, false);
    }

    /**
     Whatever reports the maps held, the event adds its own: the stream is refused for the first fault among them, or
     stays live exactly when all reports together are sound, and the maps then hold all of them.
     */
    method RecordEvent(event: Event)
      requires Live(View())
      modifies this`reason, this`vertices, this`intervals
      ensures View() == AddEvent(env, old(View()), event)
      ensures forall rs: seq<R.Report> | R.Sound(rs) && R.Holds(R.MapsOf(old(View())), rs) ::
                var more := R.EventReports(env, event);
                && reason == R.FirstFault(rs, more)
                && (Live(View()) <==> R.Sound(rs + more))
                && (Live(View()) ==> R.Holds(R.MapsOf(View()), rs + more))
    {
      EventMeans(event);
      RecordAll(event);
    }

    /** What `RecordEvent` promises, said of the event that is about to be recorded. */
    lemma EventMeans(event: Event)
      requires Live(View())
      ensures forall rs: seq<R.Report> | R.Sound(rs) && R.Holds(R.MapsOf(View()), rs) ::
                var q, more := AddEvent(env, View(), event), R.EventReports(env, event);
                && q.reason == R.FirstFault(rs, more)
                && (Live(q) <==> R.Sound(rs + more))
                && (Live(q) ==> R.Holds(R.MapsOf(q), rs + more))
    {
      forall rs: seq<R.Report> | R.Sound(rs) && R.Holds(R.MapsOf(View()), rs)
        ensures var q, more := AddEvent(env, View(), event), R.EventReports(env, event);
                && q.reason == R.FirstFault(rs, more)
                && (Live(q) <==> R.Sound(rs + more))
                && (Live(q) ==> R.Holds(R.MapsOf(q), rs + more))
      {
        R.EventHeld(env, View(), event, rs);
      }
    }

    method RecordAll(event: Event)
      requires Live(View())
      modifies this`reason, this`vertices, this`intervals
      ensures View() == AddEvent(env, old(View()), event)
    {
      ghost var start := View();
      for i := 0 to |event.vertexes|
        invariant Live(View())
        invariant AddVertices(env, start, event.vertexes) == AddVertices(env, View(), event.vertexes[i..])
      {
        assert event.vertexes[i..][1..] == event.vertexes[i + 1..];
        var ok := RecordVertex(event.vertexes[i]);
        if !ok {
          return;
        }
      }
      ghost var mid := View();
      for i := 0 to |event.statuses|
        invariant Live(View())
        invariant AddStatuses(env, mid, event.statuses) == AddStatuses(env, View(), event.statuses[i..])
      {
        assert event.statuses[i..][1..] == event.statuses[i + 1..];
        var ok := RecordStatus(event.statuses[i]);
        if !ok {
          return;
        }
      }
    }

    method ForwardDiagnostics(d: Diagnostics)
      modifies this`reason, this`vertices, this`intervals, this`output
      ensures View() == LogDiagnostics(old(View()), d)
    {
      ghost var start := View();
      for i := 0 to |d.logs|
        invariant LogAll(start, d.logs) == LogAll(View(), d.logs[i..])
      {
        assert d.logs[i..][1..] == d.logs[i + 1..];
        if d.logs[i].None? {
          RefuseStream("malformed_stream");
        } else {
          WriteLog(d.logs[i].value);
        }
      }
      ForwardWarnings(d.warnings);
      ghost var warned := View();
      for i := 0 to |d.vertexErrors|
        invariant LogErrors(warned, d.vertexErrors) == LogErrors(View(), d.vertexErrors[i..])
      {
        assert d.vertexErrors[i..][1..] == d.vertexErrors[i + 1..];
        if d.vertexErrors[i].Some? && d.vertexErrors[i].value != [] {
          WriteLogLine(d.vertexErrors[i].value);
        }
      }
    }

    method ForwardWarnings(warnings: seq<Option<Warning>>)
      modifies this`reason, this`vertices, this`intervals, this`output
      ensures View() == LogWarnings(old(View()), warnings)
    {
      ghost var start := View();
      for i := 0 to |warnings|
        invariant LogWarnings(start, warnings) == LogWarnings(View(), warnings[i..])
      {
        assert warnings[i..][1..] == warnings[i + 1..];
        if warnings[i].None? {
          RefuseStream("malformed_stream");
        } else {
          ForwardWarning(warnings[i].value);
        }
      }
    }

    method ForwardWarning(w: Warning)
      modifies this`output
      ensures View() == LogLines(old(View()), [w.short] + w.detail)
    {
      ghost var all := [w.short] + w.detail;
      ghost var start := View();
      WriteLog(w.short);
      WriteLog([NEWLINE]);
      assert all[1..] == w.detail;
      for i := 0 to |w.detail|
        invariant LogLines(start, all) == LogLines(View(), w.detail[i..])
      {
        assert w.detail[i..][1..] == w.detail[i + 1..];
        WriteLog(w.detail[i]);
        WriteLog([NEWLINE]);
      }
    }

    method Consume(text: bytes)
      requires Inv(View())
      modifies this`events, this`reason, this`vertices, this`intervals, this`output
      ensures View() == ConsumeLine(env, old(View()), text)
    {
      var trimmed := env.trim(text);
      if trimmed == [] {
        return;
      }
      if events <= MAX_EVENTS {
        events := events + 1;
      }
      if events > MAX_EVENTS && reason == "" {
        RefuseStream("limit_exceeded");
        WriteLog(Ascii(EVENT_LIMIT_NOTE));
      }
      if trimmed[0] != OPEN_BRACE {
        RefuseStream("malformed_stream");
        WriteLog(text);
        WriteLog([NEWLINE]);
        return;
      }
      var diagnostics := env.diagnose(trimmed);
      if diagnostics.None? {
        RefuseStream("malformed_stream");
        WriteLog(Ascii(MALFORMED_NOTE));
        return;
      }
      ghost var counted := View();
      ForwardDiagnostics(diagnostics.value);
      DiagnosticsKeepMaps(counted, diagnostics.value);
      if reason != "" {
        return;
      }
      var event := env.parse(trimmed);
      if event.None? {
        RefuseStream("malformed_stream");
        return;
      }
      RecordEvent(event.value);
    }

    /** Charges a write to the byte budget. */
    method Charge(n: nat)
      modifies this`received, this`reason, this`vertices, this`intervals, this`output
      ensures StreamView() == Account(old(StreamView()), n)
    {
      if received <= MAX_BYTES && received > MAX_BYTES - n {
        RefuseStream("limit_exceeded");
        WriteLog(Ascii(BYTE_LIMIT_NOTE));
        received := MAX_BYTES + 1;
      } else if received <= MAX_BYTES {
        received := received + n;
      }
    }

    /** The newline that ends the line being framed. */
    method EndLine()
      requires FramedInv(FramedView())
      modifies this`events, this`reason, this`vertices, this`intervals, this`output, this`line, this`discardLine
      ensures FramedView() == WriteByte(env, old(FramedView()), NEWLINE)
    {
      if !discardLine {
        Consume(line);
      }
      line := [];
      discardLine := false;
    }

    /** Consumes all of `data`; the result depends on the writes only as `WriteChunk` says. */
    method Write(data: bytes) returns (written: nat)
      requires StreamInv(StreamView())
      modifies this
      ensures written == |data|
      ensures StreamView() == WriteChunk(env, old(StreamView()), data)
    {
      written := |data|;
      Charge(|data|);
      ghost var charged := FramedView();
      var rest := data;
      while |rest| > 0
        invariant received == old(Account(StreamView(), |data|)).received
        invariant FramedInv(FramedView()) && FramedInv(charged)
        invariant Feed(env, charged, data) == Feed(env, FramedView(), rest)
        decreases |rest|
      {
        var end := LineEnd(rest);
        ghost var before := FramedView();
        AppendPart(rest[..end]);
        SplitFeed(env, before, rest, end);
        if end == |rest| {
          assert FramedView() == Feed(env, charged, data);
          break;
        }
        EndLine();
        rest := rest[end + 1..];
      }
    }

    method Finish(failed: bool, cancelled: bool) returns (o: Observation)
      requires FramedInv(FramedView())
      modifies this
      ensures o == Finished(env, old(FramedView()), failed, cancelled)
    {
      if |line| > 0 || discardLine {
        RefuseStream("partial_stream");
        if |line| > 0 {
          Consume(line);
        }
      }
      assert View() == Flush(env, old(FramedView()));
      if reason != "" {
        return Unavailable(reason);
      }
      if vertices.value == map[] || intervals.value == map[] {
        return Unavailable("missing_stream");
      }
      var raw := Assemble(vertices.value, intervals.value, failed, cancelled);
      o := Normalize(raw);
    }

    /** Adds a newline-free part to the pending line, or gives the line up as oversize. */
    method AppendPart(part: bytes)
      requires FramedInv(FramedView()) && forall i :: 0 <= i < |part| ==> part[i] != NEWLINE
      modifies this`line, this`discardLine, this`reason, this`vertices, this`intervals, this`output
      ensures FramedView() == Feed(env, old(FramedView()), part)
    {
      FeedPart(env, FramedView(), part);
      if !discardLine {
        if |line| + |part| > MAX_LINE {
          RefuseStream("limit_exceeded");
          line := [];
          discardLine := true;
          WriteLog(Ascii(OVERSIZE_NOTE));
        } else {
          line := line + part;
        }
      }
    }
  }

  /** What the walk over the interval map has gathered so far. */
  datatype Gathered = Gathered(list: seq<Interval>, lacking: bool)

  ghost predicate GatheredFrom(g: Gathered, family: Family, vertices: map<nat, VertexState>, seen: map<Key, Entry>) {
    Lists(g.list, family, vertices, seen) && (g.lacking <==> SomeLacking(family, vertices, seen))
  }

  function Gather(g: Gathered, family: Family, vertices: map<nat, VertexState>, k: Key, e: Entry): Gathered {
    Gathered(Collect(g.list, family, vertices, k, e), g.lacking || Lacking(family, vertices, k, e))
  }

  lemma GatherStep(g: Gathered, family: Family, vertices: map<nat, VertexState>, seen: map<Key, Entry>, k: Key,
        e: Entry)
    requires k !in seen && GatheredFrom(g, family, vertices, seen)
    ensures GatheredFrom(Gather(g, family, vertices, k, e), family, vertices, seen[k := e])
  {
    CollectStep(g.list, family, vertices, seen, k, e);
  }

  lemma VertexCountStep(seen: map<Key, Entry>, k: Key, e: Entry)
    requires k !in seen
    ensures |VertexKeys(seen[k := e])| == |VertexKeys(seen)| + if k.status.None? then 1 else 0
  {
    assert VertexKeys(seen[k := e]) == VertexKeys(seen) + if k.status.None? then {k} else {};
  }

  lemma CountStep(seen: map<Key, Entry>, k: Key, e: Entry)
    requires k !in seen
    ensures |VertexKeys(seen[k := e])| == |VertexKeys(seen)| + if k.status.None? then 1 else 0
    ensures |CachedKeys(seen[k := e])| == |CachedKeys(seen)| + if k.status.None? && e.end.Some? && e.cached then 1
        else 0
  {
    VertexCountStep(seen, k, e);
    assert CachedKeys(seen[k := e]) == CachedKeys(seen) + if k.status.None? && e.end.Some? && e.cached then {k} else {};
  }

  /** The walk over the interval map, in whatever order the map yields its keys. */
  method WalkIntervals(vertices: map<nat, VertexState>, intervals: map<Key, Entry>)
    returns (all: Gathered, exports: Gathered, pushes: Gathered, count: nat, cached: nat)
    ensures GatheredFrom(all, VertexFamily, vertices, intervals)
    ensures GatheredFrom(exports, ExportFamily, vertices, intervals)
    ensures GatheredFrom(pushes, PushFamily, vertices, intervals)
    ensures count == |VertexKeys(intervals)| && cached == |CachedKeys(intervals)|
  {
    all, exports, pushes := Gathered([], false), Gathered([], false), Gathered([], false);
    count, cached := 0, 0;
    var left := intervals.Keys;
    ghost var seen: map<Key, Entry> := map[];
    while left != {}
      invariant left <= intervals.Keys && seen.Keys == intervals.Keys - left
      invariant forall k <- seen :: seen[k] == intervals[k]
      invariant GatheredFrom(all, VertexFamily, vertices, seen)
      invariant GatheredFrom(exports, ExportFamily, vertices, seen)
      invariant GatheredFrom(pushes, PushFamily, vertices, seen)
      invariant count == |VertexKeys(seen)| && cached == |CachedKeys(seen)|
      decreases left
    {
      var k :| k in left;
      var e := intervals[k];
      GatherStep(all, VertexFamily, vertices, seen, k, e);
      GatherStep(exports, ExportFamily, vertices, seen, k, e);
      GatherStep(pushes, PushFamily, vertices, seen, k, e);
      CountStep(seen, k, e);
      all := Gather(all, VertexFamily, vertices, k, e);
      exports := Gather(exports, ExportFamily, vertices, k, e);
      pushes := Gather(pushes, PushFamily, vertices, k, e);
      if k.status.None? {
        count := count + 1;
        if e.end.Some? && e.cached {
          cached := cached + 1;
        }
      }
      seen := seen[k := e];
      left := left - {k};
    }
    assert seen == intervals;
  }

  method SomeNotStarted(vertices: map<nat, VertexState>) returns (found: bool)
    ensures found <==> exists v <- vertices :: !vertices[v].started
  {
    found := false;
    var left := vertices.Keys;
    while left != {}
      invariant left <= vertices.Keys
      invariant found <==> exists v <- vertices :: v !in left && !vertices[v].started
      decreases left
    {
      var v :| v in left;
      if !vertices[v].started {
        found := true;
      }
      left := left - {v};
    }
  }

  /** The union of one family, absent when evidence is missing or there is none. */
  method Measure(g: Gathered, missing: bool, family: Family, ghost vertices: map<nat, VertexState>,
        ghost intervals: map<Key, Entry>)
    returns (merged: seq<Interval>, union: Option<int>)
    requires MapsOk(vertices, intervals) && GatheredFrom(g, family, vertices, intervals)
    requires missing <==> Partial(family, vertices, intervals)
    ensures Separated(merged) && InWindow(merged) && Cover(merged) == FamilyCover(family, vertices, intervals)
    ensures union == UnionOf(family, vertices, intervals)
  {
    ListedInWindow(g.list, family, vertices, intervals);
    ListedCover(g.list, family, vertices, intervals);
    merged := UnionIntervals(g.list);
    union := None;
    if !missing && |merged| > 0 {
      var ns := UnionNanoseconds(merged);
      union := Some(ns as int);
    }
  }

  /** Assembles the observation from live maps. */
  method Assemble(vertices: map<nat, VertexState>, intervals: map<Key, Entry>, failed: bool, cancelled: bool)
    returns (o: Observation)
    requires MapsOk(vertices, intervals)
    ensures o == Observed(vertices, intervals, failed, cancelled)
  {
    var notStarted := SomeNotStarted(vertices);
    var all, exports, pushes, count, cached := WalkIntervals(vertices, intervals);
    var partialVertex := notStarted || all.lacking;
    var _, vertexUnion := Measure(all, partialVertex, VertexFamily, vertices, intervals);
    var mergedExports, exportUnion := Measure(exports, exports.lacking, ExportFamily, vertices, intervals);
    var mergedPushes, pushUnion := Measure(pushes, pushes.lacking, PushFamily, vertices, intervals);
    var overlap: Option<int> := None;
    if exportUnion.Some? && pushUnion.Some? {
      var ns := OverlapNanoseconds(mergedExports, mergedPushes);
      overlap := Some(ns as int);
    }
    var availability, reason := "observed", "";
    if partialVertex || exports.lacking || pushes.lacking {
      availability, reason := "incomplete", "partial_stream";
    }
    if failed {
      availability, reason := "incomplete", "command_failed";
    }
    if cancelled {
      availability, reason := "incomplete", "cancelled";
    }
    o := Observation(1, availability, reason, |vertices|, count, cached, vertexUnion,
                     Named(exportUnion), exportUnion, Named(pushUnion), pushUnion, overlap,
                     "unavailable", None, "unavailable");
  }

  lemma SplitFeed(env: Env, f: Framed, data: bytes, n: nat)
    requires FramedInv(f) && n <= |data|
    ensures var g := Feed(env, f, data[..n]);
            Feed(env, f, data) == if n == |data| then g else Feed(env, WriteByte(env, g, data[n]), data[n + 1..])
  {
    FeedAppend(env, f, data[..n], data[n..]);
    assert data == data[..n] + data[n..];
    if n < |data| {
      assert data[n..][1..] == data[n + 1..];
    } else {
      assert data[..n] == data;
    }
  }
}
