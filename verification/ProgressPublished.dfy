/** What is published of a stream, in terms of the reports of its lines. */
module ProgressPublished {
  import opened Options
  import opened Bytes
  import opened Intervals
  import opened Progress
  import opened Observations
  import opened ProgressReports

  /** The interval of a vertex record has the key of that vertex, that of a push has a status. */
  predicate Shaped(r: Report) {
    r.key.Some? ==>
      if r.id.Some? then r.key.value.status.None? && r.key.value.vertex == r.id.value else r.key.value.status.Some?
  }

  ghost predicate AllShaped(rs: seq<Report>) {
    forall i :: 0 <= i < |rs| ==> Shaped(rs[i])
  }

  lemma VertexShaped(env: Env, v: Option<Vertex>)
    ensures Shaped(VertexReport(env, v))
  {
  }

  lemma StatusShaped(env: Env, s: Option<StatusRecord>)
    ensures Shaped(StatusReport(env, s))
  {
  }

  lemma EventShaped(env: Env, event: Event)
    ensures AllShaped(EventReports(env, event))
  {
    forall i | 0 <= i < |event.vertexes| ensures Shaped(VertexReports(env, event.vertexes)[i]) {
      VertexShaped(env, event.vertexes[i]);
    }
    forall i | 0 <= i < |event.statuses| ensures Shaped(StatusReports(env, event.statuses)[i]) {
      StatusShaped(env, event.statuses[i]);
    }
  }

  lemma LineShaped(env: Env, line: bytes)
    ensures AllShaped(LineReports(KindOf(env, line)))
  {
    if KindOf(env, line).Records? { EventShaped(env, env.parse(env.trim(line)).value); }
  }

  lemma {:induction false} ReportsShaped(env: Env, lines: seq<bytes>)
    ensures AllShaped(ReportsOf(env, lines))
    decreases |lines|
  {
    if lines != [] {
      ReportsShaped(env, lines[..|lines| - 1]);
      LineShaped(env, lines[|lines| - 1]);
    }
  }

  // ---------- the observation of a list of reports ----------

  /** Some report says that the vertex is an export. */
  ghost predicate ExportId(rs: seq<Report>, v: nat) {
    exists i :: 0 <= i < |rs| && rs[i].id == Some(v) && rs[i].isExport
  }

  /** The interval belongs to the family: every vertex's, an export's, or a push for a known export. */
  ghost predicate Mine(family: Family, rs: seq<Report>, r: Report) {
    match family
    case VertexFamily => r.id.Some?
    case ExportFamily => r.id.Some? && r.isExport
    case PushFamily => r.id.None? && r.key.Some? && ExportId(rs, r.key.value.vertex)
  }

  /** The last word on an interval of the family is that it is over. */
  ghost predicate Over(family: Family, rs: seq<Report>, i: nat) {
    LastOf(rs, i) && Mine(family, rs, rs[i]) && rs[i].end.Some?
  }

  /** The last word on an interval leaves it open, or it is a push for no known export. */
  ghost predicate Open(family: Family, rs: seq<Report>, i: nat) {
    && LastOf(rs, i)
    && ((Mine(family, rs, rs[i]) && rs[i].end.None?)
        || (family.PushFamily? && rs[i].id.None? && !ExportId(rs, rs[i].key.value.vertex)))
  }

  ghost predicate SomeOver(family: Family, rs: seq<Report>) {
    exists i: nat :: Over(family, rs, i)
  }

  ghost predicate SomeOpen(family: Family, rs: seq<Report>) {
    exists i: nat :: Open(family, rs, i)
  }

  ghost predicate Missing(family: Family, rs: seq<Report>) {
    SomeOpen(family, rs) || (family.VertexFamily? && exists v <- Ids(rs) :: !StartedIn(rs, v))
  }

  function Extent(r: Report): Interval
    requires r.key.Some? && r.end.Some?
  {
    Interval(r.key.value.start, r.end.value)
  }

  /** The nanoseconds during which some interval of the family was under way. */
  ghost function Nanoseconds(family: Family, rs: seq<Report>): set<int> {
    set i: nat, t | i < |rs| && Over(family, rs, i) && Extent(rs[i]).start <= t < Extent(rs[i]).end
                    && Covers(Extent(rs[i]), t) :: t
  }

  ghost function Union(family: Family, rs: seq<Report>): Option<int> {
    if SomeOver(family, rs) && !Missing(family, rs) then Some(|Nanoseconds(family, rs)|) else None
  }

  ghost function VertexIntervals(rs: seq<Report>): set<Key> {
    set i | 0 <= i < |rs| && rs[i].key.Some? && rs[i].id.Some? :: rs[i].key.value
  }

  ghost function CachedIntervals(rs: seq<Report>): set<Key> {
    set i: nat | i < |rs| && Over(VertexFamily, rs, i) && rs[i].cached :: rs[i].key.value
  }

  ghost predicate SomeMissing(rs: seq<Report>) {
    Missing(VertexFamily, rs) || Missing(ExportFamily, rs) || Missing(PushFamily, rs)
  }

  ghost function Overlap(rs: seq<Report>): Option<int> {
    if Union(ExportFamily, rs).Some? && Union(PushFamily, rs).Some?
    then Some(|Nanoseconds(ExportFamily, rs) * Nanoseconds(PushFamily, rs)|) else None
  }

  /** What is observed of the reports: a cancelled or failed command, or missing evidence, makes it incomplete. */
  ghost predicate Observes(o: Observation, rs: seq<Report>, failed: bool, cancelled: bool) {
    && o.schemaVersion == 1
    && o.reason == (if cancelled then "cancelled" else if failed then "command_failed"
                    else if SomeMissing(rs) then "partial_stream" else "")
    && o.availability == (if o.reason == "" then "observed" else "incomplete")
    && o.vertexCount == |Ids(rs)| && o.vertexIntervalCount == |VertexIntervals(rs)|
    && o.cachedVertexIntervalCount == |CachedIntervals(rs)|
    && o.vertexUnion == Union(VertexFamily, rs)
    && o.exportUnion == Union(ExportFamily, rs) && o.pushUnion == Union(PushFamily, rs)
    && o.exportPushOverlap == Overlap(rs)
    && (o.exportAvailability == if o.exportUnion.Some? then "observed" else "unavailable")
    && (o.pushAvailability == if o.pushUnion.Some? then "observed" else "unavailable")
    && o.nydusAvailability == o.workerSessionsAvailability == "unavailable" && o.nydusWall.None?
  }

  predicate LongerThanADay(u: Option<int>) {
    u.Some? && u.value > MAX_SECONDS * NS_PER_SECOND
  }

  ghost predicate TooLong(rs: seq<Report>) {
    || LongerThanADay(Union(VertexFamily, rs)) || LongerThanADay(Union(ExportFamily, rs))
    || LongerThanADay(Union(PushFamily, rs))
  }

  /** Nothing is observed, and this is why. */
  predicate Nothing(o: Observation, reason: string) {
    && o.schemaVersion == 1 && o.availability == "unavailable" && o.reason == reason
    && o.vertexCount == o.vertexIntervalCount == o.cachedVertexIntervalCount == 0
    && o.vertexUnion.None? && o.exportUnion.None? && o.pushUnion.None? && o.exportPushOverlap.None? && o.nydusWall.None?
    && o.exportAvailability == o.pushAvailability == "unavailable"
    && o.nydusAvailability == o.workerSessionsAvailability == "unavailable"
  }

  // ---------- the maps say the same ----------

  ghost predicate Mirrors(m: Maps, rs: seq<Report>) {
    Holds(m, rs) && AllShaped(rs)
  }

  lemma ExportIff(m: Maps, rs: seq<Report>, v: nat)
    requires HoldsVertices(m.vertices, rs)
    ensures IsExport(m.vertices, v) <==> ExportId(rs, v)
  {
    if v in m.vertices {
      var i :| 0 <= i < |rs| && rs[i].id.Some? && rs[i].id.value == v;
      assert m.vertices[rs[i].id.value].isExport == rs[i].isExport;
    }
    if i :| 0 <= i < |rs| && rs[i].id == Some(v) && rs[i].isExport { assert v in Ids(rs); }
  }

  lemma MineIff(m: Maps, rs: seq<Report>, family: Family, i: nat)
    requires Mirrors(m, rs) && i < |rs| && rs[i].key.Some?
    ensures Selected(family, m.vertices, rs[i].key.value) <==> Mine(family, rs, rs[i])
    ensures Lacking(family, m.vertices, rs[i].key.value, Entry(rs[i].key.value.start, rs[i].end, rs[i].cached)) <==>
            || (Mine(family, rs, rs[i]) && rs[i].end.None?)
            || (family.PushFamily? && rs[i].id.None? && !ExportId(rs, rs[i].key.value.vertex))
  {
    assert Shaped(rs[i]);
    ExportIff(m, rs, rs[i].key.value.vertex);
    if rs[i].id.Some? {
      assert rs[i].id.value in Ids(rs);
      assert m.vertices[rs[i].id.value].isExport == rs[i].isExport;
    }
  }

  /** The entry of an interval is that of its last report. */
  lemma LastEntry(m: Maps, rs: seq<Report>, k: Key) returns (i: nat)
    requires HoldsIntervals(m.intervals, rs) && k in m.intervals
    ensures LastOf(rs, i) && rs[i].key == Some(k) && m.intervals[k] == Entry(k.start, rs[i].end, rs[i].cached)
  {
    i := LastIndex(rs, k);
  }

  lemma OverIff(m: Maps, rs: seq<Report>, family: Family, i: nat)
    requires Mirrors(m, rs) && LastOf(rs, i)
    ensures Contributes(family, m.vertices, m.intervals, rs[i].key.value) <==> Over(family, rs, i)
    ensures Over(family, rs, i) ==> AsInterval(m.intervals[rs[i].key.value]) == Extent(rs[i])
    ensures rs[i].key.value in m.intervals
    ensures Lacking(family, m.vertices, rs[i].key.value, m.intervals[rs[i].key.value]) <==> Open(family, rs, i)
  {
    assert rs[i].key.value in Keys(rs);
    MineIff(m, rs, family, i);
  }

  lemma SameCover(m: Maps, rs: seq<Report>, family: Family)
    requires Mirrors(m, rs)
    ensures FamilyCover(family, m.vertices, m.intervals) == Nanoseconds(family, rs)
    ensures Nonempty(family, m.vertices, m.intervals) <==> SomeOver(family, rs)
  {
    forall t | t in FamilyCover(family, m.vertices, m.intervals) ensures t in Nanoseconds(family, rs) {
      var k :| k in m.intervals && Contributes(family, m.vertices, m.intervals, k)
               && Covers(AsInterval(m.intervals[k]), t);
      var i := LastEntry(m, rs, k);
      OverIff(m, rs, family, i);
      assert Covers(Extent(rs[i]), t);
    }
    forall t | t in Nanoseconds(family, rs) ensures t in FamilyCover(family, m.vertices, m.intervals) {
      var i: nat :| i < |rs| && Over(family, rs, i) && Covers(Extent(rs[i]), t);
      OverIff(m, rs, family, i);
      assert Covers(AsInterval(m.intervals[rs[i].key.value]), t);
    }
    if Nonempty(family, m.vertices, m.intervals) {
      var k :| k in m.intervals && Contributes(family, m.vertices, m.intervals, k);
      var i := LastEntry(m, rs, k);
      OverIff(m, rs, family, i);
    }
    if i: nat :| Over(family, rs, i) { OverIff(m, rs, family, i); }
  }

  lemma SameMissing(m: Maps, rs: seq<Report>, family: Family)
    requires Mirrors(m, rs)
    ensures Partial(family, m.vertices, m.intervals) <==> Missing(family, rs)
  {
    if SomeLacking(family, m.vertices, m.intervals) {
      var k :| k in m.intervals && Lacking(family, m.vertices, k, m.intervals[k]);
      var i := LastEntry(m, rs, k);
      OverIff(m, rs, family, i);
    }
    if i: nat :| Open(family, rs, i) { OverIff(m, rs, family, i); }
    assert (exists v <- m.vertices :: !m.vertices[v].started) <==> (exists v <- Ids(rs) :: !StartedIn(rs, v));
  }

  lemma SameUnion(m: Maps, rs: seq<Report>, family: Family)
    requires Mirrors(m, rs)
    ensures UnionOf(family, m.vertices, m.intervals) == Union(family, rs)
  {
    SameCover(m, rs, family);
    SameMissing(m, rs, family);
  }

  lemma SameCounts(m: Maps, rs: seq<Report>)
    requires Mirrors(m, rs)
    ensures |m.vertices| == |Ids(rs)|
    ensures VertexKeys(m.intervals) == VertexIntervals(rs) && CachedKeys(m.intervals) == CachedIntervals(rs)
  {
    assert |m.vertices| == |m.vertices.Keys|;
    forall k ensures k in VertexKeys(m.intervals) <==> k in VertexIntervals(rs) {
      if k in m.intervals {
        var i := LastEntry(m, rs, k);
        assert Shaped(rs[i]);
      }
      if i :| 0 <= i < |rs| && rs[i].key.Some? && rs[i].id.Some? && rs[i].key.value == k {
        assert Shaped(rs[i]) && k in Keys(rs);
      }
    }
    forall k ensures k in CachedKeys(m.intervals) <==> k in CachedIntervals(rs) {
      if k in m.intervals {
        var i := LastEntry(m, rs, k);
        OverIff(m, rs, VertexFamily, i);
      }
      if i: nat :| i < |rs| && Over(VertexFamily, rs, i) && rs[i].cached && rs[i].key.value == k {
        OverIff(m, rs, VertexFamily, i);
        assert Shaped(rs[i]);
      }
    }
  }

  lemma SameLengths(m: Maps, rs: seq<Report>)
    requires Mirrors(m, rs)
    ensures OverLong(m.vertices, m.intervals) <==> TooLong(rs)
  {
    SameUnion(m, rs, VertexFamily);
    SameUnion(m, rs, ExportFamily);
    SameUnion(m, rs, PushFamily);
  }

  lemma SameOverlap(m: Maps, rs: seq<Report>, o: Observation)
    requires Mirrors(m, rs) && o == Observed(m.vertices, m.intervals, false, false)
    ensures o.exportPushOverlap == Overlap(rs)
  {
    SameUnion(m, rs, ExportFamily);
    SameUnion(m, rs, PushFamily);
    SameCover(m, rs, ExportFamily);
    SameCover(m, rs, PushFamily);
  }

  lemma SamePartial(m: Maps, rs: seq<Report>)
    requires Mirrors(m, rs)
    ensures SomeMissing(rs) <==>
            || Partial(VertexFamily, m.vertices, m.intervals) || Partial(ExportFamily, m.vertices, m.intervals)
            || Partial(PushFamily, m.vertices, m.intervals)
  {
    SameMissing(m, rs, VertexFamily);
    SameMissing(m, rs, ExportFamily);
    SameMissing(m, rs, PushFamily);
  }

  lemma ObservedObserves(m: Maps, rs: seq<Report>, failed: bool, cancelled: bool)
    requires Mirrors(m, rs)
    ensures Observes(Observed(m.vertices, m.intervals, failed, cancelled), rs, failed, cancelled)
  {
    SameCounts(m, rs);
    SamePartial(m, rs);
    SameOverlap(m, rs, Observed(m.vertices, m.intervals, false, false));
    SameUnion(m, rs, VertexFamily);
    SameUnion(m, rs, ExportFamily);
    SameUnion(m, rs, PushFamily);
  }

  /**
   What is published of a stream within the byte budget, however it was cut: why nothing is, or what its reports say.
   */
  lemma StreamPublishes(env: Env, chunks: seq<bytes>, failed: bool, cancelled: bool)
    requires Within(chunks)
    ensures var o := Finished(env, WriteAll(env, NewStream, chunks).f, failed, cancelled);
            var fault, rs := StreamFault(env, Concat(chunks)), ReportsOf(env, CompleteLines(Concat(chunks)));
            if fault != "" then Nothing(o, fault)
            else if Ids(rs) == {} || Keys(rs) == {} then Nothing(o, "missing_stream")
            else if TooLong(rs) then Nothing(o, "invalid_observation")
            else Observes(o, rs, failed, cancelled)
  {
    var p := Flush(env, WriteAll(env, NewStream, chunks).f);
    var rs := ReportsOf(env, CompleteLines(Concat(chunks)));
    StreamMeans(env, chunks);
    PublishedMeans(env, chunks, failed, cancelled);
    ReportsShaped(env, CompleteLines(Concat(chunks)));
    if p.reason == "" {
      SameLengths(MapsOf(p), rs);
      ObservedObserves(MapsOf(p), rs, failed, cancelled);
    }
  }
}
