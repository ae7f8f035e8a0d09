/** The published build observation and the consistency it must have. */
module Observations {
  import opened Options
  import opened Sets
  import opened Intervals
  import opened Progress
  import Bytes

  datatype Observation = Observation(
    schemaVersion: int,
    availability: string,
    reason: string,
    vertexCount: int,
    vertexIntervalCount: int,
    cachedVertexIntervalCount: int,
    vertexUnion: Option<int>,
    exportAvailability: string,
    exportUnion: Option<int>,
    pushAvailability: string,
    pushUnion: Option<int>,
    exportPushOverlap: Option<int>,
    nydusAvailability: string,
    nydusWall: Option<int>,
    workerSessionsAvailability: string)

  function Unavailable(reason: string): Observation {
    Observation(1, "unavailable", reason, 0, 0, 0, None, "unavailable", None, "unavailable", None, None,
                "unavailable", None, "unavailable")
  }

  const REASONS := {"", "missing_stream", "malformed_stream", "limit_exceeded", "partial_stream",
                    "command_failed", "cancelled", "invalid_observation"}

  predicate NonNegative(v: Option<int>) {
    v.Some? ==> v.value >= 0
  }

  predicate WithinDay(v: Option<int>) {
    v.Some? ==> v.value <= MAX_NS
  }

  predicate PhaseValid(availability: string, value: Option<int>, incomplete: bool) {
    if availability == "observed" then value.Some?
    else if availability == "incomplete" then incomplete && value.Some?
    else availability == "unavailable" && value.None?
  }

  /** Every clause of the validity check except the 24-hour magnitude bound. */
  predicate Consistent(o: Observation) {
    && o.schemaVersion == 1 && o.workerSessionsAvailability == "unavailable"
    && o.availability in {"observed", "incomplete", "unavailable"}
    && o.reason in REASONS
    && (o.availability == "observed" <==> o.reason == "")
    && 0 <= o.vertexCount <= MAX_VERTICES
    && 0 <= o.cachedVertexIntervalCount <= o.vertexIntervalCount <= MAX_INTERVALS
    && NonNegative(o.vertexUnion) && NonNegative(o.exportUnion) && NonNegative(o.pushUnion)
    && NonNegative(o.exportPushOverlap) && NonNegative(o.nydusWall)
    && PhaseValid(o.exportAvailability, o.exportUnion, false)
    && PhaseValid(o.pushAvailability, o.pushUnion, false)
    && PhaseValid(o.nydusAvailability, o.nydusWall, true)
    && (o.exportPushOverlap.Some? <==> o.exportUnion.Some? && o.pushUnion.Some?)
    && (o.exportPushOverlap.Some? ==>
          o.exportPushOverlap.value <= o.exportUnion.value && o.exportPushOverlap.value <= o.pushUnion.value)
    && (o.availability == "unavailable" ==>
          && o.vertexCount == 0 && o.vertexIntervalCount == 0 && o.cachedVertexIntervalCount == 0
          && o.vertexUnion.None? && o.exportUnion.None? && o.pushUnion.None? && o.exportPushOverlap.None?)
    && (o.availability == "observed" ==> o.vertexCount != 0 && o.vertexIntervalCount != 0 && o.vertexUnion.Some?)
  }

  predicate Magnitudes(o: Observation) {
    && WithinDay(o.vertexUnion) && WithinDay(o.exportUnion) && WithinDay(o.pushUnion)
    && WithinDay(o.exportPushOverlap) && WithinDay(o.nydusWall)
  }

  predicate Valid(o: Observation) {
    Consistent(o) && Magnitudes(o)
  }

  function Normalize(o: Observation): Observation {
    if Valid(o) then o else Unavailable("invalid_observation")
  }

  // ---------- what finish has to report ----------

  predicate IsExport(vertices: map<nat, VertexState>, v: nat) {
    v in vertices && vertices[v].isExport
  }

  /** The three interval families finish assembles. */
  datatype Family = VertexFamily | ExportFamily | PushFamily

  predicate Selected(family: Family, vertices: map<nat, VertexState>, k: Key) {
    match family
    case VertexFamily => k.status.None?
    case ExportFamily => k.status.None? && IsExport(vertices, k.vertex)
    case PushFamily => k.status.Some? && IsExport(vertices, k.vertex)
  }

  /** One interval that shows evidence of the family to be missing: unfinished, or a push of no known export. */
  predicate Lacking(family: Family, vertices: map<nat, VertexState>, k: Key, e: Entry) {
    || (Selected(family, vertices, k) && e.end.None?)
    || (family.PushFamily? && k.status.Some? && !IsExport(vertices, k.vertex))
  }

  ghost predicate SomeLacking(family: Family, vertices: map<nat, VertexState>, intervals: map<Key, Entry>) {
    exists k <- intervals :: Lacking(family, vertices, k, intervals[k])
  }

  /** Whether some evidence of the family is missing. */
  ghost predicate Partial(family: Family, vertices: map<nat, VertexState>, intervals: map<Key, Entry>) {
    || (family.VertexFamily? && exists v <- vertices :: !vertices[v].started)
    || SomeLacking(family, vertices, intervals)
  }

  ghost predicate Contributes(family: Family, vertices: map<nat, VertexState>, intervals: map<Key, Entry>, k: Key) {
    k in intervals && Selected(family, vertices, k) && intervals[k].end.Some?
  }

  function AsInterval(e: Entry): Interval
    requires e.end.Some?
  {
    Interval(e.start, e.end.value)
  }

  ghost predicate Source(family: Family, vertices: map<nat, VertexState>, intervals: map<Key, Entry>, k: Key,
        x: Interval) {
    Contributes(family, vertices, intervals, k) && AsInterval(intervals[k]) == x
  }

  /** `list` holds exactly the complete intervals of the family, in some order. */
  ghost predicate Lists(list: seq<Interval>, family: Family, vertices: map<nat, VertexState>,
        intervals: map<Key, Entry>) {
    forall x :: x in list <==> exists k: Key :: Source(family, vertices, intervals, k, x)
  }

  /** The nanoseconds covered by the complete intervals of the family. */
  ghost function FamilyCover(family: Family, vertices: map<nat, VertexState>, intervals: map<Key, Entry>): set<int> {
    set k, t | k in intervals && Contributes(family, vertices, intervals, k)
               && intervals[k].start <= t < intervals[k].end.value && Covers(AsInterval(intervals[k]), t) :: t
  }

  ghost predicate Nonempty(family: Family, vertices: map<nat, VertexState>, intervals: map<Key, Entry>) {
    exists k <- intervals :: Contributes(family, vertices, intervals, k)
  }

  ghost function UnionOf(family: Family, vertices: map<nat, VertexState>, intervals: map<Key, Entry>): Option<int> {
    if !Partial(family, vertices, intervals) && Nonempty(family, vertices, intervals)
    then Some(|FamilyCover(family, vertices, intervals)|) else None
  }

  function VertexKeys(intervals: map<Key, Entry>): set<Key> {
    set k | k in intervals && k.status.None?
  }

  function CachedKeys(intervals: map<Key, Entry>): set<Key> {
    set k | k in intervals && k.status.None? && intervals[k].end.Some? && intervals[k].cached
  }

  function Named(v: Option<int>): string {
    if v.Some? then "observed" else "unavailable"
  }

  /** The observation before normalisation, stated by what is covered and not by how it is summed. */
  ghost function Observed(vertices: map<nat, VertexState>, intervals: map<Key, Entry>, failed: bool,
        cancelled: bool): Observation {
    var partial := Partial(VertexFamily, vertices, intervals) || Partial(ExportFamily, vertices, intervals)
                   || Partial(PushFamily, vertices, intervals);
    var exports := UnionOf(ExportFamily, vertices, intervals);
    var pushes := UnionOf(PushFamily, vertices, intervals);
    Observation(
      1,
      if partial || failed || cancelled then "incomplete" else "observed",
      if cancelled then "cancelled" else if failed then "command_failed" else if partial then "partial_stream" else "",
      |vertices|, |VertexKeys(intervals)|, |CachedKeys(intervals)|,
      UnionOf(VertexFamily, vertices, intervals),
      Named(exports), exports,
      Named(pushes), pushes,
      if exports.Some? && pushes.Some?
      then Some(|FamilyCover(ExportFamily, vertices, intervals) * FamilyCover(PushFamily, vertices, intervals)|)
          else None,
      "unavailable", None, "unavailable")
  }

  lemma KeySetSizes(intervals: map<Key, Entry>)
    ensures |CachedKeys(intervals)| <= |VertexKeys(intervals)| <= |intervals|
  {
    SubsetSize(CachedKeys(intervals), VertexKeys(intervals));
    SubsetSize(VertexKeys(intervals), intervals.Keys);
  }

  /** A complete vertex family is never empty: a started vertex has an interval entry. */
  lemma CompleteVerticesContribute(vertices: map<nat, VertexState>, intervals: map<Key, Entry>)
    requires MapsOk(vertices, intervals) && vertices.Keys != {}
    requires !Partial(VertexFamily, vertices, intervals)
    ensures Nonempty(VertexFamily, vertices, intervals)
    ensures VertexKeys(intervals) != {}
  {
    var v :| v in vertices;
    assert HasInterval(intervals, v);
    var start :| Key(v, None, start) in intervals;
    var k := Key(v, None, start);
    assert !Lacking(VertexFamily, vertices, k, intervals[k]);
    assert Contributes(VertexFamily, vertices, intervals, k);
    assert k in VertexKeys(intervals);
  }

  /** Whatever the event history, the assembled observation breaks no clause but, possibly, the magnitude bound. */
  lemma ObservedIsConsistent(vertices: map<nat, VertexState>, intervals: map<Key, Entry>, failed: bool, cancelled: bool)
    requires MapsOk(vertices, intervals) && vertices.Keys != {}
    ensures Consistent(Observed(vertices, intervals, failed, cancelled))
  {
    KeySetSizes(intervals);
    if !Partial(VertexFamily, vertices, intervals) {
      CompleteVerticesContribute(vertices, intervals);
    }
    CommonCover(vertices, intervals);
  }

  lemma CommonCover(vertices: map<nat, VertexState>, intervals: map<Key, Entry>)
    ensures var e, u := FamilyCover(ExportFamily, vertices, intervals), FamilyCover(PushFamily, vertices, intervals);
            |e * u| <= |e| && |e * u| <= |u|
  {
    var e, u := FamilyCover(ExportFamily, vertices, intervals), FamilyCover(PushFamily, vertices, intervals);
    SubsetSize(e * u, e);
    SubsetSize(e * u, u);
  }

  /** Normalisation drops an assembled observation exactly when one of its unions is longer than a day. */
  lemma NormalizeOnlyBoundsUnions(vertices: map<nat, VertexState>, intervals: map<Key, Entry>, failed: bool,
        cancelled: bool)
    requires MapsOk(vertices, intervals) && vertices.Keys != {}
    ensures var o := Observed(vertices, intervals, failed, cancelled);
            Normalize(o) == if WithinDay(o.vertexUnion) && WithinDay(o.exportUnion) && WithinDay(o.pushUnion)
                            then o else Unavailable("invalid_observation")
  {
    ObservedIsConsistent(vertices, intervals, failed, cancelled);
  }

  // ---------- finish on a whole stream ----------

  /** The pending line makes the stream partial and is still forwarded as a diagnostic. */
  function Flush(env: Env, f: Framed): (p: Projection)
    requires FramedInv(f)
    ensures Inv(p)
    ensures f.p.reason != "" ==> p.reason == f.p.reason
    ensures p.reason == "" ==> p == f.p && f.line == [] && !f.discardLine
  {
    if f.line == [] && !f.discardLine then f.p
    else
      var q := Refuse(f.p, "partial_stream");
      ConsumeKeeps(env, q, f.line);
      if f.line == [] then q else ConsumeLine(env, q, f.line)
  }

  ghost function Finished(env: Env, f: Framed, failed: bool, cancelled: bool): Observation
    requires FramedInv(f)
  {
    var p := Flush(env, f);
    if p.reason != "" then Unavailable(p.reason)
    else if p.vertices.value.Keys == {} || p.intervals.value.Keys == {} then Unavailable("missing_stream")
    else Normalize(Observed(p.vertices.value, p.intervals.value, failed, cancelled))
  }

  /** One of the three unions is longer than a day. */
  ghost predicate OverLong(vertices: map<nat, VertexState>, intervals: map<Key, Entry>) {
    || !WithinDay(UnionOf(VertexFamily, vertices, intervals))
    || !WithinDay(UnionOf(ExportFamily, vertices, intervals))
    || !WithinDay(UnionOf(PushFamily, vertices, intervals))
  }

  lemma UnavailableMeans(reason: string)
    requires reason in {"missing_stream", "malformed_stream", "limit_exceeded", "partial_stream", "invalid_observation"}
    ensures Valid(Unavailable(reason))
  {
  }

  lemma ReasonsDiffer(reason: string)
    requires reason in {"", "missing_stream", "malformed_stream", "limit_exceeded", "partial_stream",
        "command_failed", "cancelled"}
    ensures reason != "invalid_observation"
  {
    assert |reason| <= 16 && |"invalid_observation"| == 19;
  }

  lemma AssembledMeans(vertices: map<nat, VertexState>, intervals: map<Key, Entry>, failed: bool, cancelled: bool)
    requires MapsOk(vertices, intervals) && vertices.Keys != {}
    ensures var o := Normalize(Observed(vertices, intervals, failed, cancelled));
            && Valid(o)
            && (o.reason == "invalid_observation" <==> OverLong(vertices, intervals))
            && (!OverLong(vertices, intervals) ==> o == Observed(vertices, intervals, failed, cancelled))
  {
    NormalizeOnlyBoundsUnions(vertices, intervals, failed, cancelled);
    UnavailableMeans("invalid_observation");
    ReasonsDiffer(Observed(vertices, intervals, failed, cancelled).reason);
  }

  /**
   What is published for any stream, however it was cut. It is dropped as invalid exactly when the stream was never
   refused, has vertices and intervals, and a union exceeds a day; otherwise it is the refusal, the missing stream or
   the assembled observation itself, and it is always valid.
   */
  lemma PublishedMeans(env: Env, chunks: seq<Bytes.bytes>, failed: bool, cancelled: bool)
    ensures var p := Flush(env, WriteAll(env, NewStream, chunks).f);
            var o := Finished(env, WriteAll(env, NewStream, chunks).f, failed, cancelled);
            var full := p.reason == "" && p.vertices.value.Keys != {} && p.intervals.value.Keys != {};
            && Valid(o)
            && (o.reason == "invalid_observation" <==> full && OverLong(p.vertices.value, p.intervals.value))
            && (full && o.reason != "invalid_observation" ==>
                  o == Observed(p.vertices.value, p.intervals.value, failed, cancelled))
            && (!full ==> o == Unavailable(if p.reason != "" then p.reason else "missing_stream"))
  {
    var p := Flush(env, WriteAll(env, NewStream, chunks).f);
    if p.reason != "" {
      UnavailableMeans(p.reason);
      ReasonsDiffer(p.reason);
    } else if p.vertices.value.Keys == {} || p.intervals.value.Keys == {} {
      UnavailableMeans("missing_stream");
      ReasonsDiffer("missing_stream");
    } else {
      AssembledMeans(p.vertices.value, p.intervals.value, failed, cancelled);
    }
  }

  /** Two ways of cutting a stream within the budget publish the same observation. */
  lemma FinishIgnoresChunks(env: Env, a: seq<Bytes.bytes>, b: seq<Bytes.bytes>, failed: bool, cancelled: bool)
    requires Bytes.Concat(a) == Bytes.Concat(b)
    ensures |Bytes.Concat(a)| <= MAX_BYTES ==>
              Finished(env, WriteAll(env, NewStream, a).f, failed, cancelled)
              == Finished(env, WriteAll(env, NewStream, b).f, failed, cancelled)
    ensures |Bytes.Concat(a)| > MAX_BYTES ==>
              Finished(env, WriteAll(env, NewStream, a).f, failed, cancelled).availability == "unavailable"
  {
    if |Bytes.Concat(a)| <= MAX_BYTES {
      StreamMeaning(env, a);
      StreamMeaning(env, b);
    } else {
      OverBudgetRefused(env, NewStream, a);
    }
  }

  // ---------- collecting a family one map entry at a time ----------

  /** What one more map entry adds to a family's list. */
  function Collect(list: seq<Interval>, family: Family, vertices: map<nat, VertexState>, k: Key,
        e: Entry): seq<Interval> {
    if Selected(family, vertices, k) && e.end.Some? then list + [AsInterval(e)] else list
  }

  lemma CollectStep(list: seq<Interval>, family: Family, vertices: map<nat, VertexState>, seen: map<Key, Entry>,
        k: Key, e: Entry)
    requires k !in seen && Lists(list, family, vertices, seen)
    ensures Lists(Collect(list, family, vertices, k, e), family, vertices, seen[k := e])
    ensures SomeLacking(family, vertices, seen[k := e]) <==>
            SomeLacking(family, vertices, seen) || Lacking(family, vertices, k, e)
  {
    var more := seen[k := e];
    var next := Collect(list, family, vertices, k, e);
    forall x ensures x in next <==> exists j: Key :: Source(family, vertices, more, j, x) {
      if x in list {
        var j: Key :| Source(family, vertices, seen, j, x);
        assert Source(family, vertices, more, j, x);
      } else if x in next {
        assert Source(family, vertices, more, k, x);
      } else if j: Key :| Source(family, vertices, more, j, x) {
        assert j != k ==> Source(family, vertices, seen, j, x);
      }
    }
    if j: Key :| j in seen && Lacking(family, vertices, j, seen[j]) {
      assert Lacking(family, vertices, j, more[j]);
    }
    if Lacking(family, vertices, k, e) {
      assert Lacking(family, vertices, k, more[k]);
    }
  }

  lemma ListedInWindow(list: seq<Interval>, family: Family, vertices: map<nat, VertexState>, intervals: map<Key, Entry>)
    requires MapsOk(vertices, intervals) && Lists(list, family, vertices, intervals)
    ensures InWindow(list)
  {
    forall i | 0 <= i < |list| ensures WINDOW_START <= list[i].start <= list[i].end <= WINDOW_END {
      var x := list[i];
      assert x in list;
      var k: Key :| Source(family, vertices, intervals, k, x);
      assert EntryOk(k, intervals[k]);
    }
  }

  /** A complete list covers what the family covers, whatever its order. */
  lemma ListedCover(list: seq<Interval>, family: Family, vertices: map<nat, VertexState>, intervals: map<Key, Entry>)
    requires Lists(list, family, vertices, intervals)
    ensures Cover(list) == FamilyCover(family, vertices, intervals)
    ensures list == [] <==> !Nonempty(family, vertices, intervals)
  {
    forall t | t in Cover(list) ensures t in FamilyCover(family, vertices, intervals) {
      var i :| 0 <= i < |list| && Covers(list[i], t);
      assert list[i] in list;
      var k: Key :| Source(family, vertices, intervals, k, list[i]);
      assert Covers(AsInterval(intervals[k]), t);
    }
    forall t | t in FamilyCover(family, vertices, intervals) ensures t in Cover(list) {
      var k: Key :| k in intervals && Contributes(family, vertices, intervals, k)
          && Covers(AsInterval(intervals[k]), t);
      var x := AsInterval(intervals[k]);
      assert Source(family, vertices, intervals, k, x);
      assert x in list;
      var i :| 0 <= i < |list| && list[i] == x;
      assert Covers(list[i], t);
    }
    if list != [] {
      assert list[0] in list;
      var k: Key :| Source(family, vertices, intervals, k, list[0]);
    }
    if k: Key :| k in intervals && Contributes(family, vertices, intervals, k) {
      assert Source(family, vertices, intervals, k, AsInterval(intervals[k]));
      assert AsInterval(intervals[k]) in list;
    }
  }
}
