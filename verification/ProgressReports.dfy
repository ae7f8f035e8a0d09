/**
 What a whole progress stream amounts to: the records of all its lines as one
 list of reports, when such a list is accepted, and what is then published. All
 of it is said about the list, and not about the maps that the projection keeps.
 */
module ProgressReports {
  import opened Options
  import opened Bytes
  import opened Sets
  import opened Intervals
  import opened Progress
  import opened Observations

  // ---------- reports ----------

  /**
   What one record says: of a vertex, whether it is an export; of an interval, its key, its end if it is over, and
   whether it was cached. `ok` says that the identities are acceptable, `timed` that the times are.
   */
  datatype Report = Report(
    ok: bool, id: Option<nat>, isExport: bool, timed: bool, key: Option<Key>, end: Option<int>, cached: bool)

  const BAD := Report(false, None, false, false, None, None, false)
  const OTHER := Report(true, None, false, true, None, None, false)

  /** A start in the years 2000 to 2200 of its own zone, and an end up to a day later; no end without a start. */
  predicate TimesOk(start: Option<Stamp>, end: Option<Stamp>) {
    if start.None? then end.None?
    else
      && YEAR_2000 <= start.value.utc + start.value.zone < YEAR_2201
      && (end.Some? ==> 0 <= end.value.utc - start.value.utc <= MAX_SECONDS * NS_PER_SECOND)
  }

  function Timed(r: Report, vertex: nat, status: Option<nat>, start: Option<Stamp>, end: Option<Stamp>,
                 cached: bool): Report {
    if !TimesOk(start, end) then r.(timed := false)
    else if start.None? then r
    else r.(key := Some(Key(vertex, status, start.value.utc)),
            end := if end.Some? then Some(end.value.utc) else None,
            cached := cached)
  }

  function VertexReport(env: Env, vertex: Option<Vertex>): Report {
    if vertex.None? || !(0 < |vertex.value.digest| <= 256) then BAD
    else
      var v := vertex.value;
      var id := env.digest(v.digest);
      Timed(OTHER.(id := Some(id), isExport := v.name == "exporting to image"), id, None, v.started, v.completed,
          v.cached)
  }

  /** Only the pushes of layers and manifests are of interest. */
  function StatusReport(env: Env, status: Option<StatusRecord>): Report {
    if status.None? || !(0 < |status.value.vertex| <= 256) || !(0 < |status.value.id| <= 8192) then BAD
    else
      var s := status.value;
      if s.id == "pushing layers" || "pushing manifest for " < s.id
      then Timed(OTHER, env.digest(s.vertex), Some(env.digest(s.id)), s.started, s.completed, false)
      else OTHER
  }

  function VertexReports(env: Env, vs: seq<Option<Vertex>>): (r: seq<Report>)
    ensures |r| == |vs| && forall i :: 0 <= i < |vs| ==> r[i] == VertexReport(env, vs[i])
  {
    seq(|vs|, i requires 0 <= i < |vs| => VertexReport(env, vs[i]))
  }

  function StatusReports(env: Env, ss: seq<Option<StatusRecord>>): (r: seq<Report>)
    ensures |r| == |ss| && forall i :: 0 <= i < |ss| ==> r[i] == StatusReport(env, ss[i])
  {
    seq(|ss|, i requires 0 <= i < |ss| => StatusReport(env, ss[i]))
  }

  /** Vertices come before statuses. */
  function EventReports(env: Env, event: Event): seq<Report> {
    VertexReports(env, event.vertexes) + StatusReports(env, event.statuses)
  }

  // ---------- which lists are accepted ----------

  ghost function Ids(rs: seq<Report>): set<nat> {
    set i | 0 <= i < |rs| && rs[i].id.Some? :: rs[i].id.value
  }

  ghost function Keys(rs: seq<Report>): set<Key> {
    set i | 0 <= i < |rs| && rs[i].key.Some? :: rs[i].key.value
  }

  /** A vertex is an export in all its reports or in none. */
  predicate SameKind(a: Report, b: Report) {
    a.id.Some? && a.id == b.id ==> a.isExport == b.isExport
  }

  /** An interval that was reported as over is reported the same way ever after. */
  predicate SameEnd(a: Report, b: Report) {
    a.key.Some? && a.key == b.key && a.end.Some? ==> b.end == a.end && b.cached == a.cached
  }

  ghost predicate WellFormed(rs: seq<Report>) {
    forall i :: 0 <= i < |rs| ==> rs[i].ok && rs[i].timed
  }

  ghost predicate Agreeing(rs: seq<Report>) {
    forall i, j :: 0 <= i < j < |rs| ==> SameKind(rs[i], rs[j]) && SameEnd(rs[i], rs[j])
  }

  ghost predicate Sound(rs: seq<Report>) {
    WellFormed(rs) && Agreeing(rs) && |Ids(rs)| <= MAX_VERTICES && |Keys(rs)| <= MAX_INTERVALS
  }

  ghost predicate KindClash(rs: seq<Report>, r: Report) {
    exists i :: 0 <= i < |rs| && !SameKind(rs[i], r)
  }

  ghost predicate EndClash(rs: seq<Report>, r: Report) {
    exists i :: 0 <= i < |rs| && !SameEnd(rs[i], r)
  }

  /** Why a list of accepted reports cannot be followed by this one; empty if it can. */
  ghost function Fault(rs: seq<Report>, r: Report): string {
    if !r.ok || KindClash(rs, r) then "malformed_stream"
    else if |Ids(rs + [r])| > MAX_VERTICES then "limit_exceeded"
    else if !r.timed then "malformed_stream"
    else if |Keys(rs + [r])| > MAX_INTERVALS then "limit_exceeded"
    else if EndClash(rs, r) then "malformed_stream"
    else ""
  }

  /** The fault of the first report that has one. */
  ghost function FirstFault(rs: seq<Report>, more: seq<Report>): string
    decreases |more|
  {
    if more == [] then ""
    else if Fault(rs, more[0]) != "" then Fault(rs, more[0])
    else FirstFault(rs + [more[0]], more[1..])
  }

  lemma IdsStep(rs: seq<Report>, r: Report)
    ensures Ids(rs + [r]) == Ids(rs) + if r.id.Some? then {r.id.value} else {}
  {
    var more := rs + [r];
    assert more[|rs|] == r;
    forall v | v in Ids(rs) ensures v in Ids(more) {
      var i :| 0 <= i < |rs| && rs[i].id.Some? && rs[i].id.value == v;
      assert more[i] == rs[i];
    }
  }

  lemma KeysStep(rs: seq<Report>, r: Report)
    ensures Keys(rs + [r]) == Keys(rs) + if r.key.Some? then {r.key.value} else {}
  {
    var more := rs + [r];
    assert more[|rs|] == r;
    forall k | k in Keys(rs) ensures k in Keys(more) {
      var i :| 0 <= i < |rs| && rs[i].key.Some? && rs[i].key.value == k;
      assert more[i] == rs[i];
    }
  }

  lemma AgreeingStep(rs: seq<Report>, r: Report)
    ensures Agreeing(rs + [r]) <==> Agreeing(rs) && !KindClash(rs, r) && !EndClash(rs, r)
  {
    var more := rs + [r];
    assert more[|rs|] == r && forall i :: 0 <= i < |rs| ==> more[i] == rs[i];
    if Agreeing(more) {
      forall i | 0 <= i < |rs| ensures SameKind(rs[i], r) && SameEnd(rs[i], r) { assert more[i] == rs[i]; }
    }
  }

  lemma WellFormedStep(rs: seq<Report>, r: Report)
    ensures WellFormed(rs + [r]) <==> WellFormed(rs) && r.ok && r.timed
  {
    var more := rs + [r];
    assert more[|rs|] == r && forall i :: 0 <= i < |rs| ==> more[i] == rs[i];
  }

  /** One more report is accepted exactly when the longer list is sound. */
  lemma FaultIff(rs: seq<Report>, r: Report)
    requires Sound(rs)
    ensures Fault(rs, r) == "" <==> Sound(rs + [r])
  {
    WellFormedStep(rs, r);
    AgreeingStep(rs, r);
    assert |"malformed_stream"| == 16 && |"limit_exceeded"| == 14;
  }

  lemma UnsoundStays(rs: seq<Report>, r: Report)
    requires Sound(rs + [r])
    ensures Sound(rs)
  {
    WellFormedStep(rs, r);
    AgreeingStep(rs, r);
    IdsStep(rs, r);
    KeysStep(rs, r);
    SubsetSize(Ids(rs), Ids(rs + [r]));
    SubsetSize(Keys(rs), Keys(rs + [r]));
  }

  lemma {:induction false} PrefixSound(rs: seq<Report>, n: nat)
    requires n <= |rs| && Sound(rs)
    ensures Sound(rs[..n])
    decreases |rs| - n
  {
    if n < |rs| {
      PrefixSound(rs, n + 1);
      assert rs[..n + 1] == rs[..n] + [rs[n]];
      UnsoundStays(rs[..n], rs[n]);
    } else {
      assert rs[..n] == rs;
    }
  }

  /** No report has a fault exactly when the list is sound, which does not depend on where it is cut. */
  lemma {:induction false} FirstFaultIff(rs: seq<Report>, more: seq<Report>)
    requires Sound(rs)
    ensures FirstFault(rs, more) == "" <==> Sound(rs + more)
    decreases |more|
  {
    if more == [] {
      assert rs + more == rs;
    } else {
      FaultIff(rs, more[0]);
      assert rs + more == (rs + [more[0]]) + more[1..];
      assert (rs + more)[..|rs| + 1] == rs + [more[0]];
      if Sound(rs + more) { PrefixSound(rs + more, |rs| + 1); }
      if Sound(rs + [more[0]]) { FirstFaultIff(rs + [more[0]], more[1..]); }
    }
  }

  // ---------- the maps of an accepted list ----------

  datatype Maps = Maps(vertices: map<nat, VertexState>, intervals: map<Key, Entry>)

  /** The last report of its interval. */
  ghost predicate LastOf(rs: seq<Report>, i: nat) {
    i < |rs| && rs[i].key.Some? && forall j :: i < j < |rs| ==> rs[j].key != rs[i].key
  }

  ghost predicate StartedIn(rs: seq<Report>, v: nat) {
    exists i :: 0 <= i < |rs| && rs[i].id == Some(v) && rs[i].key.Some?
  }

  /** Exactly the vertices reported, each with its kind and whether it ever started. */
  ghost predicate HoldsVertices(vertices: map<nat, VertexState>, rs: seq<Report>) {
    && vertices.Keys == Ids(rs)
    && (forall i :: 0 <= i < |rs| && rs[i].id.Some? ==> vertices[rs[i].id.value].isExport == rs[i].isExport)
    && (forall v <- vertices :: vertices[v].started <==> StartedIn(rs, v))
  }

  /** Exactly the intervals reported, each with the end and the flag of its last report. */
  ghost predicate HoldsIntervals(intervals: map<Key, Entry>, rs: seq<Report>) {
    && intervals.Keys == Keys(rs)
    && (forall i: nat :: LastOf(rs, i) ==>
          intervals[rs[i].key.value] == Entry(rs[i].key.value.start, rs[i].end, rs[i].cached))
  }

  ghost predicate Holds(m: Maps, rs: seq<Report>) {
    HoldsVertices(m.vertices, rs) && HoldsIntervals(m.intervals, rs)
  }

  datatype Taken = Kept(m: Maps) | Dropped(reason: string)

  predicate Conflicts(known: Entry, r: Report) {
    known.end.Some? && (known.end != r.end || known.cached != r.cached)
  }

  function TakeInterval(m: Maps, r: Report): Taken {
    if !r.timed then Dropped("malformed_stream")
    else if r.key.None? then Kept(m)
    else
      var k := r.key.value;
      if k !in m.intervals && |m.intervals| == MAX_INTERVALS then Dropped("limit_exceeded")
      else if k in m.intervals && Conflicts(m.intervals[k], r) then Dropped("malformed_stream")
      else Kept(m.(intervals := m.intervals[k := Entry(k.start, r.end, r.cached)]))
  }

  /** One report against the maps. */
  function Take(m: Maps, r: Report): Taken {
    if !r.ok then Dropped("malformed_stream")
    else if r.id.None? then TakeInterval(m, r)
    else
      var v := r.id.value;
      if v in m.vertices && m.vertices[v].isExport != r.isExport then Dropped("malformed_stream")
      else if v !in m.vertices && |m.vertices| == MAX_VERTICES then Dropped("limit_exceeded")
      else
        var started := (v in m.vertices && m.vertices[v].started) || r.key.Some?;
        TakeInterval(m.(vertices := m.vertices[v := VertexState(r.isExport, started)]), r)
  }

  function TakeAll(m: Maps, rs: seq<Report>): Taken
    decreases |rs|
  {
    if rs == [] then Kept(m)
    else match Take(m, rs[0])
      case Kept(next) => TakeAll(next, rs[1..])
      case Dropped(reason) => Dropped(reason)
  }

  lemma {:induction false} TakeAllAppend(m: Maps, a: seq<Report>, b: seq<Report>)
    ensures TakeAll(m, a + b) ==
            match TakeAll(m, a) case Kept(next) => TakeAll(next, b) case Dropped(reason) => Dropped(reason)
    decreases |a|
  {
    if a == [] {
      assert a + b == b;
    } else {
      assert (a + b)[1..] == a[1..] + b;
      match Take(m, a[0])
      case Kept(next) => TakeAllAppend(next, a[1..], b);
      case Dropped(_) =>
    }
  }

  function MapsOf(p: Projection): Maps
    requires Live(p)
  {
    Maps(p.vertices.value, p.intervals.value)
  }

  function WithTaken(p: Projection, t: Taken): Projection {
    match t
    case Kept(m) => p.(vertices := Some(m.vertices), intervals := Some(m.intervals))
    case Dropped(reason) => p.(reason := reason, vertices := None, intervals := None)
  }

  lemma IntervalTaken(p: Projection, r: Report, vertex: nat, status: Option<nat>, start: Option<Stamp>,
                      end: Option<Stamp>, cached: bool)
    requires Live(p) && r.timed && r.key.None?
    ensures AddInterval(p, vertex, status, start, end, cached) ==
            WithTaken(p, TakeInterval(MapsOf(p), Timed(r, vertex, status, start, end, cached)))
  {
  }

  lemma VertexTaken(env: Env, p: Projection, vertex: Option<Vertex>)
    requires Live(p)
    ensures AddVertex(env, p, vertex) == WithTaken(p, Take(MapsOf(p), VertexReport(env, vertex)))
  {
    if vertex.Some? && 0 < |vertex.value.digest| <= 256 {
      var v := vertex.value;
      var id, known := env.digest(v.digest), p.vertices.value;
      var r := OTHER.(id := Some(id), isExport := v.name == "exporting to image");
      var state := VertexState(r.isExport, (id in known && known[id].started) || v.started.Some?);
      IntervalTaken(p.(vertices := Some(known[id := state])), r, id, None, v.started, v.completed, v.cached);
    }
  }

  lemma StatusTaken(env: Env, p: Projection, status: Option<StatusRecord>)
    requires Live(p)
    ensures AddStatus(env, p, status) == WithTaken(p, Take(MapsOf(p), StatusReport(env, status)))
  {
    if status.Some? {
      var s := status.value;
      IntervalTaken(p, OTHER, env.digest(s.vertex), Some(env.digest(s.id)), s.started, s.completed, false);
    }
  }

  lemma DroppedReason(m: Maps, r: Report)
    requires Take(m, r).Dropped?
    ensures Take(m, r).reason != ""
  {
  }

  lemma {:induction false} VerticesTaken(env: Env, p: Projection, vs: seq<Option<Vertex>>)
    requires Live(p)
    ensures AddVertices(env, p, vs) == WithTaken(p, TakeAll(MapsOf(p), VertexReports(env, vs)))
    decreases |vs|
  {
    if vs != [] {
      VertexTaken(env, p, vs[0]);
      var t := Take(MapsOf(p), VertexReport(env, vs[0]));
      assert VertexReports(env, vs)[1..] == VertexReports(env, vs[1..]);
      if t.Kept? {
        VerticesTaken(env, WithTaken(p, t), vs[1..]);
      } else {
        DroppedReason(MapsOf(p), VertexReport(env, vs[0]));
      }
    }
  }

  lemma {:induction false} StatusesTaken(env: Env, p: Projection, ss: seq<Option<StatusRecord>>)
    requires Live(p)
    ensures AddStatuses(env, p, ss) == WithTaken(p, TakeAll(MapsOf(p), StatusReports(env, ss)))
    decreases |ss|
  {
    if ss != [] {
      StatusTaken(env, p, ss[0]);
      var t := Take(MapsOf(p), StatusReport(env, ss[0]));
      assert StatusReports(env, ss)[1..] == StatusReports(env, ss[1..]);
      if t.Kept? {
        StatusesTaken(env, WithTaken(p, t), ss[1..]);
      } else {
        DroppedReason(MapsOf(p), StatusReport(env, ss[0]));
      }
    }
  }

  lemma {:induction false} AllDroppedReason(m: Maps, rs: seq<Report>)
    requires TakeAll(m, rs).Dropped?
    ensures TakeAll(m, rs).reason != ""
    decreases |rs|
  {
    if Take(m, rs[0]).Kept? {
      AllDroppedReason(Take(m, rs[0]).m, rs[1..]);
    } else {
      DroppedReason(m, rs[0]);
    }
  }

  lemma EventTaken(env: Env, p: Projection, event: Event)
    requires Live(p)
    ensures AddEvent(env, p, event) == WithTaken(p, TakeAll(MapsOf(p), EventReports(env, event)))
  {
    var vs, ss := VertexReports(env, event.vertexes), StatusReports(env, event.statuses);
    VerticesTaken(env, p, event.vertexes);
    TakeAllAppend(MapsOf(p), vs, ss);
    var t := TakeAll(MapsOf(p), vs);
    if t.Kept? {
      StatusesTaken(env, WithTaken(p, t), event.statuses);
    } else {
      AllDroppedReason(MapsOf(p), vs);
    }
  }

  lemma {:induction false} LastIndex(rs: seq<Report>, k: Key) returns (i: nat)
    requires k in Keys(rs)
    ensures LastOf(rs, i) && rs[i].key == Some(k)
    decreases |rs|
  {
    var init, r := rs[..|rs| - 1], rs[|rs| - 1];
    assert rs == init + [r];
    i := |rs| - 1;
    if r.key != Some(k) {
      KeysStep(init, r);
      i := LastIndex(init, k);
      assert rs[i] == init[i];
      forall j | i < j < |rs| ensures rs[j].key != rs[i].key { assert j < |init| ==> rs[j] == init[j]; }
    }
  }

  /** Comparing with the entry kept, that of the last report, is comparing with every earlier report. */
  lemma ConflictIsClash(intervals: map<Key, Entry>, rs: seq<Report>, r: Report)
    requires HoldsIntervals(intervals, rs) && Agreeing(rs)
    ensures EndClash(rs, r) <==>
            r.key.Some? && r.key.value in intervals && Conflicts(intervals[r.key.value], r)
  {
    if r.key.Some? && r.key.value in intervals {
      var last := LastIndex(rs, r.key.value);
      if EndClash(rs, r) {
        var i :| 0 <= i < |rs| && !SameEnd(rs[i], r);
        assert i <= last;
        assert i < last ==> SameEnd(rs[i], rs[last]);
      }
      assert SameEnd(rs[last], r) <==> !Conflicts(intervals[r.key.value], r);
    }
  }

  lemma KnownKind(vertices: map<nat, VertexState>, rs: seq<Report>, r: Report)
    requires HoldsVertices(vertices, rs)
    ensures KindClash(rs, r) <==>
            r.id.Some? && r.id.value in vertices && vertices[r.id.value].isExport != r.isExport
  {
    if r.id.Some? && r.id.value in vertices {
      var i :| 0 <= i < |rs| && rs[i].id.Some? && rs[i].id.value == r.id.value;
      assert SameKind(rs[i], r) <==> rs[i].isExport == r.isExport;
    }
  }

  lemma IdLimit(vertices: map<nat, VertexState>, rs: seq<Report>, r: Report)
    requires vertices.Keys == Ids(rs) && |Ids(rs)| <= MAX_VERTICES
    ensures |Ids(rs + [r])| > MAX_VERTICES <==>
            r.id.Some? && r.id.value !in vertices && |vertices| == MAX_VERTICES
  {
    IdsStep(rs, r);
    assert |vertices| == |vertices.Keys|;
  }

  lemma KeyLimit(intervals: map<Key, Entry>, rs: seq<Report>, r: Report)
    requires intervals.Keys == Keys(rs) && |Keys(rs)| <= MAX_INTERVALS
    ensures |Keys(rs + [r])| > MAX_INTERVALS <==>
            r.key.Some? && r.key.value !in intervals && |intervals| == MAX_INTERVALS
  {
    KeysStep(rs, r);
    assert |intervals| == |intervals.Keys|;
  }

  /** A report is dropped exactly for its fault. */
  lemma TakeFaults(m: Maps, rs: seq<Report>, r: Report)
    requires Holds(m, rs) && Sound(rs)
    ensures Fault(rs, r) == ReasonOf(Take(m, r))
  {
    IdLimit(m.vertices, rs, r);
    KeyLimit(m.intervals, rs, r);
    KnownKind(m.vertices, rs, r);
    ConflictIsClash(m.intervals, rs, r);
  }

  lemma LastStep(rs: seq<Report>, r: Report, i: nat)
    ensures LastOf(rs + [r], i) <==>
            if i == |rs| then r.key.Some? else LastOf(rs, i) && rs[i].key != r.key
  {
    var more := rs + [r];
    assert more[|rs|] == r && forall j :: 0 <= j < |rs| ==> more[j] == rs[j];
    if i < |rs| && LastOf(more, i) {
      assert more[i].key != more[|rs|].key;
      forall j | i < j < |rs| ensures rs[j].key != rs[i].key { assert more[j].key != more[i].key; }
    }
  }

  lemma StartedStep(rs: seq<Report>, r: Report, v: nat)
    ensures StartedIn(rs + [r], v) <==> StartedIn(rs, v) || (r.id == Some(v) && r.key.Some?)
  {
    var more := rs + [r];
    assert more[|rs|] == r;
    if i :| 0 <= i < |rs| && rs[i].id == Some(v) && rs[i].key.Some? { assert more[i] == rs[i]; }
  }

  function NextVertices(vertices: map<nat, VertexState>, r: Report): map<nat, VertexState> {
    if r.id.None? then vertices
    else
      var started := (r.id.value in vertices && vertices[r.id.value].started) || r.key.Some?;
      vertices[r.id.value := VertexState(r.isExport, started)]
  }

  function NextIntervals(intervals: map<Key, Entry>, r: Report): map<Key, Entry> {
    if r.key.None? then intervals else intervals[r.key.value := Entry(r.key.value.start, r.end, r.cached)]
  }

  lemma TakenMaps(m: Maps, r: Report)
    requires Take(m, r).Kept?
    ensures Take(m, r).m == Maps(NextVertices(m.vertices, r), NextIntervals(m.intervals, r))
  {
  }

  lemma VerticesStep(vertices: map<nat, VertexState>, rs: seq<Report>, r: Report)
    requires HoldsVertices(vertices, rs) && !KindClash(rs, r)
    ensures HoldsVertices(NextVertices(vertices, r), rs + [r])
  {
    var next, more := NextVertices(vertices, r), rs + [r];
    IdsStep(rs, r);
    forall i | 0 <= i < |more| && more[i].id.Some? ensures next[more[i].id.value].isExport == more[i].isExport {
      if i < |rs| { assert more[i] == rs[i] && SameKind(rs[i], r); }
    }
    forall v <- next ensures next[v].started <==> StartedIn(more, v) {
      StartedStep(rs, r, v);
      assert StartedIn(rs, v) ==> v in Ids(rs);
    }
  }

  lemma IntervalsStep(intervals: map<Key, Entry>, rs: seq<Report>, r: Report)
    requires HoldsIntervals(intervals, rs)
    ensures HoldsIntervals(NextIntervals(intervals, r), rs + [r])
  {
    var next, more := NextIntervals(intervals, r), rs + [r];
    KeysStep(rs, r);
    forall i: nat | LastOf(more, i)
      ensures next[more[i].key.value] == Entry(more[i].key.value.start, more[i].end, more[i].cached)
    {
      LastStep(rs, r, i);
      if i < |rs| { assert more[i] == rs[i]; }
    }
  }

  lemma TakeHolds(m: Maps, rs: seq<Report>, r: Report)
    requires Holds(m, rs) && Sound(rs) && Take(m, r).Kept?
    ensures Sound(rs + [r]) && Holds(Take(m, r).m, rs + [r])
  {
    TakeFaults(m, rs, r);
    FaultIff(rs, r);
    AgreeingStep(rs, r);
    TakenMaps(m, r);
    VerticesStep(m.vertices, rs, r);
    IntervalsStep(m.intervals, rs, r);
  }

  function ReasonOf(t: Taken): string {
    if t.Kept? then "" else t.reason
  }

  lemma FaultUnfolds(m: Maps, rs: seq<Report>, more: seq<Report>)
    requires more != [] && Fault(rs, more[0]) == ReasonOf(Take(m, more[0]))
    ensures Take(m, more[0]).Kept? ==>
              && TakeAll(m, more) == TakeAll(Take(m, more[0]).m, more[1..])
              && FirstFault(rs, more) == FirstFault(rs + [more[0]], more[1..])
              && rs + more == (rs + [more[0]]) + more[1..]
    ensures Take(m, more[0]).Dropped? ==>
              TakeAll(m, more) == Dropped(Take(m, more[0]).reason) && FirstFault(rs, more) == Take(m, more[0]).reason
  {
    if Take(m, more[0]).Dropped? { DroppedReason(m, more[0]); }
  }

  /** A list is accepted up to its first fault; until then the maps hold exactly what was reported. */
  lemma {:induction false} TakeAllMeans(m: Maps, rs: seq<Report>, more: seq<Report>)
    requires Holds(m, rs) && Sound(rs)
    ensures FirstFault(rs, more) == ReasonOf(TakeAll(m, more))
    ensures TakeAll(m, more).Kept? ==> Sound(rs + more) && Holds(TakeAll(m, more).m, rs + more)
    decreases |more|
  {
    if more == [] {
      assert rs + more == rs;
    } else {
      TakeFaults(m, rs, more[0]);
      FaultUnfolds(m, rs, more);
      if Take(m, more[0]).Kept? {
        TakeHolds(m, rs, more[0]);
        TakeAllMeans(Take(m, more[0]).m, rs + [more[0]], more[1..]);
      }
    }
  }

  /** An event on a projection that holds these reports: it is refused for its first fault, or held too. */
  lemma EventHeld(env: Env, p: Projection, event: Event, rs: seq<Report>)
    requires Live(p) && Sound(rs) && Holds(MapsOf(p), rs)
    ensures var q, more := AddEvent(env, p, event), EventReports(env, event);
            && q.reason == FirstFault(rs, more)
            && (Live(q) <==> Sound(rs + more))
            && (Live(q) ==> Holds(MapsOf(q), rs + more))
  {
    var more := EventReports(env, event);
    EventTaken(env, p, event);
    TakeAllMeans(MapsOf(p), rs, more);
    FirstFaultIff(rs, more);
    if TakeAll(MapsOf(p), more).Dropped? { AllDroppedReason(MapsOf(p), more); }
  }

  // ---------- lines ----------

  function LogTexts(logs: seq<Option<bytes>>): bytes {
    if logs == [] then [] else (if logs[0].Some? then logs[0].value else []) + LogTexts(logs[1..])
  }

  function LineTexts(lines: seq<bytes>): bytes {
    if lines == [] then [] else lines[0] + [NEWLINE] + LineTexts(lines[1..])
  }

  function WarningTexts(warnings: seq<Option<Warning>>): bytes {
    if warnings == [] then []
    else
      var w := warnings[0];
      (if w.Some? then LineTexts([w.value.short] + w.value.detail) else []) + WarningTexts(warnings[1..])
  }

  function ErrorTexts(errors: seq<Option<bytes>>): bytes {
    if errors == [] then []
    else
      var e := errors[0];
      (if e.Some? && e.value != [] then e.value + [NEWLINE] else []) + ErrorTexts(errors[1..])
  }

  /** What a record has forwarded: its logs, then its warnings line by line, then the errors of its vertices. */
  function DiagnosticText(d: Diagnostics): bytes {
    LogTexts(d.logs) + WarningTexts(d.warnings) + ErrorTexts(d.vertexErrors)
  }

  /** No log and no warning of the record is nil. */
  predicate Diagnosable(d: Diagnostics) {
    (forall l <- d.logs :: l.Some?) && (forall w <- d.warnings :: w.Some?)
  }

  function Forwarded(p: Projection, whole: bool, text: bytes): Projection {
    (if whole then p else Refuse(p, "malformed_stream")).(output := p.output + text)
  }

  lemma {:induction false} LogLinesMeans(p: Projection, lines: seq<bytes>)
    ensures LogLines(p, lines) == p.(output := p.output + LineTexts(lines))
    decreases |lines|
  {
    if lines == [] {
      assert p.output + LineTexts(lines) == p.output;
    } else {
      LogLinesMeans(Log(Log(p, lines[0]), [NEWLINE]), lines[1..]);
      assert p.output + lines[0] + [NEWLINE] + LineTexts(lines[1..]) == p.output + LineTexts(lines);
    }
  }

  lemma ForwardTwice(p: Projection, a: bool, s: bytes, b: bool, t: bytes)
    ensures Forwarded(Forwarded(p, a, s), b, t) == Forwarded(p, a && b, s + t)
  {
    assert p.output + s + t == p.output + (s + t);
  }

  lemma {:induction false} LogAllMeans(p: Projection, logs: seq<Option<bytes>>)
    ensures LogAll(p, logs) == Forwarded(p, forall l <- logs :: l.Some?, LogTexts(logs))
    decreases |logs|
  {
    if logs == [] {
      assert p.output + LogTexts(logs) == p.output;
    } else {
      var text := if logs[0].Some? then logs[0].value else [];
      var q := Forwarded(p, logs[0].Some?, text);
      assert p.output + [] == p.output;
      LogAllMeans(q, logs[1..]);
      ForwardTwice(p, logs[0].Some?, text, forall l <- logs[1..] :: l.Some?, LogTexts(logs[1..]));
      assert logs == [logs[0]] + logs[1..];
    }
  }

  lemma {:induction false} LogWarningsMeans(p: Projection, warnings: seq<Option<Warning>>)
    ensures LogWarnings(p, warnings) == Forwarded(p, forall w <- warnings :: w.Some?, WarningTexts(warnings))
    decreases |warnings|
  {
    if warnings == [] {
      assert p.output + WarningTexts(warnings) == p.output;
    } else {
      var w := warnings[0];
      var text := if w.Some? then LineTexts([w.value.short] + w.value.detail) else [];
      if w.Some? { LogLinesMeans(p, [w.value.short] + w.value.detail); }
      assert p.output + [] == p.output;
      LogWarningsMeans(Forwarded(p, w.Some?, text), warnings[1..]);
      ForwardTwice(p, w.Some?, text, forall x <- warnings[1..] :: x.Some?, WarningTexts(warnings[1..]));
      assert warnings == [w] + warnings[1..];
    }
  }

  lemma {:induction false} LogErrorsMeans(p: Projection, errors: seq<Option<bytes>>)
    ensures LogErrors(p, errors) == Forwarded(p, true, ErrorTexts(errors))
    decreases |errors|
  {
    if errors == [] {
      assert p.output + ErrorTexts(errors) == p.output;
    } else {
      var e := errors[0];
      var text := if e.Some? && e.value != [] then e.value + [NEWLINE] else [];
      if e.Some? {
        LogLinesMeans(p, [e.value]);
        assert LineTexts([e.value]) == e.value + [NEWLINE];
      }
      assert p.output + [] == p.output;
      LogErrorsMeans(Forwarded(p, true, text), errors[1..]);
      ForwardTwice(p, true, text, true, ErrorTexts(errors[1..]));
    }
  }

  /** All diagnostics are forwarded, also after a refusal; a nil log or warning refuses the stream. */
  lemma DiagnosticsForwarded(p: Projection, d: Diagnostics)
    ensures LogDiagnostics(p, d) == Forwarded(p, Diagnosable(d), DiagnosticText(d))
  {
    var logs, warnings := forall l <- d.logs :: l.Some?, forall w <- d.warnings :: w.Some?;
    LogAllMeans(p, d.logs);
    LogWarningsMeans(LogAll(p, d.logs), d.warnings);
    LogErrorsMeans(LogWarnings(LogAll(p, d.logs), d.warnings), d.vertexErrors);
    ForwardTwice(p, logs, LogTexts(d.logs), warnings, WarningTexts(d.warnings));
    ForwardTwice(p, logs && warnings, LogTexts(d.logs) + WarningTexts(d.warnings), true, ErrorTexts(d.vertexErrors));
  }

  datatype LineKind = Blank | Oversize | Unreadable | Records(reports: seq<Report>)

  /** What a line is: a record is an object that decodes, with no nil log or warning. */
  function KindOf(env: Env, line: bytes): LineKind {
    var trimmed := env.trim(line);
    if |line| > MAX_LINE then Oversize
    else if trimmed == [] then Blank
    else if trimmed[0] == OPEN_BRACE && env.diagnose(trimmed).Some? && Diagnosable(env.diagnose(trimmed).value)
            && env.parse(trimmed).Some?
    then Records(EventReports(env, env.parse(trimmed).value))
    else Unreadable
  }

  /** What reading a line forwards, apart from the one note about the event limit. */
  function LineText(env: Env, line: bytes): bytes {
    var trimmed := env.trim(line);
    if trimmed == [] then []
    else if trimmed[0] != OPEN_BRACE then line + [NEWLINE]
    else if env.diagnose(trimmed).None? then Ascii("[malformed build progress record discarded]\n")
    else DiagnosticText(env.diagnose(trimmed).value)
  }

  function EventNote(env: Env, p: Projection, line: bytes): bytes {
    if env.trim(line) != [] && p.reason == "" && p.events >= MAX_EVENTS
    then Ascii("[build observation event limit reached; diagnostics continue]\n") else []
  }

  lemma EventOutput(env: Env, p: Projection, event: Event)
    requires Live(p)
    ensures AddEvent(env, p, event).output == p.output
  {
    EventTaken(env, p, event);
  }

  /** Whatever the state, every line's diagnostics are forwarded. */
  lemma LineForwarded(env: Env, p: Projection, line: bytes)
    requires Inv(p)
    ensures ConsumeLine(env, p, line).output == p.output + EventNote(env, p, line) + LineText(env, line)
  {
    var trimmed := env.trim(line);
    if trimmed != [] {
      var q := CountEvent(p);
      assert p.output + [] == p.output;
      assert q.output == p.output + EventNote(env, p, line);
      if trimmed[0] == OPEN_BRACE && env.diagnose(trimmed).Some? {
        var d := env.diagnose(trimmed).value;
        DiagnosticsForwarded(q, d);
        DiagnosticsKeepMaps(q, d);
        if LogDiagnostics(q, d).reason == "" && env.parse(trimmed).Some? {
          EventOutput(env, LogDiagnostics(q, d), env.parse(trimmed).value);
        }
      } else if trimmed[0] != OPEN_BRACE {
        assert q.output + line + [NEWLINE] == q.output + (line + [NEWLINE]);
      }
    }
  }

  // ---------- a whole stream ----------

  function LineReports(kind: LineKind): seq<Report> {
    if kind.Records? then kind.reports else []
  }

  /** The reports of all lines in order. */
  function ReportsOf(env: Env, lines: seq<bytes>): seq<Report> {
    if lines == [] then []
    else ReportsOf(env, lines[..|lines| - 1]) + LineReports(KindOf(env, lines[|lines| - 1]))
  }

  predicate Counts(kind: LineKind) {
    kind.Unreadable? || kind.Records?
  }

  /** How many lines count as events. */
  function EventCount(env: Env, lines: seq<bytes>): nat {
    if lines == [] then 0
    else EventCount(env, lines[..|lines| - 1]) + if Counts(KindOf(env, lines[|lines| - 1])) then 1 else 0
  }

  ghost function LineFault(count: nat, rs: seq<Report>, kind: LineKind): string {
    match kind
    case Blank => ""
    case Oversize => "limit_exceeded"
    case Unreadable => if count == MAX_EVENTS then "limit_exceeded" else "malformed_stream"
    case Records(more) => if count == MAX_EVENTS then "limit_exceeded" else FirstFault(rs, more)
  }

  /** Why the first line that cannot be taken cannot; empty if all can. */
  ghost function FaultOf(env: Env, lines: seq<bytes>): string {
    if lines == [] then ""
    else
      var init := lines[..|lines| - 1];
      if FaultOf(env, init) != "" then FaultOf(env, init)
      else LineFault(EventCount(env, init), ReportsOf(env, init), KindOf(env, lines[|lines| - 1]))
  }

  ghost predicate Readable(env: Env, lines: seq<bytes>) {
    forall i :: 0 <= i < |lines| ==> KindOf(env, lines[i]).Blank? || KindOf(env, lines[i]).Records?
  }

  /** Every line is blank or a record, there are not too many, and their reports taken together are sound. */
  ghost predicate Clean(env: Env, lines: seq<bytes>) {
    Readable(env, lines) && EventCount(env, lines) <= MAX_EVENTS && Sound(ReportsOf(env, lines))
  }

  lemma NoReportsSound()
    ensures Sound([])
  {
    assert Ids([]) == {} && Keys([]) == {};
  }

  lemma LineFaultIff(count: nat, rs: seq<Report>, kind: LineKind)
    requires Sound(rs) && count <= MAX_EVENTS
    ensures LineFault(count, rs, kind) == "" <==>
            && (kind.Blank? || kind.Records?)
            && (Counts(kind) ==> count < MAX_EVENTS) && Sound(rs + LineReports(kind))
  {
    if kind.Records? {
      FirstFaultIff(rs, kind.reports);
    } else {
      assert rs + [] == rs;
    }
  }

  lemma CleanStays(env: Env, lines: seq<bytes>)
    requires lines != [] && Clean(env, lines)
    ensures Clean(env, lines[..|lines| - 1])
  {
    var init, last := lines[..|lines| - 1], lines[|lines| - 1];
    var before := ReportsOf(env, init);
    forall i | 0 <= i < |init| ensures KindOf(env, init[i]).Blank? || KindOf(env, init[i]).Records? {
      assert init[i] == lines[i];
    }
    PrefixSound(ReportsOf(env, lines), |before|);
    assert ReportsOf(env, lines)[..|before|] == before;
  }

  lemma CleanStep(env: Env, lines: seq<bytes>)
    requires lines != [] && Clean(env, lines[..|lines| - 1])
    ensures var init, kind := lines[..|lines| - 1], KindOf(env, lines[|lines| - 1]);
            Clean(env, lines) <==>
              && (kind.Blank? || kind.Records?)
              && (Counts(kind) ==> EventCount(env, init) < MAX_EVENTS)
              && Sound(ReportsOf(env, init) + LineReports(kind))
  {
    var init, last := lines[..|lines| - 1], lines[|lines| - 1];
    assert lines == init + [last];
    assert Readable(env, lines) <==> Readable(env, init) && (KindOf(env, last).Blank? || KindOf(env, last).Records?);
  }

  /** Whether any line has a fault does not depend on the order in which they are looked at. */
  lemma {:induction false} CleanIffNoFault(env: Env, lines: seq<bytes>)
    ensures FaultOf(env, lines) == "" <==> Clean(env, lines)
    decreases |lines|
  {
    if lines == [] {
      NoReportsSound();
    } else {
      var init := lines[..|lines| - 1];
      CleanIffNoFault(env, init);
      if Clean(env, init) {
        CleanStep(env, lines);
        LineFaultIff(EventCount(env, init), ReportsOf(env, init), KindOf(env, lines[|lines| - 1]));
      } else if Clean(env, lines) {
        CleanStays(env, lines);
      }
    }
  }

  /** Reading the lines in order, as the newline-splitting reference does. */
  function ReadLines(env: Env, p: Projection, lines: seq<bytes>): (q: Projection)
    requires Inv(p)
    ensures Inv(q)
    decreases |lines|
  {
    if lines == [] then p else ReadLines(env, WholeLine(env, p, lines[0]), lines[1..])
  }

  lemma {:induction false} ReadLinesLast(env: Env, p: Projection, lines: seq<bytes>)
    requires Inv(p) && lines != []
    ensures ReadLines(env, p, lines) == WholeLine(env, ReadLines(env, p, lines[..|lines| - 1]), lines[|lines| - 1])
    decreases |lines|
  {
    var init := lines[..|lines| - 1];
    if |lines| > 1 {
      ReadLinesLast(env, WholeLine(env, p, lines[0]), lines[1..]);
      assert init[1..] == lines[1..][..|lines| - 2];
    }
  }

  ghost predicate Reflects(p: Projection, count: nat, rs: seq<Report>) {
    Live(p) && p.events == count && Sound(rs) && Holds(MapsOf(p), rs)
  }

  lemma RecordForwarded(p: Projection, d: Diagnostics)
    requires Live(p) && p.events < MAX_EVENTS && Diagnosable(d)
    ensures LogDiagnostics(CountEvent(p), d) == p.(events := p.events + 1, output := p.output + DiagnosticText(d))
  {
    DiagnosticsForwarded(CountEvent(p), d);
  }

  /** A readable record that leaves the projection live is added after its diagnostics. */
  lemma RecordAdded(env: Env, p: Projection, line: bytes, counted: Projection)
    requires Inv(p) && KindOf(env, line).Records? && Live(counted)
    requires LogDiagnostics(CountEvent(p), env.diagnose(env.trim(line)).value) == counted
    ensures WholeLine(env, p, line) == AddEvent(env, counted, env.parse(env.trim(line)).value)
  {
  }

  /** A record below the event limit is counted, forwarded and added. */
  lemma RecordConsumed(env: Env, p: Projection, line: bytes)
    requires Inv(p) && Live(p) && p.events < MAX_EVENTS && KindOf(env, line).Records?
    ensures var event, text := env.parse(env.trim(line)).value, DiagnosticText(env.diagnose(env.trim(line)).value);
            WholeLine(env, p, line) == AddEvent(env, p.(events := p.events + 1, output := p.output + text), event)
  {
    var d := env.diagnose(env.trim(line)).value;
    RecordForwarded(p, d);
    RecordAdded(env, p, line, p.(events := p.events + 1, output := p.output + DiagnosticText(d)));
  }

  lemma TakenRead(p: Projection, rs: seq<Report>, more: seq<Report>)
    requires Reflects(p, p.events, rs)
    ensures var q := WithTaken(p, TakeAll(MapsOf(p), more));
            q.reason == FirstFault(rs, more) && (q.reason == "" ==> Reflects(q, p.events, rs + more))
  {
    TakeAllMeans(MapsOf(p), rs, more);
    if TakeAll(MapsOf(p), more).Dropped? { AllDroppedReason(MapsOf(p), more); }
  }

  /** One more record. */
  lemma RecordRead(env: Env, p: Projection, line: bytes, rs: seq<Report>)
    requires Inv(p) && Reflects(p, p.events, rs) && p.events < MAX_EVENTS && KindOf(env, line).Records?
    ensures var q := WholeLine(env, p, line);
            && q.reason == FirstFault(rs, KindOf(env, line).reports)
            && (q.reason == "" ==> Reflects(q, p.events + 1, rs + KindOf(env, line).reports))
  {
    var event, text := env.parse(env.trim(line)).value, DiagnosticText(env.diagnose(env.trim(line)).value);
    var counted := p.(events := p.events + 1, output := p.output + text);
    RecordConsumed(env, p, line);
    EventTaken(env, counted, event);
    TakenRead(counted, rs, EventReports(env, event));
  }

  lemma OtherRead(env: Env, p: Projection, line: bytes, rs: seq<Report>)
    requires Inv(p) && Live(p) && p.events <= MAX_EVENTS
    requires !KindOf(env, line).Records? || p.events == MAX_EVENTS
    ensures var q := WholeLine(env, p, line);
            && q.reason == LineFault(p.events, rs, KindOf(env, line))
            && (q.reason == "" ==> q == p)
  {
    var trimmed := env.trim(line);
    if trimmed != [] && trimmed[0] == OPEN_BRACE && env.diagnose(trimmed).Some? {
      DiagnosticsForwarded(CountEvent(p), env.diagnose(trimmed).value);
    }
  }

  lemma RefusedReads(env: Env, p: Projection, line: bytes)
    requires Inv(p) && p.reason != ""
    ensures WholeLine(env, p, line).reason == p.reason
  {
    ConsumeKeeps(env, p, line);
  }

  function CountAfter(count: nat, kind: LineKind): nat {
    if Counts(kind) then count + 1 else count
  }

  /** A line on top of lines without a fault. */
  lemma LineRead(env: Env, p: Projection, line: bytes, rs: seq<Report>)
    requires Inv(p) && Reflects(p, p.events, rs) && p.events <= MAX_EVENTS
    ensures var q, kind := WholeLine(env, p, line), KindOf(env, line);
            && q.reason == LineFault(p.events, rs, kind)
            && (q.reason == "" ==>
                  Reflects(q, CountAfter(p.events, kind), rs + LineReports(kind)) && q.events <= MAX_EVENTS)
  {
    if KindOf(env, line).Records? && p.events < MAX_EVENTS {
      RecordRead(env, p, line, rs);
    } else {
      OtherRead(env, p, line, rs);
      assert rs + [] == rs;
    }
  }

  ghost predicate ReadsAs(env: Env, lines: seq<bytes>, q: Projection) {
    && q.reason == FaultOf(env, lines)
    && (q.reason == "" ==> Reflects(q, EventCount(env, lines), ReportsOf(env, lines)) && q.events <= MAX_EVENTS)
  }

  lemma NothingRead(env: Env)
    ensures ReadsAs(env, [], New)
  {
    NoReportsSound();
    assert Ids([]) == {} && Keys([]) == {};
  }

  lemma OneMoreRead(env: Env, p: Projection, lines: seq<bytes>)
    requires lines != [] && Inv(p) && ReadsAs(env, lines[..|lines| - 1], p)
    ensures ReadsAs(env, lines, WholeLine(env, p, lines[|lines| - 1]))
  {
    if p.reason != "" {
      RefusedReads(env, p, lines[|lines| - 1]);
    } else {
      LineRead(env, p, lines[|lines| - 1], ReportsOf(env, lines[..|lines| - 1]));
    }
  }

  /** What a stream of lines is read as: its first fault, or exactly the maps of all its reports. */
  lemma {:induction false} LinesMean(env: Env, lines: seq<bytes>)
    ensures ReadsAs(env, lines, ReadLines(env, New, lines))
    decreases |lines|
  {
    if lines == [] {
      NothingRead(env);
    } else {
      LinesMean(env, lines[..|lines| - 1]);
      ReadLinesLast(env, New, lines);
      OneMoreRead(env, ReadLines(env, New, lines[..|lines| - 1]), lines);
    }
  }

  /** The complete lines of a stream, without their newlines, and what follows the last of them. */
  function CompleteLines(data: bytes): seq<bytes>
    decreases |data|
  {
    var n := LineEnd(data);
    if n < |data| then [data[..n]] + CompleteLines(data[n + 1..]) else []
  }

  function Pending(data: bytes): bytes
    decreases |data|
  {
    var n := LineEnd(data);
    if n < |data| then Pending(data[n + 1..]) else data
  }

  lemma CutAt(data: bytes, n: nat)
    requires n < |data| && data[n] == NEWLINE && forall i :: 0 <= i < n ==> data[i] != NEWLINE
    ensures data == data[..n] + [NEWLINE] + data[n + 1..] && NEWLINE !in data[..n]
  {
  }

  lemma FirstLine(data: bytes, n: nat)
    requires n == LineEnd(data) < |data|
    ensures CompleteLines(data) == [data[..n]] + CompleteLines(data[n + 1..])
  {
  }

  lemma SamePending(data: bytes, n: nat)
    requires n == LineEnd(data) < |data|
    ensures Pending(data) == Pending(data[n + 1..])
  {
  }

  lemma SplitFirst(data: bytes, n: nat)
    requires n == LineEnd(data) < |data|
    ensures CompleteLines(data) == [data[..n]] + CompleteLines(data[n + 1..])
    ensures Pending(data) == Pending(data[n + 1..])
  {
    FirstLine(data, n);
    SamePending(data, n);
  }

  lemma LineTextsFirst(line: bytes, lines: seq<bytes>)
    ensures LineTexts([line] + lines) == line + [NEWLINE] + LineTexts(lines)
  {
    assert ([line] + lines)[1..] == lines;
  }

  /** Together they are the stream, and none has a newline in it. */
  lemma {:induction false} SplitMeans(data: bytes)
    ensures LineTexts(CompleteLines(data)) + Pending(data) == data && NEWLINE !in Pending(data)
    ensures forall line <- CompleteLines(data) :: NEWLINE !in line
    decreases |data|
  {
    var n := LineEnd(data);
    if n < |data| {
      SplitFirst(data, n);
      CutAt(data, n);
      SplitMeans(data[n + 1..]);
      LineTextsFirst(data[..n], CompleteLines(data[n + 1..]));
    }
  }

  /** The line under way after these lines and this text. */
  function Under(q: Projection, pending: bytes): Framed {
    if |pending| > MAX_LINE then Framed([], true, NoteOversize(q)) else Framed(pending, false, q)
  }

  lemma ReadFirst(env: Env, p: Projection, line: bytes, lines: seq<bytes>)
    requires Inv(p)
    ensures ReadLines(env, p, [line] + lines) == ReadLines(env, WholeLine(env, p, line), lines)
  {
    assert ([line] + lines)[1..] == lines;
  }

  lemma {:induction false} ReferenceReads(env: Env, p: Projection, data: bytes)
    requires Inv(p)
    ensures Reference(env, p, data) == Under(ReadLines(env, p, CompleteLines(data)), Pending(data))
    decreases |data|
  {
    var n := LineEnd(data);
    if n < |data| {
      ReferenceReads(env, WholeLine(env, p, data[..n]), data[n + 1..]);
      SplitFirst(data, n);
      ReadFirst(env, p, data[..n], CompleteLines(data[n + 1..]));
    }
  }

  /** Why nothing is observed of a stream within the byte budget; empty if something is. */
  ghost function StreamFault(env: Env, data: bytes): string {
    if FaultOf(env, CompleteLines(data)) != "" then FaultOf(env, CompleteLines(data))
    else if |Pending(data)| > MAX_LINE then "limit_exceeded"
    else if Pending(data) != [] then "partial_stream"
    else ""
  }

  ghost predicate Within(chunks: seq<bytes>) {
    |Concat(chunks)| <= MAX_BYTES
  }

  /** However a stream is cut: its first fault, or exactly the maps of the reports of all its lines. */
  lemma StreamMeans(env: Env, chunks: seq<bytes>)
    requires Within(chunks)
    ensures var p, data := Flush(env, WriteAll(env, NewStream, chunks).f), Concat(chunks);
            && p.reason == StreamFault(env, data)
            && (p.reason == "" ==> Live(p) && Holds(MapsOf(p), ReportsOf(env, CompleteLines(data))))
  {
    var data := Concat(chunks);
    StreamMeaning(env, chunks);
    ReferenceReads(env, New, data);
    LinesMean(env, CompleteLines(data));
    var f := Reference(env, New, data);
    FlushReason(env, f);
  }

  lemma FlushReason(env: Env, f: Framed)
    requires FramedInv(f)
    ensures Flush(env, f).reason ==
            if f.p.reason != "" then f.p.reason else if f.line != [] || f.discardLine then "partial_stream" else ""
  {
    if f.line != [] && f.p.reason == "" { ConsumeKeeps(env, Refuse(f.p, "partial_stream"), f.line); }
  }
}
