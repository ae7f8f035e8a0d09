/**
 The append-only journal of a recovery invocation. Each append checks that the
 file still has the length the journal has counted, writes one line, absorbs it
 into the running hash and syncs; the medium may fail at any of these points.
 */
module StageJournal {
  import opened Options
  import opened Bytes

  const MAX_JOURNAL_BYTES := 80 * 1024 * 1024

  /** `lines` is what the running hash has absorbed and `count` the number of bytes in it. */
  datatype Journal = Journal(file: bytes, count: nat, lines: seq<bytes>)

  /** What the medium does to one append: the file is still ours, bytes written, a write error, a sync. */
  datatype Medium = Medium(ours: bool, written: nat, failed: bool, synced: bool)

  datatype Outcome = Synced | Unsynced | Refused

  predicate Identity(j: Journal, ours: bool) {
    ours && |j.file| == j.count
  }

  function Append(j: Journal, m: Medium, raw: bytes): (Journal, Outcome) {
    if !Identity(j, m.ours) || j.count + |raw| + 1 > MAX_JOURNAL_BYTES then (j, Refused)
    else
      var line := raw + [NEWLINE];
      var n := if m.written < |line| then m.written else |line|;
      if m.failed || n != |line| then (j.(file := j.file + line[..n]), Refused)
      else (Journal(j.file + line, j.count + |line|, j.lines + [line]), if m.synced then Synced else Unsynced)
  }

  predicate Inv(j: Journal) {
    j.count == |Concat(j.lines)| <= MAX_JOURNAL_BYTES && Concat(j.lines) <= j.file
  }

  /** A refused append absorbs nothing; any other absorbs exactly one line; what is in the file stays. */
  lemma AppendKeeps(j: Journal, m: Medium, raw: bytes)
    requires Inv(j)
    ensures var (next, outcome) := Append(j, m, raw);
            && Inv(next) && j.file <= next.file
            && next.lines == if outcome.Refused? then j.lines else j.lines + [raw + [NEWLINE]]
  {
    ConcatAppend(j.lines, [raw + [NEWLINE]]);
    assert Concat([raw + [NEWLINE]]) == raw + [NEWLINE];
    assert |j.file| == j.count ==> Concat(j.lines) == j.file;
  }

  /**
   An append succeeds exactly when the file is ours and whole, has room for the line, and the medium writes and syncs
   it; it is refused exactly when anything but the sync is missing.
   */
  lemma SyncedIff(j: Journal, m: Medium, raw: bytes)
    requires Inv(j)
    ensures Append(j, m, raw).1 == Synced <==>
            && m.ours && j.file == Concat(j.lines) && j.count + |raw| + 1 <= MAX_JOURNAL_BYTES
            && !m.failed && m.written > |raw| && m.synced
    ensures Append(j, m, raw).1 == Refused <==>
            !(&& m.ours && j.file == Concat(j.lines) && j.count + |raw| + 1 <= MAX_JOURNAL_BYTES
              && !m.failed && m.written > |raw|)
    ensures Append(j, m, raw).1 == Synced ==> var next := Append(j, m, raw).0; next.file == Concat(next.lines)
  {
    AppendKeeps(j, m, raw);
    assert |j.file| == j.count <==> j.file == Concat(j.lines);
  }

  function AppendAll(j: Journal, media: seq<Medium>, raws: seq<bytes>): Journal
    requires |media| == |raws|
    decreases |raws|
  {
    if raws == [] then j else AppendAll(Append(j, media[0], raws[0]).0, media[1..], raws[1..])
  }

  /** A line that reached the file only in part, or whose write was reported failed, ends the journal. */
  lemma {:induction false} TornIsFinal(j: Journal, media: seq<Medium>, raws: seq<bytes>)
    requires |media| == |raws| && |j.file| != j.count
    ensures AppendAll(j, media, raws) == j
    decreases |raws|
  {
    if raws != [] { TornIsFinal(j, media[1..], raws[1..]); }
  }

  /** The digest of the journal, if the file read back is the one that was hashed. */
  function Finish<D(==)>(j: Journal, digest: bytes -> D, synced: bool, ours: bool, readable: bool,
        stillOurs: bool): Option<D> {
    var read := j.file[..if j.count + 1 < |j.file| then j.count + 1 else |j.file|];
    if !synced || !Identity(j, ours) || !readable || |read| != j.count || digest(read) != digest(Concat(j.lines))
       || !Identity(j, stillOurs) then None
    else Some(digest(read))
  }

  /**
   A digest is returned exactly when the medium allows it and the file is the lines absorbed, in order and no more.
   */
  lemma FinishAttests<D>(j: Journal, digest: bytes -> D, synced: bool, ours: bool, readable: bool, stillOurs: bool)
    requires Inv(j)
    ensures var r := Finish(j, digest, synced, ours, readable, stillOurs);
            && (r.Some? <==> synced && ours && readable && stillOurs && j.file == Concat(j.lines))
            && (r.Some? ==> r.value == digest(Concat(j.lines)))
  {
    if |j.file| == j.count {
      assert j.file == Concat(j.lines);
      assert j.file[..|j.file|] == j.file;
    }
  }
}
